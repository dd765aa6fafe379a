/**
 * The create-post form of the browser client: its `validate()`, which mirrors
 * the server's `validatePost` with its own messages, the submit guard, and the
 * `handleChange` update of one input.
 */
module CreatePostPage {
  import opened Wrappers
  import opened Text
  import opened Patterns
  import opened Validation

  /** The controlled inputs; each always holds a string, initially empty. */
  datatype PostForm = PostForm(title: string, content: string, imageUrl: string)

  const EmptyForm := PostForm("", "", "")

  /** The `name` attributes of the form's inputs. */
  type FormField = f: Field | f == Title || f == Content || f == ImageUrl witness Title

  const TitleShortMessage := "Title must be at least 5 characters"
  const TitleLongMessage := "Title must not exceed 120 characters"

  /** `validate()`: the same three rules as the server, with a separate message
      for a title that is too short and one that is too long. */
  function ValidateForm(f: PostForm): (errs: Errors)
    ensures errs.Keys <= PostFields
    ensures Title in errs <==> !(5 <= |Trim(f.title)| <= 120)
    ensures Title in errs ==> errs[Title] == if |Trim(f.title)| < 5 then TitleShortMessage else TitleLongMessage
    ensures Content in errs <==> |Trim(f.content)| < 50
    ensures Content in errs ==> errs[Content] == ContentShortMessage
    ensures ImageUrl in errs <==> !AllSpace(f.imageUrl) && !UrlRegex(f.imageUrl)
    ensures ImageUrl in errs ==> errs[ImageUrl] == ImageUrlMessage
  {
    TitleRuleMeans(f.title);
    ContentRuleMeans(f.content);
    Flag3(Title, TitleTooShort(f.title) || TitleTooLong(f.title),
            if TitleTooShort(f.title) then TitleShortMessage else TitleLongMessage,
          Content, ContentTooShort(f.content), ContentShortMessage,
          ImageUrl, UrlMalformed(f.imageUrl), ImageUrlMessage)
  }

  predicate TitleTooShort(t: string) {
    t == "" || |Trim(t)| < 5
  }

  predicate TitleTooLong(t: string) {
    |Trim(t)| > 120
  }

  predicate ContentTooShort(c: string) {
    c == "" || |Trim(c)| < 50
  }

  predicate UrlMalformed(u: string) {
    u != "" && Trim(u) != "" && !UrlRegex(u)
  }

  lemma TitleRuleMeans(t: string)
    ensures TitleTooShort(t) <==> |Trim(t)| < 5
    ensures TitleTooLong(t) ==> !TitleTooShort(t)
  {
    if t == "" {
      TrimEmpty();
    }
  }

  lemma ContentRuleMeans(c: string)
    ensures ContentTooShort(c) <==> |Trim(c)| < 50
  {
    if c == "" {
      TrimEmpty();
    }
  }

  /** What `postsAPI.create(formData)` sends: the three inputs, nothing else. */
  function RequestBody(f: PostForm): PostBody {
    PostBody(Some(f.title), Some(f.content), Some(f.imageUrl), None, None)
  }

  /** The client and the server flag exactly the same fields for every form. */
  lemma SameKeysAsServer(f: PostForm)
    ensures ValidateForm(f).Keys == ValidatePost(RequestBody(f)).Keys
  {
    var client := ValidateForm(f);
    var server := ValidatePost(RequestBody(f));
    forall k | k in client
      ensures k in server
    {
      assert k in PostFields;
    }
    forall k | k in server
      ensures k in client
    {
      assert k in PostFields;
    }
  }

  /** The page state `handleChange` and `handleSubmit` act on. */
  datatype FormState = FormState(form: PostForm, errors: Errors, loading: bool)

  const InitialState := FormState(EmptyForm, map[], false)

  function Input(f: PostForm, name: FormField): string {
    match name
    case Title => f.title
    case Content => f.content
    case ImageUrl => f.imageUrl
  }

  /** `{ ...prev, [name]: value }` */
  function SetInput(f: PostForm, name: FormField, value: string): (r: PostForm)
    ensures Input(r, name) == value
    ensures forall g: FormField :: g != name ==> Input(r, g) == Input(f, g)
  {
    match name
    case Title => f.(title := value)
    case Content => f.(content := value)
    case ImageUrl => f.(imageUrl := value)
  }

  /** `handleChange`: one input takes the typed value, and that input's error
      message, if it had a non-empty one, is blanked; the key itself stays. */
  function HandleChange(st: FormState, name: FormField, value: string): (r: FormState)
    ensures Input(r.form, name) == value
    ensures forall g: FormField :: g != name ==> Input(r.form, g) == Input(st.form, g)
    ensures r.errors.Keys == st.errors.Keys
    ensures name in st.errors ==> r.errors[name] == ""
    ensures forall k :: k in st.errors && k != name ==> r.errors[k] == st.errors[k]
    ensures r.loading == st.loading
  {
    var errors := if name in st.errors && st.errors[name] != "" then st.errors[name := ""] else st.errors;
    FormState(SetInput(st.form, name, value), errors, st.loading)
  }

  /** The result of pressing submit: the new state and the request sent, if any. */
  datatype Submission = Submission(state: FormState, request: Option<PostBody>)

  /** `handleSubmit` up to the request: with any error nothing is sent and the
      errors are shown; otherwise the form is sent as it stands, and the server
      validator accepts it. */
  function HandleSubmit(st: FormState): (s: Submission)
    ensures s.request.None? <==> |ValidateForm(st.form)| > 0
    ensures s.request.None? ==> s.state == st.(errors := ValidateForm(st.form))
    ensures s.request.Some? ==>
      && s.request.value == RequestBody(st.form)
      && s.state == st.(loading := true, errors := map[])
      && |ValidatePost(s.request.value)| == 0
  {
    var errs := ValidateForm(st.form);
    if |errs| > 0 then Submission(st.(errors := errs), None)
    else
      SameKeysAsServer(st.form);
      assert ValidatePost(RequestBody(st.form)).Keys == {};
      Submission(st.(loading := true, errors := map[]), Some(RequestBody(st.form)))
  }
}
