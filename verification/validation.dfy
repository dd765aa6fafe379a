/**
 * The request-validation middleware of the API server. Each validator reads
 * the body, collects an error message for EVERY failing field into one map,
 * and either lets the request through unchanged (empty map) or answers 400
 * with the whole map as `details`.
 */
module Validation {
  import opened Wrappers
  import opened Text
  import opened Patterns

  /** The body fields any validator may report on. */
  datatype Field = Username | Email | Password | Title | Content | ImageUrl

  /** Field name to message, as in the JavaScript `errors` object. */
  type Errors = map<Field, string>

  const RegistrationFields: set<Field> := {Username, Email, Password}
  const LoginFields: set<Field> := {Email, Password}
  const PostFields: set<Field> := {Title, Content, ImageUrl}

  datatype RegistrationBody = RegistrationBody(username: Option<string>, email: Option<string>, password: Option<string>)

  datatype LoginBody = LoginBody(email: Option<string>, password: Option<string>)

  /** A post body; `userId` and `username` stand for owner fields a client may
      put in the body, which nothing in the server reads. */
  datatype PostBody = PostBody(
    title: Option<string>,
    content: Option<string>,
    imageUrl: Option<string>,
    userId: Option<string>,
    username: Option<string>)

  const UsernameRangeMessage := "Username must be between 3 and 30 characters"
  const EmailInvalidMessage := "Valid email is required"
  const PasswordShortMessage := "Password must be at least 6 characters"
  const EmailRequiredMessage := "Email is required"
  const PasswordRequiredMessage := "Password is required"
  const TitleRangeMessage := "Title must be between 5 and 120 characters"
  const ContentShortMessage := "Content must be at least 50 characters"
  const ImageUrlMessage := "Image URL must be a valid URL"
  const ValidationFailed := "Validation failed"

  /** One `if` of a validator: record `message` under `field` when `failed`. */
  function Flag(errs: Errors, failed: bool, field: Field, message: string): (r: Errors)
    ensures r.Keys == if failed then errs.Keys + {field} else errs.Keys
    ensures failed ==> r[field] == message
    ensures forall f :: f in errs && f != field ==> f in r && r[f] == errs[f]
  {
    if failed then errs[field := message] else errs
  }

  /** Three `if`s in a row on three different fields: each field is reported,
      with its message, exactly when its test failed. */
  function Flag3(f1: Field, t1: bool, m1: string, f2: Field, t2: bool, m2: string,
                 f3: Field, t3: bool, m3: string): (r: Errors)
    requires f1 != f2 && f1 != f3 && f2 != f3
    ensures r.Keys <= {f1, f2, f3}
    ensures (f1 in r <==> t1) && (f2 in r <==> t2) && (f3 in r <==> t3)
    ensures (t1 ==> r[f1] == m1) && (t2 ==> r[f2] == m2) && (t3 ==> r[f3] == m3)
  {
    Flag(Flag(Flag(map[], t1, f1, m1), t2, f2, m2), t3, f3, m3)
  }

  predicate BadUsername(u: Option<string>) {
    Falsy(u) || |Trim(u.value)| < 3 || |Trim(u.value)| > 30
  }

  predicate BadEmail(e: Option<string>) {
    Falsy(e) || !EmailRegex(e.value)
  }

  predicate BadPassword(p: Option<string>) {
    Falsy(p) || |p.value| < 6
  }

  predicate BadTitle(t: Option<string>) {
    Falsy(t) || |Trim(t.value)| < 5 || |Trim(t.value)| > 120
  }

  predicate BadContent(c: Option<string>) {
    Falsy(c) || |Trim(c.value)| < 50
  }

  /** Only a URL with something besides white space is checked, and the check
      is on the untrimmed string. */
  predicate BadImageUrl(u: Option<string>) {
    !Falsy(u) && Trim(u.value) != "" && !UrlRegex(u.value)
  }

  lemma BadTitleMeans(t: Option<string>)
    ensures BadTitle(t) <==> t.None? || !(5 <= |Trim(t.value)| <= 120)
  {
    if t == Some("") {
      TrimEmpty();
    }
  }

  lemma BadContentMeans(c: Option<string>)
    ensures BadContent(c) <==> c.None? || |Trim(c.value)| < 50
  {
    if c == Some("") {
      TrimEmpty();
    }
  }

  lemma BadImageUrlMeans(u: Option<string>)
    ensures BadImageUrl(u) <==> u.Some? && !AllSpace(u.value) && !UrlRegex(u.value)
  {
  }

  /** `validateRegistration`: every failing field is reported, under its own
      name; the email test is the plain reading of the email expression. */
  function ValidateRegistration(b: RegistrationBody): (errs: Errors)
    ensures errs.Keys <= RegistrationFields
    ensures Username in errs <==> b.username.None? || !(3 <= |Trim(b.username.value)| <= 30)
    ensures Email in errs <==> b.email.None? || !EmailShape(b.email.value)
    ensures Password in errs <==> b.password.None? || |b.password.value| < 6
    ensures Username in errs ==> errs[Username] == UsernameRangeMessage
    ensures Email in errs ==> errs[Email] == EmailInvalidMessage
    ensures Password in errs ==> errs[Password] == PasswordShortMessage
  {
    EmailRegexIsShape(b.email.GetOr(""));
    Flag3(Username, BadUsername(b.username), UsernameRangeMessage,
          Email, BadEmail(b.email), EmailInvalidMessage,
          Password, BadPassword(b.password), PasswordShortMessage)
  }

  /** `validateLogin`: presence only, no format or length test. */
  function ValidateLogin(b: LoginBody): (errs: Errors)
    ensures errs.Keys <= LoginFields
    ensures Email in errs <==> b.email.None? || b.email.value == ""
    ensures Password in errs <==> b.password.None? || b.password.value == ""
    ensures Email in errs ==> errs[Email] == EmailRequiredMessage
    ensures Password in errs ==> errs[Password] == PasswordRequiredMessage
  {
    var e0: Errors := map[];
    var e1 := Flag(e0, Falsy(b.email), Email, EmailRequiredMessage);
    Flag(e1, Falsy(b.password), Password, PasswordRequiredMessage)
  }

  /** `validatePost`: title and content are measured after trimming; an image
      URL is judged only when it is not blank, and then untrimmed. */
  function ValidatePost(b: PostBody): (errs: Errors)
    ensures errs.Keys <= PostFields
    ensures Title in errs <==> b.title.None? || !(5 <= |Trim(b.title.value)| <= 120)
    ensures Content in errs <==> b.content.None? || |Trim(b.content.value)| < 50
    ensures ImageUrl in errs <==> b.imageUrl.Some? && !AllSpace(b.imageUrl.value) && !UrlRegex(b.imageUrl.value)
    ensures Title in errs ==> errs[Title] == TitleRangeMessage
    ensures Content in errs ==> errs[Content] == ContentShortMessage
    ensures ImageUrl in errs ==> errs[ImageUrl] == ImageUrlMessage
  {
    BadTitleMeans(b.title);
    BadContentMeans(b.content);
    BadImageUrlMeans(b.imageUrl);
    Flag3(Title, BadTitle(b.title), TitleRangeMessage,
          Content, BadContent(b.content), ContentShortMessage,
          ImageUrl, BadImageUrl(b.imageUrl), ImageUrlMessage)
  }

  /** What a validation middleware does with a request. */
  datatype Gate<B> =
    | Next(body: B)
    | Reject(status: int, message: string, details: Errors)

  /** The common tail of the three validators: call `next()` with the body
      untouched when nothing failed, otherwise answer 400 with every error. */
  function Decide<B>(body: B, errs: Errors): (g: Gate<B>)
    ensures g.Next? <==> |errs| == 0
    ensures g.Next? ==> g.body == body
    ensures g.Reject? ==> g.status == 400 && g.message == ValidationFailed && g.details == errs
  {
    if |errs| > 0 then Reject(400, ValidationFailed, errs) else Next(body)
  }

  function RegistrationGate(b: RegistrationBody): (g: Gate<RegistrationBody>)
    ensures g.Next? <==> |ValidateRegistration(b)| == 0
    ensures g.Next? ==> g.body == b
    ensures g.Reject? ==> g == Reject(400, ValidationFailed, ValidateRegistration(b))
  {
    Decide(b, ValidateRegistration(b))
  }

  function LoginGate(b: LoginBody): (g: Gate<LoginBody>)
    ensures g.Next? <==> |ValidateLogin(b)| == 0
    ensures g.Next? ==> g.body == b
    ensures g.Reject? ==> g == Reject(400, ValidationFailed, ValidateLogin(b))
  {
    Decide(b, ValidateLogin(b))
  }

  function PostGate(b: PostBody): (g: Gate<PostBody>)
    ensures g.Next? <==> |ValidatePost(b)| == 0
    ensures g.Next? ==> g.body == b
    ensures g.Reject? ==> g == Reject(400, ValidationFailed, ValidatePost(b))
  {
    Decide(b, ValidatePost(b))
  }

  /** Registration passes exactly when all three fields are good at once; the
      body handed on is the one received. */
  lemma RegistrationGateIff(b: RegistrationBody)
    ensures RegistrationGate(b).Next? <==>
      && b.username.Some? && 3 <= |Trim(b.username.value)| <= 30
      && b.email.Some? && EmailShape(b.email.value)
      && b.password.Some? && |b.password.value| >= 6
    ensures RegistrationGate(b).Next? ==> RegistrationGate(b).body == b
    ensures RegistrationGate(b).Reject? ==> RegistrationGate(b).details.Keys <= RegistrationFields
  {
    var errs := ValidateRegistration(b);
    if !(Username in errs || Email in errs || Password in errs) {
      assert errs.Keys == {};
    }
  }

  /** Login passes exactly when both fields are present and non-empty. */
  lemma LoginGateIff(b: LoginBody)
    ensures LoginGate(b).Next? <==> !Falsy(b.email) && !Falsy(b.password)
    ensures LoginGate(b).Next? ==> LoginGate(b).body == b
  {
    var errs := ValidateLogin(b);
    if !(Email in errs || Password in errs) {
      assert errs.Keys == {};
    }
  }

  /** A post passes exactly when title and content are in range after trimming
      and the image URL, if not blank, matches the URL expression untrimmed. */
  lemma PostGateIff(b: PostBody)
    ensures PostGate(b).Next? <==>
      && b.title.Some? && 5 <= |Trim(b.title.value)| <= 120
      && b.content.Some? && |Trim(b.content.value)| >= 50
      && (b.imageUrl.Some? && !AllSpace(b.imageUrl.value) ==> UrlRegex(b.imageUrl.value))
    ensures PostGate(b).Next? ==> PostGate(b).body == b
  {
    var errs := ValidatePost(b);
    if !(Title in errs || Content in errs || ImageUrl in errs) {
      assert errs.Keys == {};
    }
  }

  /** An image URL that starts with white space is rejected exactly when it is
      not blank: the blank test trims it, the pattern does not. */
  lemma PaddedImageUrl(b: PostBody)
    requires b.imageUrl.Some? && |b.imageUrl.value| > 0 && IsSpace(b.imageUrl.value[0])
    ensures ImageUrl in ValidatePost(b) <==> !AllSpace(b.imageUrl.value)
  {
    UrlRegexRejectsLeadingSpace(b.imageUrl.value);
  }

  /** A blank image URL is never checked, while one with a leading space is
      checked untrimmed and therefore fails. */
  lemma ImageUrlEdgeCases(b: PostBody)
    ensures b.imageUrl == Some("   ") ==> ImageUrl !in ValidatePost(b)
    ensures b.imageUrl == Some(" http://x") ==> ImageUrl in ValidatePost(b)
  {
    if b.imageUrl == Some(" http://x") {
      assert IsSpace(" http://x"[0]) && !IsSpace(" http://x"[1]);
      PaddedImageUrl(b);
    }
  }
}
