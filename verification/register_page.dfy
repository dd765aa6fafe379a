/**
 * The registration form of the browser client: its `validate()` and the submit
 * guard. The username rule here is weaker than the server's: the length is
 * taken untrimmed and has no upper bound.
 */
module RegisterPage {
  import opened Wrappers
  import opened Text
  import opened Patterns
  import opened Validation

  datatype RegisterForm = RegisterForm(username: string, email: string, password: string)

  const UsernameShortMessage := "Username must be at least 3 characters"

  /** `validate()` of the registration page. */
  function ValidateForm(f: RegisterForm): (errs: Errors)
    ensures errs.Keys <= RegistrationFields
    ensures Username in errs <==> |f.username| < 3
    ensures Email in errs <==> !EmailShape(f.email)
    ensures Password in errs <==> |f.password| < 6
    ensures Username in errs ==> errs[Username] == UsernameShortMessage
    ensures Email in errs ==> errs[Email] == EmailInvalidMessage
    ensures Password in errs ==> errs[Password] == PasswordShortMessage
  {
    EmailRegexIsShape(f.email);
    Flag3(Username, UsernameTooShort(f.username), UsernameShortMessage,
          Email, EmailMalformed(f.email), EmailInvalidMessage,
          Password, PasswordTooShort(f.password), PasswordShortMessage)
  }

  predicate UsernameTooShort(u: string) {
    u == "" || |u| < 3
  }

  predicate EmailMalformed(e: string) {
    e == "" || !EmailRegex(e)
  }

  predicate PasswordTooShort(p: string) {
    p == "" || |p| < 6
  }

  /** What `authAPI.register(formData)` sends. */
  function RequestBody(f: RegisterForm): RegistrationBody {
    RegistrationBody(Some(f.username), Some(f.email), Some(f.password))
  }

  /** Every field the client flags, the server flags too; so whatever the
      server accepts, the client accepts. */
  lemma ClientNoStricterThanServer(f: RegisterForm)
    ensures ValidateForm(f).Keys <= ValidateRegistration(RequestBody(f)).Keys
    ensures |ValidateRegistration(RequestBody(f))| == 0 ==> |ValidateForm(f)| == 0
  {
    var client := ValidateForm(f);
    var server := ValidateRegistration(RequestBody(f));
    forall k | k in client
      ensures k in server
    {
      assert k in RegistrationFields;
      if k == Username {
        assert |Trim(f.username)| <= |f.username|;
      }
    }
    if |server| == 0 {
      assert client.Keys <= server.Keys == {};
    }
  }

  /** The email and password rules of the client and the server agree exactly. */
  lemma EmailAndPasswordAgree(f: RegisterForm)
    ensures Email in ValidateForm(f) <==> Email in ValidateRegistration(RequestBody(f))
    ensures Password in ValidateForm(f) <==> Password in ValidateRegistration(RequestBody(f))
  {
  }

  /** The converse fails: a 31-character username passes the client and is
      refused by the server for being longer than 30. */
  lemma ServerRefusesLongName()
    ensures var f := RegisterForm(LongName, SampleEmail, SamplePassword);
      |ValidateForm(f)| == 0 && Username in ValidateRegistration(RequestBody(f))
  {
    SampleEmailValid();
    assert LongName[0] == 'a' && LongName[30] == 'a';
    TrimOfTrimmed(LongName);
    var f := RegisterForm(LongName, SampleEmail, SamplePassword);
    assert ValidateForm(f).Keys == {};
  }

  /** A one-letter username padded with spaces passes the client, which
      counts the spaces, and is refused by the server, which trims first. */
  lemma ServerRefusesPaddedName()
    ensures var f := RegisterForm(PaddedName, SampleEmail, SamplePassword);
      |ValidateForm(f)| == 0 && Username in ValidateRegistration(RequestBody(f))
  {
    SampleEmailValid();
    PaddedNameTrims();
    var f := RegisterForm(PaddedName, SampleEmail, SamplePassword);
    assert ValidateForm(f).Keys == {};
  }

  const PaddedName := "  a  "

  lemma PaddedNameTrims()
    ensures Trim(PaddedName) == "a"
  {
    assert PaddedName == "  " + "a" + "  ";
    assert AllSpace("  ") && !IsSpace('a');
    TrimPadded("  ", "a", "  ");
  }

  const LongName: string := seq(31, _ => 'a')
  const SampleEmail := "a@x.co"
  const SamplePassword := "secret1"

  lemma SampleEmailValid()
    ensures EmailShape(SampleEmail)
  {
    var d := SampleEmail[2..];
    assert d == "x.co";
    assert d[1] == '.';
    assert SplitsAt(SampleEmail, 1);
  }

  datatype Submission = Submission(errors: Errors, request: Option<RegistrationBody>)

  /** `handleSubmit` up to the request: with any error nothing is sent and the
      errors are shown; otherwise the form is sent as it stands. */
  function HandleSubmit(f: RegisterForm): (s: Submission)
    ensures s.request.None? <==> |ValidateForm(f)| > 0
    ensures s.request.None? ==> s.errors == ValidateForm(f)
    ensures s.request.Some? ==> s.request.value == RequestBody(f) && s.errors == map[]
  {
    var errs := ValidateForm(f);
    if |errs| > 0 then Submission(errs, None) else Submission(map[], Some(RequestBody(f)))
  }
}
