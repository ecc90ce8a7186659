/**
 * The sign-in form inside the auth modal (`LoginForm`): its submit handler
 * checks the two fields, then looks the pair up in a fixed credential list.
 */
module LoginForm {
  import opened Wrappers
  import opened JsString
  import opened JsArray
  import opened Effects

  datatype Credential = Credential(email: string, password: string)

  /** `VALID_CREDENTIALS` */
  const ValidCredentials: seq<Credential> := [
    Credential("demo@example.com", "password123"),
    Credential("test@user.com", "testpass")
  ]

  datatype Verdict = Accepted | MissingFields | WrongPassword | UnknownEmail

  const MissingFieldsMessage := "Please enter both email and password"
  const WrongPasswordMessage := "Incorrect password. Please try again."
  const UnknownEmailMessage := "Invalid email or password. Please check your credentials and try again."

  /** Some entry of `creds` has exactly this (already normalised) email. */
  predicate EmailListed(creds: seq<Credential>, normalized: string) {
    exists c :: c in creds && c.email == normalized
  }

  /** Some entry of `creds` has this normalised email together with this verbatim password. */
  predicate PairListed(creds: seq<Credential>, normalized: string, password: string) {
    exists c :: c in creds && c.email == normalized && c.password == password
  }

  /**
   * The decision taken by `handleSubmit`: empty fields first, then a `find`
   * on (normalised email, verbatim password), then a second `find` on the
   * email alone to choose the rejection message.
   */
  function Decide(email: string, password: string): (v: Verdict)
    ensures v == MissingFields <==> email == [] || password == []
    ensures v == Accepted <==>
      email != [] && password != [] && PairListed(ValidCredentials, NormalizeEmail(email), password)
    ensures v == WrongPassword <==>
      email != [] && password != [] && !PairListed(ValidCredentials, NormalizeEmail(email), password) &&
      EmailListed(ValidCredentials, NormalizeEmail(email))
    ensures v == UnknownEmail <==>
      email != [] && password != [] && !EmailListed(ValidCredentials, NormalizeEmail(email))
  {
    if email == [] || password == [] then MissingFields
    else
      var normalized := NormalizeEmail(email);
      var validUser := Find(ValidCredentials, (c: Credential) => c.email == normalized && c.password == password);
      if validUser.Some? then Accepted
      else
        var emailExists := Find(ValidCredentials, (c: Credential) => c.email == normalized);
        if emailExists.Some? then WrongPassword else UnknownEmail
  }

  /** What `handleSubmit` does: one `alert` on every rejection, one `onSubmit()` call on acceptance. */
  function HandleSubmit(email: string, password: string): (effects: seq<Effect>)
    ensures |effects| == 1
    ensures effects == [OnSubmit] <==> Decide(email, password) == Accepted
    ensures effects[0].Alert? <==> Decide(email, password) != Accepted
  {
    match Decide(email, password)
    case Accepted => [OnSubmit]
    case MissingFields => [Alert(MissingFieldsMessage)]
    case WrongPassword => [Alert(WrongPasswordMessage)]
    case UnknownEmail => [Alert(UnknownEmailMessage)]
  }

  /**
   * The emptiness check looks at the raw string, so an email made only of
   * blanks gets past it; it then normalises to "" and is reported unknown.
   */
  lemma WhitespaceEmailIsUnknown(email: string, password: string)
    requires email != [] && IsAllWhitespace(email) && password != []
    ensures Decide(email, password) == UnknownEmail
  {
    NormalizeEmailFacts(email);
  }

  /**
   * The password is compared verbatim: once a pair is accepted, any other
   * non-empty password for the same email (another case, added padding) is
   * reported as a wrong password.
   */
  lemma PasswordIsVerbatim(email: string, password: string, other: string)
    requires Decide(email, password) == Accepted
    requires other != [] && other != password
    ensures Decide(email, other) == WrongPassword
  {
    var normalized := NormalizeEmail(email);
    var c :| c in ValidCredentials && c.email == normalized && c.password == password;
    assert EmailListed(ValidCredentials, normalized);
    assert !PairListed(ValidCredentials, normalized, other) by {
      forall d | d in ValidCredentials && d.email == normalized
        ensures d.password != other
      {
        assert d == c;
      }
    }
  }

  /** A listed email with any password other than its own is reported as a wrong password. */
  lemma ListedEmailOtherPassword(email: string, password: string, c: Credential)
    requires email != [] && password != []
    requires c in ValidCredentials && NormalizeEmail(email) == c.email && password != c.password
    ensures Decide(email, password) == WrongPassword
  {
  }

  // The sample inputs below are passed as parameters pinned by `requires`,
  // which keeps the verifier from unrolling the string functions on literals.

  lemma PaddedSampleNormalForm(email: string)
    requires email == " DEMO@example.com "
    ensures NormalizeEmail(email) == "demo@example.com"
  {
    var core := "demo@example.com";
    PaddedSampleLowerCase(email, core);
    SampleHasNoWhitespace(core);
    TrimPadded(core);
  }

  lemma PaddedSampleLowerCase(email: string, core: string)
    requires email == " DEMO@example.com " && core == "demo@example.com"
    ensures ToLowerAscii(email) == [' '] + core + [' ']
  {
  }

  lemma SampleHasNoWhitespace(core: string)
    requires core == "demo@example.com"
    ensures core != [] && HasNoWhitespace(core)
  {
  }

  lemma ListedSampleNormalForm(email: string)
    requires email == "demo@example.com"
    ensures NormalizeEmail(email) == ValidCredentials[0].email
  {
    NormalizeEmailCanonical(email);
  }

  /** A padded, upper-case spelling of a listed email is normalised onto it and accepted. */
  lemma ExamplePaddedEmailAccepted(email: string, password: string)
    requires email == " DEMO@example.com " && password == "password123"
    ensures Decide(email, password) == Accepted
  {
    PaddedSampleNormalForm(email);
    assert ValidCredentials[0] == Credential(NormalizeEmail(email), password);
  }

  /** A listed email with a password that is not its own is a wrong password. */
  lemma ExampleWrongPassword(email: string, password: string)
    requires email == "demo@example.com" && password == "wrong"
    ensures Decide(email, password) == WrongPassword
  {
    ListedSampleNormalForm(email);
    ListedEmailOtherPassword(email, password, ValidCredentials[0]);
  }

  /** An email that is not listed is unknown. */
  lemma ExampleUnknownEmail(email: string, password: string)
    requires email == "nobody@x.com" && password == "x"
    ensures Decide(email, password) == UnknownEmail
  {
    UnknownSampleLength(email);
    UnlistedLength(NormalizeEmail(email));
  }

  /** No listed email is twelve characters long. */
  lemma UnlistedLength(normalized: string)
    requires |normalized| == 12
    ensures !EmailListed(ValidCredentials, normalized)
  {
    assert |ValidCredentials[0].email| == 16 && |ValidCredentials[1].email| == 13;
  }

  lemma UnknownSampleLength(email: string)
    requires email == "nobody@x.com"
    ensures |NormalizeEmail(email)| == 12
  {
    NormalizeEmailCanonical(email);
  }
}
