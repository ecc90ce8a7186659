/**
 * The sign-up form inside the auth modal (`SignUpForm`): five guard clauses
 * over (email, password, repeat password), the first failing one deciding
 * the alert, and `onSubmit()` only when all pass. Nothing is ever added to
 * the list of known emails.
 */
module SignUpForm {
  import opened JsString
  import opened Effects
  import LoginForm

  /** `VALID_EMAILS` */
  const ValidEmails: seq<string> := ["demo@example.com", "test@user.com"]

  const MinPasswordLength := 8

  datatype Verdict =
    | Accepted
    | MissingFields
    | InvalidEmail
    | AlreadyRegistered
    | PasswordMismatch
    | PasswordTooShort

  const MissingFieldsMessage := "Please fill in all fields"
  const InvalidEmailMessage := "Please enter a valid email address"
  const AlreadyRegisteredMessage := "This email is already registered. Please sign in or use a different email."
  const PasswordMismatchMessage := "Passwords do not match"
  const PasswordTooShortMessage := "Password must be at least 8 characters long"

  /** The regex class `[^\s@]`. */
  predicate IsPlain(c: char) {
    !IsWhitespace(c) && c != '@'
  }

  predicate AllPlain(s: string) {
    forall k :: 0 <= k < |s| ==> IsPlain(s[k])
  }

  /**
   * `/^[^\s@]+@[^\s@]+\.[^\s@]+$/.test(s)`: `s` splits into a non-empty plain
   * run, `@`, a non-empty plain run, `.`, and a non-empty plain run. The middle
   * run may itself hold dots, so any dot of the domain can be the one matched.
   */
  predicate MatchesEmailRegex(s: string) {
    exists at, dot | 0 < at < |s| && at + 1 < dot < |s| - 1 ::
      && s[at] == '@' && s[dot] == '.'
      && AllPlain(s[..at]) && AllPlain(s[at + 1..dot]) && AllPlain(s[dot + 1..])
  }

  /** The domain holds a `.` that is neither its first nor its last character. */
  predicate HasInnerDot(domain: string) {
    exists k | 0 < k < |domain| - 1 :: domain[k] == '.'
  }

  /**
   * The same test stated as three conditions on the string: no whitespace and
   * exactly one `@`; something before the `@`; and a `.` in the domain (the
   * part after the `@`) that is neither its first nor its last character.
   */
  predicate HasEmailShape(s: string) {
    && HasNoWhitespace(s)
    && exists at | 0 <= at < |s| ::
         && s[at] == '@'
         && (forall k :: 0 <= k < |s| && k != at ==> s[k] != '@')
         && at > 0
         && HasInnerDot(s[at + 1..])
  }

  /** A string the regex accepts has the three-condition shape. */
  lemma RegexImpliesShape(s: string)
    requires MatchesEmailRegex(s)
    ensures HasEmailShape(s)
  {
    var at, dot :| 0 < at < |s| && at + 1 < dot < |s| - 1 &&
      s[at] == '@' && s[dot] == '.' &&
      AllPlain(s[..at]) && AllPlain(s[at + 1..dot]) && AllPlain(s[dot + 1..]);
    forall k | 0 <= k < |s| && k != at ensures IsPlain(s[k]) {
      if k < at {
        assert s[k] == s[..at][k];
      } else if k < dot {
        assert s[k] == s[at + 1..dot][k - at - 1];
      } else if k > dot {
        assert s[k] == s[dot + 1..][k - dot - 1];
      }
    }
    assert s[at + 1..][dot - at - 1] == '.';
  }

  /** A string with the three-condition shape is accepted by the regex. */
  lemma ShapeImpliesRegex(s: string)
    requires HasEmailShape(s)
    ensures MatchesEmailRegex(s)
  {
    var at :| 0 <= at < |s| && s[at] == '@' &&
      (forall k :: 0 <= k < |s| && k != at ==> s[k] != '@') &&
      at > 0 && HasInnerDot(s[at + 1..]);
    var domain := s[at + 1..];
    var k :| 0 < k < |domain| - 1 && domain[k] == '.';
    var dot := at + 1 + k;
    assert s[dot] == '.';
    assert AllPlain(s[..at]) by {
      var local := s[..at];
      forall j | 0 <= j < |local| ensures IsPlain(local[j]) { assert local[j] == s[j]; }
    }
    assert AllPlain(s[at + 1..dot]) by {
      var mid := s[at + 1..dot];
      forall j | 0 <= j < |mid| ensures IsPlain(mid[j]) { assert mid[j] == s[at + 1 + j]; }
    }
    assert AllPlain(s[dot + 1..]) by {
      var tld := s[dot + 1..];
      forall j | 0 <= j < |tld| ensures IsPlain(tld[j]) { assert tld[j] == s[dot + 1 + j]; }
    }
  }

  /** The regex and the three conditions accept exactly the same strings. */
  lemma EmailRegexIffShape(s: string)
    ensures MatchesEmailRegex(s) <==> HasEmailShape(s)
  {
    if MatchesEmailRegex(s) { RegexImpliesShape(s); }
    if HasEmailShape(s) { ShapeImpliesRegex(s); }
  }

  /** An email that passes the format check has no whitespace, so its `trim()` is the identity. */
  lemma WellFormedEmailIsTrimmed(email: string)
    requires MatchesEmailRegex(email)
    ensures Trim(email) == email
    ensures NormalizeEmail(email) == ToLowerAscii(email)
  {
    EmailRegexIffShape(email);
    TrimWithoutWhitespace(email);
    ToLowerAsciiFacts(email);
    TrimWithoutWhitespace(ToLowerAscii(email));
  }

  /** On an email the regex accepts, the code's registration test is the plain lower-cased lookup. */
  lemma RegistrationTestOnWellFormed(email: string)
    requires MatchesEmailRegex(email)
    ensures NormalizeEmail(email) in ValidEmails <==> ToLowerAscii(email) in ValidEmails
  {
    var normalized := NormalizeEmail(email);
    assert normalized == ToLowerAscii(email) by {
      WellFormedEmailIsTrimmed(email);
    }
  }

  /** The code's two email checks (regex, then trimmed lower-cased lookup), restated without regex and `trim`. */
  lemma EmailChecksAgree(email: string)
    ensures MatchesEmailRegex(email) <==> HasEmailShape(email)
    ensures MatchesEmailRegex(email) ==> (NormalizeEmail(email) in ValidEmails <==> ToLowerAscii(email) in ValidEmails)
  {
    EmailRegexIffShape(email);
    if MatchesEmailRegex(email) {
      RegistrationTestOnWellFormed(email);
    }
  }

  /** All three fields are non-empty. */
  predicate Filled(email: string, password: string, repeatPassword: string) {
    email != [] && password != [] && repeatPassword != []
  }

  /**
   * The decision taken by `handleSubmit`: the checks run in a fixed order and
   * the first that fails decides. Each verdict is characterised by every
   * earlier check passing and its own check failing, with the email checks
   * stated by the three-condition shape and plain lower-casing (no `trim`,
   * no regex).
   */
  function Decide(email: string, password: string, repeatPassword: string): (v: Verdict)
    ensures v == MissingFields <==> !Filled(email, password, repeatPassword)
    ensures v == InvalidEmail <==> Filled(email, password, repeatPassword) && !HasEmailShape(email)
    ensures v == AlreadyRegistered <==>
      Filled(email, password, repeatPassword) && HasEmailShape(email) && ToLowerAscii(email) in ValidEmails
    ensures v == PasswordMismatch <==>
      Filled(email, password, repeatPassword) && HasEmailShape(email) && ToLowerAscii(email) !in ValidEmails &&
      password != repeatPassword
    ensures v == PasswordTooShort <==>
      Filled(email, password, repeatPassword) && HasEmailShape(email) && ToLowerAscii(email) !in ValidEmails &&
      password == repeatPassword && |password| < MinPasswordLength
    ensures v == Accepted <==>
      Filled(email, password, repeatPassword) && HasEmailShape(email) && ToLowerAscii(email) !in ValidEmails &&
      password == repeatPassword && |password| >= MinPasswordLength
  {
    EmailChecksAgree(email);
    if email == [] || password == [] || repeatPassword == [] then MissingFields
    else if !MatchesEmailRegex(email) then InvalidEmail
    else if NormalizeEmail(email) in ValidEmails then AlreadyRegistered
    else if password != repeatPassword then PasswordMismatch
    else if |password| < MinPasswordLength then PasswordTooShort
    else Accepted
  }

  /** What `handleSubmit` does: `onSubmit()` once when every check passes, otherwise one alert. */
  function HandleSubmit(email: string, password: string, repeatPassword: string): (effects: seq<Effect>)
    ensures |effects| == 1
    ensures effects == [OnSubmit] <==> Decide(email, password, repeatPassword) == Accepted
    ensures effects[0].Alert? <==> Decide(email, password, repeatPassword) != Accepted
  {
    match Decide(email, password, repeatPassword)
    case Accepted => [OnSubmit]
    case MissingFields => [Alert(MissingFieldsMessage)]
    case InvalidEmail => [Alert(InvalidEmailMessage)]
    case AlreadyRegistered => [Alert(AlreadyRegisteredMessage)]
    case PasswordMismatch => [Alert(PasswordMismatchMessage)]
    case PasswordTooShort => [Alert(PasswordTooShortMessage)]
  }

  /** The known-email list is exactly the set of emails in the sign-in form's credential list. */
  lemma ValidEmailsAreLoginEmails()
    ensures forall e :: e in ValidEmails <==> LoginForm.EmailListed(LoginForm.ValidCredentials, e)
  {
    assert LoginForm.ValidCredentials[0] in LoginForm.ValidCredentials;
    assert LoginForm.ValidCredentials[1] in LoginForm.ValidCredentials;
  }

  /**
   * Sign-up stores nothing: an email it accepts is not in the sign-in list,
   * so signing in with it afterwards is refused as an unknown email (or as
   * missing fields when the password is left empty).
   */
  lemma AcceptedSignUpCannotSignIn(email: string, password: string, repeatPassword: string, loginPassword: string)
    requires Decide(email, password, repeatPassword) == Accepted
    ensures LoginForm.Decide(email, loginPassword) != LoginForm.Accepted
    ensures loginPassword != [] ==> LoginForm.Decide(email, loginPassword) == LoginForm.UnknownEmail
  {
    ValidEmailsAreLoginEmails();
  }

  /** The already-registered sample: a listed email with matching long passwords. */
  lemma ExampleAlreadyRegistered(email: string, password: string)
    requires email == "demo@example.com" && password == "longenough1"
    ensures Decide(email, password, password) == AlreadyRegistered
  {
    RegisteredSampleMatches(email);
    RegisteredSampleNormalForm(email);
  }

  lemma RegisteredSampleMatches(email: string)
    requires email == "demo@example.com"
    ensures MatchesEmailRegex(email)
  {
    assert email[4] == '@' && email[12] == '.';
    LowercaseRunIsPlain(email[..4]);
    LowercaseRunIsPlain(email[5..12]);
    LowercaseRunIsPlain(email[13..]);
  }

  lemma LowercaseRunIsPlain(s: string)
    requires forall k :: 0 <= k < |s| ==> 'a' <= s[k] <= 'z'
    ensures AllPlain(s)
  {
  }

  lemma RegisteredSampleNormalForm(email: string)
    requires email == "demo@example.com"
    ensures NormalizeEmail(email) == ValidEmails[0]
  {
    NormalizeEmailCanonical(email);
  }
}
