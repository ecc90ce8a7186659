/**
 * The standalone sign-up page (`/signup`). Its submit handler checks only
 * the two passwords: first that they match, then that they are long enough.
 * The email is never looked at, and acceptance only logs the three fields.
 */
module SignUpPage {
  import opened Effects
  import SignUpForm

  type Verdict = SignUpForm.Verdict

  /** The page's decision, reported with the verdicts of the modal form. */
  function Decide(email: string, password: string, repeatPassword: string): (v: Verdict)
    ensures v == SignUpForm.Accepted <==> password == repeatPassword && |password| >= SignUpForm.MinPasswordLength
    ensures v == SignUpForm.PasswordMismatch <==> password != repeatPassword
    ensures v == SignUpForm.PasswordTooShort <==> password == repeatPassword && |password| < SignUpForm.MinPasswordLength
  {
    if password != repeatPassword then SignUpForm.PasswordMismatch
    else if |password| < SignUpForm.MinPasswordLength then SignUpForm.PasswordTooShort
    else SignUpForm.Accepted
  }

  /**
   * What the page's `handleSubmit` does: one alert on a rejection, and on
   * acceptance only the console log of the three fields (no callback, no
   * navigation).
   */
  function HandleSubmit(email: string, password: string, repeatPassword: string): (effects: seq<Effect>)
    ensures |effects| == 1
    ensures effects == [LogSignUp(email, password, repeatPassword)] <==> Decide(email, password, repeatPassword) == SignUpForm.Accepted
    ensures effects[0].Alert? <==> Decide(email, password, repeatPassword) != SignUpForm.Accepted
    ensures !effects[0].OnSubmit? && !effects[0].Navigate?
  {
    match Decide(email, password, repeatPassword)
    case PasswordMismatch => [Alert(SignUpForm.PasswordMismatchMessage)]
    case PasswordTooShort => [Alert(SignUpForm.PasswordTooShortMessage)]
    case _ => [LogSignUp(email, password, repeatPassword)]
  }

  /** The email never influences the page's verdict. */
  lemma EmailIgnored(email: string, other: string, password: string, repeatPassword: string)
    ensures Decide(email, password, repeatPassword) == Decide(other, password, repeatPassword)
  {
  }

  /**
   * The page rejects nothing the modal form would accept, and reports the two
   * password problems exactly as the form does once the form's email checks
   * have passed.
   */
  lemma FormAcceptedImpliesPageAccepted(email: string, password: string, repeatPassword: string)
    requires SignUpForm.Decide(email, password, repeatPassword) == SignUpForm.Accepted
    ensures Decide(email, password, repeatPassword) == SignUpForm.Accepted
  {
  }

  /** A password verdict of the form (mismatch, too short) is also the page's verdict. */
  lemma FormPasswordVerdictsAgree(email: string, password: string, repeatPassword: string)
    requires SignUpForm.Decide(email, password, repeatPassword) in {SignUpForm.PasswordMismatch, SignUpForm.PasswordTooShort}
    ensures Decide(email, password, repeatPassword) == SignUpForm.Decide(email, password, repeatPassword)
  {
  }

  /**
   * Unlike the modal form, the page accepts an empty email and an already
   * registered one, as long as the passwords match and are long enough.
   */
  lemma ExampleEmptyEmailAccepted(email: string, password: string)
    requires email == "" && password == "longenough1"
    ensures Decide(email, password, password) == SignUpForm.Accepted
    ensures SignUpForm.Decide(email, password, password) == SignUpForm.MissingFields
  {
  }

  /** A short password that also differs from its repeat is reported as a mismatch. */
  lemma ExampleShortMismatch(password: string, repeatPassword: string)
    requires password == "abc" && repeatPassword == "abd"
    ensures Decide("", password, repeatPassword) == SignUpForm.PasswordMismatch
  {
  }
}
