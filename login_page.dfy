/**
 * The standalone sign-in page (`/login`). Its submit handler repeats the
 * modal form's decision over its own copy of the credential list; on
 * acceptance it navigates home instead of calling a callback.
 */
module LoginPage {
  import opened JsString
  import opened JsArray
  import opened Effects
  import LoginForm

  type Credential = LoginForm.Credential
  type Verdict = LoginForm.Verdict

  /** This file's own `VALID_CREDENTIALS`. */
  const ValidCredentials: seq<Credential> := [
    LoginForm.Credential("demo@example.com", "password123"),
    LoginForm.Credential("test@user.com", "testpass")
  ]

  const HomePath := "/"

  /**
   * The page's decision. It is written against the page's list, and its
   * verdict is the modal form's verdict on every input.
   */
  function Decide(email: string, password: string): (v: Verdict)
    ensures v == LoginForm.Decide(email, password)
  {
    if email == [] || password == [] then LoginForm.MissingFields
    else
      var normalized := NormalizeEmail(email);
      var validUser := Find(ValidCredentials, (c: Credential) => c.email == normalized && c.password == password);
      if validUser.Some? then LoginForm.Accepted
      else
        var emailExists := Find(ValidCredentials, (c: Credential) => c.email == normalized);
        if emailExists.Some? then LoginForm.WrongPassword else LoginForm.UnknownEmail
  }

  /**
   * What the page's `handleSubmit` does: on acceptance the one effect is the
   * navigation to `/`; on rejection there is no navigation, only the alert
   * the modal form would show for the same input.
   */
  function HandleSubmit(email: string, password: string): (effects: seq<Effect>)
    ensures |effects| == 1
    ensures effects == [Navigate(HomePath)] <==> LoginForm.Decide(email, password) == LoginForm.Accepted
    ensures LoginForm.Decide(email, password) != LoginForm.Accepted ==>
      effects == LoginForm.HandleSubmit(email, password) && !effects[0].Navigate?
  {
    match Decide(email, password)
    case Accepted => [Navigate(HomePath)]
    case MissingFields => [Alert(LoginForm.MissingFieldsMessage)]
    case WrongPassword => [Alert(LoginForm.WrongPasswordMessage)]
    case UnknownEmail => [Alert(LoginForm.UnknownEmailMessage)]
  }
}
