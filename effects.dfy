/**
 * What an event handler does to the world outside its own component, in the
 * order it does it: a blocking `alert`, a call of one of the component's
 * callback props, a router navigation, or a console log.
 * Handlers are modelled as functions returning these lists; the owner of the
 * state (the feed page) performs them.
 */
module Effects {
  datatype Effect =
    | Alert(message: string)
      // LoginForm / SignUpForm: `onSubmit()`
    | OnSubmit
      // login page: `router.push(path)`
    | Navigate(path: string)
      // signup page: `console.log('Sign up:', { email, password, repeatPassword })`
    | LogSignUp(email: string, password: string, repeatPassword: string)
      // PostEditor props
    | OnAuthRequired
    | OnPublish(content: string)
    | OnChange(value: string)
      // PostCard prop
    | OnInteraction
      // AuthModal props
    | OnAuthenticate
    | OnClose

  const NotImplementedMessage := "Function not implemented"
}
