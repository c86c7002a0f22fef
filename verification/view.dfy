/**
  The render decisions of the authentication page, as a pure function from the
  props (`userID`, `pageContext`) and Formik's `errors` and `touched` state to a
  description of what appears on screen. Markup and styling are not modelled;
  only the choices are.
 */
module View {
  import opened Wrappers
  import opened EmailPattern
  import opened Validation

  /** The route names the page links or redirects to. */
  datatype Route = NotesRoute | LoginRoute | RegisterRoute

  /** Formik's `touched` flags, one per field. */
  datatype Touched = Touched(email: bool, username: bool, password: bool)

  /** What the page shows for one input: its error message, if any, and whether
      the input border is drawn in the error colour. */
  datatype FieldView = FieldView(message: Option<string>, highlighted: bool)

  datatype Screen =
    | Redirect(to: Route)
    | Form(heading: string, email: Option<FieldView>, username: FieldView, password: FieldView,
           submitLabel: string, linkTo: Route, linkText: string)

  /** JavaScript truthiness of the `userID` prop: absent (`null`) and "" are false. */
  predicate IsTruthy(userID: Option<string>) {
    userID.Some? && userID.value != ""
  }

  /** `errors.f && touched.f && errors.f`: a message is shown, and the border
      highlighted, when the field has a non-empty message and has been touched. */
  function ShowField(errors: Errors, field: Field, touched: bool): (v: FieldView)
    ensures v.message.Some? <==> field in errors && errors[field] != "" && touched
    ensures v.message.Some? ==> v.message.value == errors[field]
    ensures v.highlighted <==> v.message.Some?
  {
    if field in errors && errors[field] != "" && touched then FieldView(Some(errors[field]), true)
    else FieldView(None, false)
  }

  /** The page: a redirect to the notes route when a user is signed in, and the
      form otherwise, with login copy on the login page and sign-up copy elsewhere. */
  function Render(userID: Option<string>, context: PageContext, errors: Errors, touched: Touched): (s: Screen)
    ensures s.Redirect? <==> IsTruthy(userID)
    ensures s.Redirect? ==> s.to == NotesRoute
    ensures s.Form? ==> (s.email.Some? <==> context == Register)
    ensures s.Form? && context == Login ==>
      s.heading == "Sign in" && s.submitLabel == "Log in" &&
      s.linkTo == RegisterRoute && s.linkText == "I want to log in!"
    ensures s.Form? && context != Login ==>
      s.heading == "Sign up" && s.submitLabel == "Register" &&
      s.linkTo == LoginRoute && s.linkText == "I want my account!"
    ensures s.Form? ==>
      s.username == ShowField(errors, Username, touched.username) &&
      s.password == ShowField(errors, Password, touched.password) &&
      (s.email.Some? ==> s.email.value == ShowField(errors, Email, touched.email))
  {
    if IsTruthy(userID) then Redirect(NotesRoute)
    else
      var isLogin := context == Login;
      Form(
        if isLogin then "Sign in" else "Sign up",
        if context == Register then Some(ShowField(errors, Email, touched.email)) else None,
        ShowField(errors, Username, touched.username),
        ShowField(errors, Password, touched.password),
        if isLogin then "Log in" else "Register",
        if isLogin then RegisterRoute else LoginRoute,
        if isLogin then "I want to log in!" else "I want my account!")
  }

  /** A signed-in user is redirected to the notes route whatever the page and
      form state; only the `userID` prop decides between redirect and form. */
  lemma RedirectIgnoresPage(
    userID: Option<string>,
    context: PageContext, errors: Errors, touched: Touched,
    context': PageContext, errors': Errors, touched': Touched)
    ensures Render(userID, context, errors, touched).Redirect? == Render(userID, context', errors', touched').Redirect?
    ensures IsTruthy(userID) ==> Render(userID, context, errors, touched) == Render(userID, context', errors', touched')
  {
  }

  /** No message is ever shown for an untouched field, even an invalid one. */
  lemma UntouchedFieldsShowNothing(userID: Option<string>, context: PageContext, errors: Errors, touched: Touched)
    ensures var s := Render(userID, context, errors, touched);
      s.Form? ==>
        (!touched.username ==> s.username.message.None?) &&
        (!touched.password ==> s.password.message.None?) &&
        (!touched.email && s.email.Some? ==> s.email.value.message.None?)
  {
  }

  /** The messages the signed-out page shows once Formik's errors are the
      callback's result: each field's message appears exactly when it is touched
      and its value is invalid in the sense of the callback. */
  lemma ShownMessagesAfterValidation(
    userID: Option<string>, email: string, username: string, password: string,
    context: PageContext, touched: Touched)
    requires !IsTruthy(userID)
    ensures var s := Render(userID, context, Validate(email, username, password, context), touched);
      s.Form? &&
      s.username.message == (if touched.username && username == "" then Some(UsernameRequired) else None) &&
      s.password.message == (if touched.password && password == "" then Some(PasswordRequired) else None) &&
      (context == Register ==>
        s.email.Some? &&
        (s.email.value.message.Some? <==>
          touched.email && (if username == "" then email == "" else !MatchesPattern(email))) &&
        (s.email.value.message.Some? ==>
          s.email.value.message.value == (if username == "" then EmailRequired else InvalidEmail)))
  {
  }
}
