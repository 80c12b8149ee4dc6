/** The client-side login page: its form record, the single-field update done
    on every keystroke, the two ordered checks of validateForm and the request
    body a valid form produces. */
module LoginForm {
  import opened Wrappers
  import opened Text

  /** The page's `values` state. */
  datatype Values = Values(username: string, password: string, isLoading: bool)

  const Initial: Values := Values("", "", false)

  /** The `name` attributes of the two inputs of the form. */
  datatype Field = Username | Password

  datatype ChangeEvent = ChangeEvent(name: Field, value: string)

  function Get(v: Values, f: Field): string {
    match f
    case Username => v.username
    case Password => v.password
  }

  /** handleChange: `{ ...values, [name]: value }`. */
  function HandleChange(v: Values, e: ChangeEvent): (r: Values)
    ensures Get(r, e.name) == e.value
    ensures forall f :: f != e.name ==> Get(r, f) == Get(v, f)
    ensures r.isLoading == v.isLoading
  {
    match e.name
    case Username => v.(username := e.value)
    case Password => v.(password := e.value)
  }

  /** The checks of validateForm, in the order they are tried. */
  datatype Rule = UsernameRequired | PasswordRequired

  /** The toast text reported for a failed check. */
  function Message(rule: Rule): string {
    match rule
    case UsernameRequired => "Username is required"
    case PasswordRequired => "Password is required"
  }

  /** validateForm: `None` is `return true`; `Some(rule)` is the toast of
      `Message(rule)` followed by `return false`. */
  function Validate(v: Values): Option<Rule> {
    if IsBlank(v.username) then Some(UsernameRequired)
    else if v.password == "" then Some(PasswordRequired)
    else None
  }

  /** validateForm returns true exactly when the username holds a character
      that is not white space and the password is not empty. */
  lemma AcceptsIff(v: Values)
    ensures Validate(v) == None
        <==> (exists k :: 0 <= k < |v.username| && !IsWhitespace(v.username[k])) && |v.password| > 0
  {
  }

  /** A username that is empty or only white space is reported first, so when
      both fields are wrong only the username message appears. */
  lemma BlankUsernameReportedFirst(v: Values)
    requires AllWhitespace(v.username)
    ensures Validate(v) == Some(UsernameRequired)
  {
  }

  /** An empty password is rejected once the username passes. */
  lemma EmptyPasswordRejected(v: Values)
    requires !AllWhitespace(v.username) && v.password == ""
    ensures Validate(v) == Some(PasswordRequired)
  {
  }

  /** The password is not trimmed: one made only of white space is accepted. */
  lemma WhitespacePasswordAccepted(v: Values)
    requires !AllWhitespace(v.username)
    requires v.password != "" && AllWhitespace(v.password)
    ensures Validate(v) == None
  {
  }

  /** The page opens on an empty form, which validateForm rejects with the
      username message. */
  lemma InitialFormRejected()
    ensures Validate(Initial) == Some(UsernameRequired)
  {
    BlankUsernameReportedFirst(Initial);
  }

  /** The body posted to the login route. */
  datatype LoginRequest = LoginRequest(username: string, password: string)

  /** The request handleSubmit sends, if any: only a form that validates is
      posted, with its two fields unchanged. */
  function Submit(v: Values): (r: Option<LoginRequest>)
    ensures r.Some? <==> Validate(v) == None
    ensures r.Some? ==> r.value.username == v.username && r.value.password == v.password
    ensures r.Some? ==> !AllWhitespace(r.value.username) && r.value.password != ""
  {
    BlankIffAllWhitespace(v.username);
    if Validate(v) == None then Some(LoginRequest(v.username, v.password)) else None
  }
}
