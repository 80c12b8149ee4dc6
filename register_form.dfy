/** The client-side registration page: its form record, the single-field
    update done on every keystroke, the seven ordered checks of validateForm
    and the request body that a valid form produces. */
module RegisterForm {
  import opened Wrappers
  import opened Text

  /** The page's `values` state. */
  datatype Values = Values(
    username: string,
    email: string,
    password: string,
    confirmPassword: string,
    isLoading: bool)

  const Initial: Values := Values("", "", "", "", false)

  /** The `name` attributes of the four inputs of the form. */
  datatype Field = Username | Email | Password | ConfirmPassword

  datatype ChangeEvent = ChangeEvent(name: Field, value: string)

  function Get(v: Values, f: Field): string {
    match f
    case Username => v.username
    case Email => v.email
    case Password => v.password
    case ConfirmPassword => v.confirmPassword
  }

  /** handleChange: `{ ...values, [name]: value }`. */
  function HandleChange(v: Values, e: ChangeEvent): (r: Values)
    ensures Get(r, e.name) == e.value
    ensures forall f :: f != e.name ==> Get(r, f) == Get(v, f)
    ensures r.isLoading == v.isLoading
  {
    match e.name
    case Username => v.(username := e.value)
    case Email => v.(email := e.value)
    case Password => v.(password := e.value)
    case ConfirmPassword => v.(confirmPassword := e.value)
  }

  /** A form record is determined by its four fields and its loading flag, so
      the update above leaves nothing else behind: typing a field's current
      value again changes nothing. */
  lemma HandleChangeSameValue(v: Values, f: Field)
    ensures HandleChange(v, ChangeEvent(f, Get(v, f))) == v
  {
  }

  // ---------------------------------------------------------------------
  // The e-mail pattern /^[^\s@]+@[^\s@]+\.[^\s@]+$/

  /** One character of the class `[^\s@]`. */
  predicate IsPlain(c: char) {
    !IsWhitespace(c) && c != '@'
  }

  predicate AllPlain(s: string) {
    forall k :: 0 <= k < |s| ==> IsPlain(s[k])
  }

  /** The pattern read literally: a non-empty plain run, '@' at `i`, a
      non-empty plain run, '.' at `j`, a non-empty plain run, and nothing
      else. */
  ghost predicate MatchesEmailPattern(e: string) {
    exists i, j ::
      && 0 < i && i + 1 < j && j + 1 < |e|
      && e[i] == '@' && e[j] == '.'
      && AllPlain(e[..i]) && AllPlain(e[i + 1..j]) && AllPlain(e[j + 1..])
  }

  /** A '.' in `d` that is neither its first nor its last character. */
  predicate HasInnerDot(d: string) {
    exists k | 0 < k < |d| - 1 :: d[k] == '.'
  }

  /** The shape the pattern accepts, stated field by field: exactly one '@',
      no white space at all, a non-empty part before the '@', and a '.'
      inside the part after it. */
  predicate IsEmailShape(e: string) {
    && Occurrences(e, '@') == 1
    && NoWhitespace(e)
    && var at := IndexOf(e, '@');
       0 < at < |e| && HasInnerDot(e[at + 1..])
  }

  lemma ShapeMatchesPattern(e: string)
    requires IsEmailShape(e)
    ensures MatchesEmailPattern(e)
  {
    var i := IndexOf(e, '@');
    var d := e[i + 1..];
    var k :| 0 < k < |d| - 1 && d[k] == '.';
    var j := i + 1 + k;
    var local, mid, tld := e[..i], e[i + 1..j], e[j + 1..];
    assert mid == d[..k] && tld == d[k + 1..];
    OccurrencesAround(e, i, '@');
    OccurrencesZero(local, '@');
    OccurrencesZero(d, '@');
    assert AllPlain(d);
    assert AllPlain(mid) by {
      forall m | 0 <= m < |mid| ensures IsPlain(mid[m]) {
        assert mid[m] == d[m];
      }
    }
    assert AllPlain(tld) by {
      forall m | 0 <= m < |tld| ensures IsPlain(tld[m]) {
        assert tld[m] == d[k + 1 + m];
      }
    }
    assert AllPlain(local);
    assert 0 < i && i + 1 < j && j + 1 < |e| && e[i] == '@' && e[j] == '.'
        && AllPlain(e[..i]) && AllPlain(e[i + 1..j]) && AllPlain(e[j + 1..]);
  }

  lemma PatternHasShape(e: string, i: nat, j: nat)
    requires 0 < i && i + 1 < j && j + 1 < |e|
    requires e[i] == '@' && e[j] == '.'
    requires AllPlain(e[..i]) && AllPlain(e[i + 1..j]) && AllPlain(e[j + 1..])
    ensures IsEmailShape(e)
  {
    var local, mid, tld := e[..i], e[i + 1..j], e[j + 1..];
    var d := e[i + 1..];
    assert AllPlain(d) by {
      forall m | 0 <= m < |d| ensures IsPlain(d[m]) {
        if m < |mid| {
          assert d[m] == mid[m];
        } else if |mid| < m {
          assert d[m] == tld[m - |mid| - 1];
        } else {
          assert d[m] == e[j];
        }
      }
    }
    OccurrencesZero(local, '@');
    OccurrencesZero(d, '@');
    OccurrencesAround(e, i, '@');
    assert IndexOf(e, '@') == i;
    forall m | 0 <= m < |e| ensures !IsWhitespace(e[m]) {
      if m < i {
        assert e[m] == local[m];
      } else if i < m {
        assert e[m] == d[m - (i + 1)];
      }
    }
    assert d[j - (i + 1)] == '.';
  }

  /** The field-by-field shape accepts exactly the strings the pattern
      matches. */
  lemma EmailShapeIffPattern(e: string)
    ensures IsEmailShape(e) <==> MatchesEmailPattern(e)
  {
    if IsEmailShape(e) {
      ShapeMatchesPattern(e);
    }
    if MatchesEmailPattern(e) {
      var i, j :|
        && 0 < i && i + 1 < j && j + 1 < |e|
        && e[i] == '@' && e[j] == '.'
        && AllPlain(e[..i]) && AllPlain(e[i + 1..j]) && AllPlain(e[j + 1..]);
      PatternHasShape(e, i, j);
    }
  }

  /** The pattern is tested on the untrimmed e-mail, so surrounding white
      space makes an otherwise well-formed address fail. */
  lemma PaddedEmailFailsShape(e: string)
    requires e != [] && (IsWhitespace(e[0]) || IsWhitespace(e[|e| - 1]))
    ensures !IsEmailShape(e)
  {
  }

  // ---------------------------------------------------------------------
  // validateForm

  /** The checks of validateForm, in the order they are tried. */
  datatype Rule =
    | UsernameRequired
    | UsernameTooShort
    | EmailRequired
    | EmailInvalid
    | PasswordRequired
    | PasswordTooShort
    | PasswordMismatch

  /** The toast text reported for a failed check. */
  function Message(rule: Rule): string {
    match rule
    case UsernameRequired => "Username is required"
    case UsernameTooShort => "Username must be at least 3 characters"
    case EmailRequired => "Email is required"
    case EmailInvalid => "Invalid email format"
    case PasswordRequired => "Password is required"
    case PasswordTooShort => "Password must be at least 8 characters"
    case PasswordMismatch => "Passwords do not match"
  }

  /** Position of a check in the sequence. */
  function Rank(rule: Rule): nat {
    match rule
    case UsernameRequired => 0
    case UsernameTooShort => 1
    case EmailRequired => 2
    case EmailInvalid => 3
    case PasswordRequired => 4
    case PasswordTooShort => 5
    case PasswordMismatch => 6
  }

  /** Whether the form fails one check, taken on its own. */
  predicate Fails(v: Values, rule: Rule) {
    match rule
    case UsernameRequired => IsBlank(v.username)
    case UsernameTooShort => Utf16Length(v.username) < 3
    case EmailRequired => IsBlank(v.email)
    case EmailInvalid => !IsEmailShape(v.email)
    case PasswordRequired => v.password == ""
    case PasswordTooShort => Utf16Length(v.password) < 8
    case PasswordMismatch => v.password != v.confirmPassword
  }

  /** validateForm: `None` is `return true`; `Some(rule)` is the toast of
      `Message(rule)` followed by `return false`. */
  function Validate(v: Values): Option<Rule> {
    if IsBlank(v.username) then Some(UsernameRequired)
    else if Utf16Length(v.username) < 3 then Some(UsernameTooShort)
    else if IsBlank(v.email) then Some(EmailRequired)
    else if !IsEmailShape(v.email) then Some(EmailInvalid)
    else if v.password == "" then Some(PasswordRequired)
    else if Utf16Length(v.password) < 8 then Some(PasswordTooShort)
    else if v.password != v.confirmPassword then Some(PasswordMismatch)
    else None
  }

  /** validateForm returns true exactly when no check fails. */
  lemma AcceptsIffNoRuleFails(v: Values)
    ensures Validate(v) == None <==> forall rule :: !Fails(v, rule)
  {
    if Validate(v) == None {
      assert !IsBlank(v.username) && Utf16Length(v.username) >= 3;
      assert !IsBlank(v.email) && IsEmailShape(v.email);
      assert v.password != "" && Utf16Length(v.password) >= 8 && v.password == v.confirmPassword;
      forall rule ensures !Fails(v, rule) {
        match rule
        case UsernameRequired =>
        case UsernameTooShort =>
        case EmailRequired =>
        case EmailInvalid =>
        case PasswordRequired =>
        case PasswordTooShort =>
        case PasswordMismatch =>
      }
    } else {
      ReportedRuleFailsFirst(v);
    }
  }

  /** The checks short-circuit: the one reported is the first that fails, and
      every check before it passes. */
  lemma ReportsFirstFailingRule(v: Values, rule: Rule)
    ensures Validate(v) == Some(rule)
        <==> Fails(v, rule) && forall earlier :: Rank(earlier) < Rank(rule) ==> !Fails(v, earlier)
  {
    if Validate(v) == Some(rule) {
      ReportedRuleFailsFirst(v);
    }
    if Fails(v, rule) && forall earlier :: Rank(earlier) < Rank(rule) ==> !Fails(v, earlier) {
      FirstFailingRuleReported(v, rule);
    }
  }

  lemma ReportedRuleFailsFirst(v: Values)
    requires Validate(v).Some?
    ensures var rule := Validate(v).value;
      Fails(v, rule) && forall earlier :: Rank(earlier) < Rank(rule) ==> !Fails(v, earlier)
  {
    var rule := Validate(v).value;
    forall earlier | Rank(earlier) < Rank(rule) ensures !Fails(v, earlier) {
      match earlier
      case UsernameRequired =>
      case UsernameTooShort =>
      case EmailRequired =>
      case EmailInvalid =>
      case PasswordRequired =>
      case PasswordTooShort =>
      case PasswordMismatch =>
    }
  }

  lemma FirstFailingRuleReported(v: Values, rule: Rule)
    requires Fails(v, rule)
    requires forall earlier :: Rank(earlier) < Rank(rule) ==> !Fails(v, earlier)
    ensures Validate(v) == Some(rule)
  {
    var before := Rank(rule);
    assert 0 < before ==> !Fails(v, UsernameRequired);
    assert 1 < before ==> !Fails(v, UsernameTooShort);
    assert 2 < before ==> !Fails(v, EmailRequired);
    assert 3 < before ==> !Fails(v, EmailInvalid);
    assert 4 < before ==> !Fails(v, PasswordRequired);
    assert 5 < before ==> !Fails(v, PasswordTooShort);
    match rule
    case UsernameRequired =>
    case UsernameTooShort =>
    case EmailRequired =>
    case EmailInvalid =>
    case PasswordRequired =>
    case PasswordTooShort =>
    case PasswordMismatch =>
  }

  /** A blank username is reported first, whatever the other fields hold. */
  lemma BlankUsernameRejected(v: Values)
    requires AllWhitespace(v.username)
    ensures Validate(v) == Some(UsernameRequired)
  {
  }

  /** The length check measures the untrimmed username: any username with a
      non-white character and at least three UTF-16 units, padding included,
      passes both username checks. */
  lemma PaddedUsernamePasses(v: Values)
    requires exists k :: 0 <= k < |v.username| && !IsWhitespace(v.username[k])
    requires Utf16Length(v.username) >= 3
    ensures Validate(v) != Some(UsernameRequired) && Validate(v) != Some(UsernameTooShort)
  {
    var k :| 0 <= k < |v.username| && !IsWhitespace(v.username[k]);
    assert !AllWhitespace(v.username);
    BlankIffAllWhitespace(v.username);
    assert !Fails(v, UsernameRequired) && !Fails(v, UsernameTooShort);
    ReportsFirstFailingRule(v, UsernameRequired);
    ReportsFirstFailingRule(v, UsernameTooShort);
  }

  /** The username "  a", which trims to the single character "a", still
      passes both username checks. */
  lemma TwoSpacesAndALetterPasses(email: string, password: string, confirm: string, loading: bool)
    ensures var r := Validate(Values("  a", email, password, confirm, loading));
            r != Some(UsernameRequired) && r != Some(UsernameTooShort)
  {
    var u := "  a";
    assert !IsWhitespace(u[2]);
    Utf16LengthOfBmp(u);
    PaddedUsernamePasses(Values(u, email, password, confirm, loading));
  }

  /** Trimming "  a" leaves the single character "a". */
  lemma TwoSpacesAndATrimToA()
    ensures Trim("  a") == "a"
  {
  }

  /** With the username checks passed, an e-mail with white space at either
      end is rejected as malformed (or as missing when it is all white
      space): it is never trimmed before the pattern. */
  lemma PaddedEmailRejected(v: Values)
    requires !Fails(v, UsernameRequired) && !Fails(v, UsernameTooShort)
    requires v.email != [] && (IsWhitespace(v.email[0]) || IsWhitespace(v.email[|v.email| - 1]))
    ensures Validate(v) == Some(EmailRequired) || Validate(v) == Some(EmailInvalid)
  {
  }

  /** The password is never trimmed: once the checks before it pass, any
      password of at least eight UTF-16 units, even eight spaces, passes the
      two password checks, and the form is then rejected exactly when the
      confirmation differs. */
  lemma LongPasswordPassesLengthChecks(v: Values)
    requires forall rule :: Rank(rule) < 4 ==> !Fails(v, rule)
    requires Utf16Length(v.password) >= 8
    ensures Validate(v) == (if v.password == v.confirmPassword then None else Some(PasswordMismatch))
  {
    assert !Fails(v, UsernameRequired) && !Fails(v, UsernameTooShort);
    assert !Fails(v, EmailRequired) && !Fails(v, EmailInvalid);
  }

  /** The page opens on an empty form, which validateForm rejects with the
      username message. */
  lemma InitialFormRejected()
    ensures Validate(Initial) == Some(UsernameRequired)
  {
    BlankUsernameRejected(Initial);
  }

  /** The two password fields are compared exactly, after every other check
      has passed. */
  lemma MismatchIffPasswordsDiffer(v: Values)
    requires forall rule :: Rank(rule) < 6 ==> !Fails(v, rule)
    ensures Validate(v) == Some(PasswordMismatch) <==> v.password != v.confirmPassword
  {
    assert !Fails(v, UsernameRequired) && !Fails(v, UsernameTooShort);
    assert !Fails(v, EmailRequired) && !Fails(v, EmailInvalid);
    assert !Fails(v, PasswordRequired) && !Fails(v, PasswordTooShort);
  }

  // ---------------------------------------------------------------------
  // handleSubmit

  /** The body posted to the registration route. */
  datatype RegisterRequest = RegisterRequest(username: string, email: string, password: string)

  /** `{ username, email, password }` taken from the form. */
  function Payload(v: Values): RegisterRequest {
    RegisterRequest(v.username, v.email, v.password)
  }

  /** The request handleSubmit sends, if any: only a form that validates is
      posted, and what is posted meets every check the form made. */
  function Submit(v: Values): (r: Option<RegisterRequest>)
    ensures r.Some? <==> Validate(v) == None
    ensures r.Some? ==>
      && r.value.username == v.username && r.value.email == v.email && r.value.password == v.password
      && !IsBlank(r.value.username) && Utf16Length(r.value.username) >= 3
      && IsEmailShape(r.value.email)
      && Utf16Length(r.value.password) >= 8
  {
    if Validate(v) == None then Some(Payload(v)) else None
  }

  /** The confirmation and the loading flag never reach the server: the body
      is the same whatever they hold. */
  lemma PayloadOmitsConfirmation(v: Values, confirm: string, loading: bool)
    ensures Payload(v.(confirmPassword := confirm, isLoading := loading)) == Payload(v)
  {
  }
}
