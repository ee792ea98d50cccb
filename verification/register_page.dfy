/**
  The register page's own logic: the five-check password strength meter, the
  ordered form validation, the indicator level shown for a strength, the
  field-change handler that keeps the meter in step with the password, and
  the submit handler that either reports a validation error or sends the
  registration request and records its outcome.
*/
module RegisterPage {
  import opened Wrappers
  import opened JsValues
  import opened Http
  import Text

  const CompleteFields: string := "Please complete all required fields"
  const PasswordsMustMatch: string := "Passwords must match"
  const PasswordTooShort: string := "Password must be at least 8 characters"
  const AcceptTerms: string := "Please accept our terms to continue"
  const RegistrationFailed: string := "Registration failed. Please try again."

  /** The minimum password length, in UTF-16 code units as `password.length` counts them. */
  const MinPasswordLength: nat := 8

  /** The five checks of `evaluatePasswordStrength`, in the order it lists them. */
  datatype Check = LongEnough | HasLower | HasUpper | HasDigit | HasSymbol

  const AllChecks: seq<Check> := [LongEnough, HasLower, HasUpper, HasDigit, HasSymbol]

  predicate IsLower(c: char) { 'a' <= c <= 'z' }
  predicate IsUpper(c: char) { 'A' <= c <= 'Z' }
  predicate IsDigit(c: char) { '0' <= c <= '9' }

  /** Whether one check holds of a password: the length test or one of the four character-class regexes. */
  predicate Holds(c: Check, p: string)
  {
    match c
    case LongEnough => Text.Utf16Length(p) >= MinPasswordLength
    case HasLower => exists i :: 0 <= i < |p| && IsLower(p[i])
    case HasUpper => exists i :: 0 <= i < |p| && IsUpper(p[i])
    case HasDigit => exists i :: 0 <= i < |p| && IsDigit(p[i])
    case HasSymbol => exists i :: 0 <= i < |p| && !IsLower(p[i]) && !IsUpper(p[i]) && !IsDigit(p[i])
  }

  /** `checks.filter(Boolean).length` over a list of checks. */
  function CountHolding(checks: seq<Check>, p: string): (n: nat)
    ensures n <= |checks|
    ensures n == 0 <==> forall i :: 0 <= i < |checks| ==> !Holds(checks[i], p)
    ensures n == |checks| <==> forall i :: 0 <= i < |checks| ==> Holds(checks[i], p)
  {
    if |checks| == 0 then 0
    else (if Holds(checks[0], p) then 1 else 0) + CountHolding(checks[1..], p)
  }

  /** `evaluatePasswordStrength`: how many of the five checks the password passes. */
  function Strength(p: string): (n: nat)
    ensures n <= 5
    ensures n == 0 <==> forall c :: c in AllChecks ==> !Holds(c, p)
    ensures n == 5 <==> forall c :: c in AllChecks ==> Holds(c, p)
  {
    CountHolding(AllChecks, p)
  }

  /** The count over a duplicate-free list of checks is the size of the set of checks that hold. */
  lemma {:induction false} CountIsSetSize(checks: seq<Check>, p: string)
    requires forall i, j :: 0 <= i < j < |checks| ==> checks[i] != checks[j]
    ensures CountHolding(checks, p) == |set c | c in checks && Holds(c, p)|
  {
    if |checks| > 0 {
      var rest := checks[1..];
      CountIsSetSize(rest, p);
      var whole := set c | c in checks && Holds(c, p);
      var tail := set c | c in rest && Holds(c, p);
      var head: set<Check> := if Holds(checks[0], p) then {checks[0]} else {};
      assert checks[0] !in rest by {
        forall j | 0 <= j < |rest| ensures rest[j] != checks[0] {
          assert rest[j] == checks[j + 1];
        }
      }
      assert whole == head + tail by {
        forall c | c in checks ensures c == checks[0] || c in rest {
          var i :| 0 <= i < |checks| && checks[i] == c;
          if i > 0 { assert rest[i - 1] == c; }
        }
      }
      assert head !! tail;
    } else {
      assert (set c | c in checks && Holds(c, p)) == {};
    }
  }

  /** Strength is exactly the number of distinct checks the password passes. */
  lemma StrengthIsCount(p: string)
    ensures Strength(p) == |set c | c in AllChecks && Holds(c, p)|
  {
    CountIsSetSize(AllChecks, p);
  }

  /** Every check that holds of a password still holds once a character is typed after it. */
  lemma HoldsAfterAppend(c: Check, p: string, ch: char)
    requires Holds(c, p)
    ensures Holds(c, p + [ch])
  {
    var q := p + [ch];
    match c
    case LongEnough => Text.Utf16LengthAppend(p, [ch]);
    case HasLower =>
      var i :| 0 <= i < |p| && IsLower(p[i]);
      assert q[i] == p[i];
    case HasUpper =>
      var i :| 0 <= i < |p| && IsUpper(p[i]);
      assert q[i] == p[i];
    case HasDigit =>
      var i :| 0 <= i < |p| && IsDigit(p[i]);
      assert q[i] == p[i];
    case HasSymbol =>
      var i :| 0 <= i < |p| && !IsLower(p[i]) && !IsUpper(p[i]) && !IsDigit(p[i]);
      assert q[i] == p[i];
  }

  /** A count over checks that only gain truth from `p` to `q` does not go down. */
  lemma {:induction false} CountMonotone(checks: seq<Check>, p: string, q: string)
    requires forall i :: 0 <= i < |checks| && Holds(checks[i], p) ==> Holds(checks[i], q)
    ensures CountHolding(checks, p) <= CountHolding(checks, q)
  {
    if |checks| > 0 {
      CountMonotone(checks[1..], p, q);
    }
  }

  /** Typing one more character never lowers the strength. */
  lemma StrengthMonotone(p: string, ch: char)
    ensures Strength(p) <= Strength(p + [ch])
  {
    forall i | 0 <= i < |AllChecks| && Holds(AllChecks[i], p)
      ensures Holds(AllChecks[i], p + [ch])
    {
      HoldsAfterAppend(AllChecks[i], p, ch);
    }
    CountMonotone(AllChecks, p, p + [ch]);
  }

  /** The empty password passes no check; a single character passes exactly one, the test of its own class. */
  lemma StrengthOfShortPasswords(ch: char)
    ensures Strength("") == 0
    ensures Strength([ch]) == 1
  {
    var p := [ch];
    assert !Holds(LongEnough, p) by {
      assert Text.Utf16Length(p) <= 2;
    }
    assert Holds(HasLower, p) <==> IsLower(ch) by { assert p[0] == ch; }
    assert Holds(HasUpper, p) <==> IsUpper(ch) by { assert p[0] == ch; }
    assert Holds(HasDigit, p) <==> IsDigit(ch) by { assert p[0] == ch; }
    assert Holds(HasSymbol, p) <==> !IsLower(ch) && !IsUpper(ch) && !IsDigit(ch) by { assert p[0] == ch; }
    assert CountHolding(AllChecks, p) == CountHolding(AllChecks[1..], p);
    assert AllChecks[1..][1..][1..][1..][1..] == [];
  }

  /** The register form's four inputs. */
  datatype Form = Form(name: string, email: string, password: string, confirmPassword: string)

  /**
    `validateForm`: the first failing rule's message, in priority order —
    a missing field, then a mismatch, then a short password, then the terms.
  */
  function ValidateRegister(f: Form, agreedToTerms: bool): (r: Option<string>)
    ensures r == Some(CompleteFields) <==>
              f.name == "" || f.email == "" || f.password == "" || f.confirmPassword == ""
    ensures r == Some(PasswordsMustMatch) <==>
              f.name != "" && f.email != "" && f.password != "" && f.confirmPassword != ""
              && f.password != f.confirmPassword
    ensures r == Some(PasswordTooShort) <==>
              f.name != "" && f.email != "" && f.password != "" && f.password == f.confirmPassword
              && Text.Utf16Length(f.password) < MinPasswordLength
    ensures r == Some(AcceptTerms) <==>
              f.name != "" && f.email != "" && f.password == f.confirmPassword
              && Text.Utf16Length(f.password) >= MinPasswordLength && !agreedToTerms
    ensures r.None? <==>
              f.name != "" && f.email != "" && f.password == f.confirmPassword
              && Text.Utf16Length(f.password) >= MinPasswordLength && agreedToTerms
    ensures r.Some? ==> r.value != ""
  {
    if f.name == "" || f.email == "" || f.password == "" || f.confirmPassword == "" then Some(CompleteFields)
    else if f.password != f.confirmPassword then Some(PasswordsMustMatch)
    else if Text.Utf16Length(f.password) < MinPasswordLength then Some(PasswordTooShort)
    else if !agreedToTerms then Some(AcceptTerms)
    else None
  }

  /** One entry of the strength indicator table. */
  datatype Indicator = Indicator(level: nat, text: string, color: string)

  const Indicators: seq<Indicator> := [
    Indicator(1, "Fragile", "from-rose-400 to-rose-500"),
    Indicator(2, "Delicate", "from-amber-400 to-amber-500"),
    Indicator(3, "Moderate", "from-yellow-400 to-amber-400"),
    Indicator(4, "Robust", "from-emerald-400 to-emerald-500"),
    Indicator(5, "Fortified", "from-emerald-500 to-emerald-600")
  ]

  /**
    `getStrengthIndicator`: `indicators[Math.max(0, strength - 1)] || indicators[0]`;
    an index past the table reads undefined and falls back to the first entry.
  */
  function StrengthIndicator(strength: int): (r: Indicator)
    ensures r in Indicators
    ensures 0 <= strength <= 5 ==> r.level == if strength == 0 then 1 else strength
    ensures strength > 5 ==> r == Indicators[0]
  {
    var k := if strength - 1 > 0 then strength - 1 else 0;
    if k < |Indicators| then Indicators[k] else Indicators[0]
  }

  /** Any password is shown with the level its strength reaches, at least the first. */
  lemma IndicatorFollowsStrength(p: string)
    ensures StrengthIndicator(Strength(p)).level == if Strength(p) == 0 then 1 else Strength(p)
    ensures Strength(p) <= 1 ==> StrengthIndicator(Strength(p)).text == "Fragile"
    ensures Strength(p) == 5 <==> StrengthIndicator(Strength(p)).text == "Fortified"
  {
  }

  /** The parts of the page state the handlers read and write. */
  datatype RegisterState = RegisterState(
    form: Form, agreedToTerms: bool, passwordStrength: nat,
    loading: bool, error: Option<string>, success: bool)

  /** The state on first render. */
  const Initial: RegisterState := RegisterState(Form("", "", "", ""), false, 0, false, None, false)

  /** The inputs `handleChange` is wired to, by element id. */
  datatype Field = Name | Email | Password | ConfirmPassword

  /** The meter shows the strength of the current password. */
  predicate StrengthInSync(st: RegisterState)
  {
    st.passwordStrength == Strength(st.form.password)
  }

  /**
    `handleChange`: write the edited input's value into its field; only an
    edit of the password recomputes the strength.
  */
  function HandleChange(st: RegisterState, field: Field, value: string): (r: RegisterState)
    ensures field == Name ==> r.form == st.form.(name := value)
    ensures field == Email ==> r.form == st.form.(email := value)
    ensures field == Password ==> r.form == st.form.(password := value)
    ensures field == ConfirmPassword ==> r.form == st.form.(confirmPassword := value)
    ensures field == Password ==> r.passwordStrength == Strength(value)
    ensures field != Password ==> r.passwordStrength == st.passwordStrength
    ensures r.agreedToTerms == st.agreedToTerms && r.loading == st.loading
    ensures r.error == st.error && r.success == st.success
  {
    match field
    case Name => st.(form := st.form.(name := value))
    case Email => st.(form := st.form.(email := value))
    case Password => st.(form := st.form.(password := value), passwordStrength := Strength(value))
    case ConfirmPassword => st.(form := st.form.(confirmPassword := value))
  }

  /** The terms checkbox. */
  function ToggleTerms(st: RegisterState, checked: bool): (r: RegisterState)
    ensures r.agreedToTerms == checked && r.(agreedToTerms := st.agreedToTerms) == st
  {
    st.(agreedToTerms := checked)
  }

  /** The meter starts in step with the empty password, and every edit keeps it in step. */
  lemma StrengthStaysInSync(st: RegisterState, field: Field, value: string, checked: bool)
    ensures StrengthInSync(Initial)
    ensures StrengthInSync(st) ==> StrengthInSync(HandleChange(st, field, value))
    ensures StrengthInSync(st) ==> StrengthInSync(ToggleTerms(st, checked))
  {
    StrengthOfShortPasswords('a');
  }

  /** The body of the registration request: the confirmation field is not sent. */
  datatype RegisterRequest = RegisterRequest(name: string, email: string, password: string)

  /**
    `handleSubmit`: a validation error is shown and nothing is sent;
    otherwise the request goes out with the name, email and password, and the
    answer either marks success or shows the server's message (or the default).
    Loading ends either way.
  */
  function HandleSubmit(st: RegisterState, answer: Answer): (r: (RegisterState, Option<RegisterRequest>))
    ensures ValidateRegister(st.form, st.agreedToTerms).Some? <==> r.1.None?
    ensures r.1.None? ==> r.0 == st.(error := ValidateRegister(st.form, st.agreedToTerms))
    ensures r.1.Some? ==>
              r.1.value == RegisterRequest(st.form.name, st.form.email, st.form.password)
              && !r.0.loading && r.0.form == st.form
    ensures r.1.Some? && answer.Accepted? ==> r.0.success && r.0.error.None?
    ensures r.1.Some? && answer.Rejected? ==>
              r.0.success == st.success && r.0.error == Some(MessageOr(answer.message, RegistrationFailed))
  {
    match ValidateRegister(st.form, st.agreedToTerms)
    case Some(message) => (st.(error := Some(message)), None)
    case None =>
      var sending := st.(loading := true, error := None);
      var request := RegisterRequest(st.form.name, st.form.email, st.form.password);
      match answer
      case Accepted => (sending.(success := true, loading := false), Some(request))
      case Rejected(m) => (sending.(error := Some(MessageOr(m, RegistrationFailed)), loading := false), Some(request))
  }

  /** A request is only ever sent for a complete, matching, long enough password with the terms accepted. */
  lemma SentOnlyWhenValid(st: RegisterState, answer: Answer)
    requires HandleSubmit(st, answer).1.Some?
    ensures st.form.name != "" && st.form.email != "" && st.form.password != ""
    ensures st.form.password == st.form.confirmPassword
    ensures Text.Utf16Length(st.form.password) >= MinPasswordLength
    ensures st.agreedToTerms
  {
  }
}
