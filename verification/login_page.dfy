/**
  The login page's own logic: the prefill of a remembered email on mount,
  the form validation, and the submit handler that writes or clears the
  remembered email after a successful login and leaves it alone after a
  failed one. The browser's local storage is a map from keys to strings.
*/
module LoginPage {
  import opened Wrappers
  import opened JsValues
  import opened Http

  const RememberKey: string := "atelier_remember_email"
  const MissingCredentials: string := "Please enter your email and password"
  const AuthenticationFailed: string := "Authentication failed. Please try again."

  /**
    `localStorage` as this page writes it: a key absent from the map reads as
    null. The auth provider's own write after `login` is outside this map.
  */
  type Storage = map<string, string>

  /** The parts of the page state the handlers read and write. */
  datatype LoginState = LoginState(
    email: string, password: string, rememberMe: bool,
    loading: bool, error: Option<string>, success: bool)

  /** The state on first render, before the mount effect runs. */
  const Initial: LoginState := LoginState("", "", false, false, None, false)

  /** `localStorage.getItem(RememberKey)` when it is truthy: a stored non-empty email. */
  function SavedEmail(storage: Storage): (r: Option<string>)
    ensures r.Some? <==> RememberKey in storage && storage[RememberKey] != ""
    ensures r.Some? ==> r.value == storage[RememberKey]
  {
    if RememberKey in storage && storage[RememberKey] != "" then Some(storage[RememberKey]) else None
  }

  /**
    The mount effect: a saved email fills the email field and ticks
    "Remember me"; with nothing saved the state stays as it is.
  */
  function Mount(st: LoginState, storage: Storage): (r: LoginState)
    ensures SavedEmail(storage).Some? ==> r == st.(email := storage[RememberKey], rememberMe := true)
    ensures SavedEmail(storage).None? ==> r == st
  {
    match SavedEmail(storage)
    case Some(saved) => st.(email := saved, rememberMe := true)
    case None => st
  }

  /** `validateForm`: an error exactly when the email or the password is empty. */
  function ValidateLogin(email: string, password: string): (r: Option<string>)
    ensures r.Some? <==> email == "" || password == ""
    ensures r.Some? ==> r.value == MissingCredentials
  {
    if email == "" || password == "" then Some(MissingCredentials) else None
  }

  /** The body of the login request. */
  datatype Credentials = Credentials(email: string, password: string)

  /**
    `handleSubmit`: a validation error is shown and nothing is sent.
    Otherwise the credentials go out; on success the remembered email is set
    to the typed email when "Remember me" is ticked and removed when it is
    not, and no other key this page writes changes; on failure storage is untouched and the server's message (or the
    default) is shown. Loading ends either way.
  */
  function HandleSubmit(st: LoginState, storage: Storage, answer: Answer)
    : (r: (LoginState, Storage, Option<Credentials>))
    ensures ValidateLogin(st.email, st.password).Some? <==> r.2.None?
    ensures r.2.None? ==> r.0 == st.(error := ValidateLogin(st.email, st.password)) && r.1 == storage
    ensures r.2.Some? ==> r.2.value == Credentials(st.email, st.password) && !r.0.loading
    ensures r.2.Some? && answer.Accepted? && st.rememberMe ==>
              r.1 == storage[RememberKey := st.email]
    ensures r.2.Some? && answer.Accepted? && !st.rememberMe ==>
              RememberKey !in r.1 && forall k :: k in storage && k != RememberKey ==> k in r.1 && r.1[k] == storage[k]
    ensures r.2.Some? && answer.Accepted? ==> r.0.success && r.0.error.None?
    ensures answer.Rejected? ==> r.1 == storage
    ensures r.2.Some? && answer.Rejected? ==>
              r.0.error == Some(MessageOr(answer.message, AuthenticationFailed)) && r.0.success == st.success
    ensures forall k :: k != RememberKey ==> (k in r.1 <==> k in storage)
  {
    match ValidateLogin(st.email, st.password)
    case Some(message) => (st.(error := Some(message)), storage, None)
    case None =>
      var sending := st.(loading := true, error := None);
      var sent := Some(Credentials(st.email, st.password));
      match answer
      case Accepted =>
        var kept := if st.rememberMe then storage[RememberKey := st.email] else storage - {RememberKey};
        (sending.(success := true, loading := false), kept, sent)
      case Rejected(m) =>
        (sending.(error := Some(MessageOr(m, AuthenticationFailed)), loading := false), storage, sent)
  }

  /**
    After a successful login with "Remember me" ticked, the next visit to the
    page opens with that email filled in and the box ticked again.
  */
  lemma RememberRoundTrip(st: LoginState, storage: Storage, later: Storage)
    requires st.rememberMe
    requires HandleSubmit(st, storage, Accepted).2.Some?
    requires later == HandleSubmit(st, storage, Accepted).1
    ensures Mount(Initial, later).email == st.email && Mount(Initial, later).rememberMe
  {
    assert later[RememberKey] == st.email;
  }

  /** After a successful login without "Remember me", the next visit opens with the defaults. */
  lemma ForgetRoundTrip(st: LoginState, storage: Storage)
    requires !st.rememberMe
    ensures HandleSubmit(st, storage, Accepted).2.Some? ==>
              Mount(Initial, HandleSubmit(st, storage, Accepted).1) == Initial
  {
  }

  /** A failed login, or one stopped by validation, leaves the next visit as it would have been. */
  lemma FailureKeepsRemembered(st: LoginState, storage: Storage, m: Option<string>)
    ensures Mount(Initial, HandleSubmit(st, storage, Rejected(m)).1) == Mount(Initial, storage)
    ensures ValidateLogin(st.email, st.password).Some? ==>
              Mount(Initial, HandleSubmit(st, storage, Accepted).1) == Mount(Initial, storage)
  {
  }
}
