/**
 * The admin login form's submit handler: sign in with a password, map an
 * auth error to a message, and redirect only once the session is confirmed
 * by a second read. The auth service's answers are inputs.
 */
module Login {
  import opened Wrappers
  import opened Text

  const BadCredentials: string := "メールアドレスまたはパスワードが正しくありません"
  const EmailNotConfirmed: string := "メールアドレスが確認されていません"
  const TooManyAttempts: string := "ログイン試行回数が多すぎます。しばらく待ってから再度お試しください"
  const LoginFailed: string := "ログインに失敗しました。もう一度お試しください。"
  const SessionNotSet: string := "セッションが設定されませんでした。もう一度お試しください。"
  const SessionNotCreated: string := "セッションが作成されませんでした"

  const AdminHome: string := "/greeting/admin"

  /** The user-facing text for an error `signInWithPassword` returned. */
  function LoginErrorMessage(message: string): (r: string)
    ensures r in {BadCredentials, EmailNotConfirmed, TooManyAttempts, LoginFailed}
  {
    if message == "Invalid login credentials" || Contains(message, "Invalid") then BadCredentials
    else if Contains(message, "Email not confirmed") then EmailNotConfirmed
    else if Contains(message, "Too many requests") then TooManyAttempts
    else LoginFailed
  }

  /** The exact credentials message is one of those that contain "Invalid". */
  lemma ExactCredentialsMessageContainsInvalid()
    ensures Contains("Invalid login credentials", "Invalid")
  {
    assert StartsWith("Invalid login credentials", "Invalid");
  }

  /**
   * The classification by priority: "Invalid" wins over everything, then
   * "Email not confirmed", then "Too many requests"; anything else is generic.
   */
  lemma {:induction false} LoginErrorPriority(message: string)
    ensures LoginErrorMessage(message) == BadCredentials <==> Contains(message, "Invalid")
    ensures LoginErrorMessage(message) == EmailNotConfirmed <==>
      !Contains(message, "Invalid") && Contains(message, "Email not confirmed")
    ensures LoginErrorMessage(message) == TooManyAttempts <==>
      !Contains(message, "Invalid") && !Contains(message, "Email not confirmed") && Contains(message, "Too many requests")
    ensures LoginErrorMessage(message) == LoginFailed <==>
      !Contains(message, "Invalid") && !Contains(message, "Email not confirmed") && !Contains(message, "Too many requests")
  {
    if message == "Invalid login credentials" {
      ExactCredentialsMessageContainsInvalid();
    }
  }

  /** What `signInWithPassword` did: threw, answered with an error, or answered with or without a session. */
  datatype SignInReply =
    | SignInThrew(thrown: Option<string>)
    | SignInFailed(message: string)
    | SignedIn(hasSession: bool)

  /** What the second `getSession` did. */
  datatype SessionRead =
    | ReadThrew(thrown: Option<string>)
    | Read(hasSession: bool)

  /** The form's state once the handler is done, and where the page went. */
  datatype LoginOutcome = LoginOutcome(error: Option<string>, loading: bool, redirect: Option<string>)

  /** The catch block: the thrown message, or the generic one when it is missing or empty. */
  function Caught(thrown: Option<string>): (r: LoginOutcome)
    ensures r.error.Some? && r.error.value != "" && !r.loading && r.redirect.None?
  {
    LoginOutcome(Some(if Present(thrown) then thrown.value else LoginFailed), false, None)
  }

  /**
   * `refreshThrew` says whether `refreshSession` threw; the handler swallows
   * that and does not look at the refresh result either.
   */
  function HandleLogin(signIn: SignInReply, reread: SessionRead, refreshThrew: bool): (r: LoginOutcome)
    ensures r.redirect.Some? <==> signIn == SignedIn(true) && reread == Read(true)
    ensures r.redirect.Some? ==> r.redirect.value == AdminHome && r.loading && r.error.None?
    ensures r.redirect.None? ==> r.error.Some? && r.error.value != "" && !r.loading
    ensures signIn.SignInFailed? ==> r.error == Some(LoginErrorMessage(signIn.message))
    ensures signIn.SignInThrew? ==> r == Caught(signIn.thrown)
    ensures signIn == SignedIn(true) && reread.ReadThrew? ==> r == Caught(reread.thrown)
  {
    match signIn
    case SignInThrew(thrown) => Caught(thrown)
    case SignInFailed(message) => LoginOutcome(Some(LoginErrorMessage(message)), false, None)
    case SignedIn(false) => Caught(Some(SessionNotCreated))
    case SignedIn(true) =>
      match reread
      case ReadThrew(thrown) => Caught(thrown)
      case Read(false) => Caught(Some(SessionNotSet))
      case Read(true) => LoginOutcome(None, true, Some(AdminHome))
  }

  /** A failed refresh changes nothing. */
  lemma RefreshIgnored(signIn: SignInReply, reread: SessionRead)
    ensures HandleLogin(signIn, reread, true) == HandleLogin(signIn, reread, false)
  {
  }

  /** A sign-in without a session, or a session the second read does not see, is reported as such. */
  lemma MissingSessionMessages(reread: SessionRead, refreshThrew: bool)
    ensures HandleLogin(SignedIn(false), reread, refreshThrew).error == Some(SessionNotCreated)
    ensures HandleLogin(SignedIn(true), Read(false), refreshThrew).error == Some(SessionNotSet)
  {
  }
}
