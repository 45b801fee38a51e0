/**
 * The sign-up form's submit handler: three ordered input checks, then the
 * call to the auth service, whose answer (or the exception it threw) is an
 * input, then the message shown for each kind of failure.
 */
module Signup {
  import opened Wrappers
  import opened Text

  const AllFieldsRequired: string := "すべての項目を入力してください"
  const PasswordsDiffer: string := "パスワードが一致しません"
  const PasswordTooShort: string := "パスワードは6文字以上で入力してください"
  const AlreadyRegistered: string := "このメールアドレスは既に登録されています"
  const BadPassword: string := "パスワードの形式が正しくありません"
  const BadEmail: string := "メールアドレスの形式が正しくありません"
  const SignupFailed: string := "登録に失敗しました。もう一度お試しください。"

  const MinPasswordLength: nat := 6

  /**
   * `s.length`: JavaScript counts UTF-16 code units, so a character outside
   * the Basic Multilingual Plane counts twice.
   */
  function Utf16Length(s: string): (n: nat)
    ensures |s| <= n <= 2 * |s|
  {
    if s == [] then 0
    else (if s[0] as int >= 0x1_0000 then 2 else 1) + Utf16Length(s[1..])
  }

  /** Three emoji are long enough for the length check, although they are three characters. */
  lemma AstralCharactersCountTwice()
    ensures Utf16Length("\U{1F38D}\U{1F38D}\U{1F38D}") == MinPasswordLength
  {
    var s := "\U{1F38D}\U{1F38D}\U{1F38D}";
    assert s[1..][1..][1..] == [];
  }

  /** The first failing input check, if any, as the message it shows. */
  function Validate(email: string, password: string, confirmPassword: string): (r: Option<string>)
    ensures r.None? <==>
      email != "" && password != "" && confirmPassword != ""
      && password == confirmPassword && Utf16Length(password) >= MinPasswordLength
    ensures r.Some? ==> r.value in {AllFieldsRequired, PasswordsDiffer, PasswordTooShort}
  {
    if email == "" || password == "" || confirmPassword == "" then Some(AllFieldsRequired)
    else if password != confirmPassword then Some(PasswordsDiffer)
    else if Utf16Length(password) < MinPasswordLength then Some(PasswordTooShort)
    else None
  }

  /** The user-facing text for an error the auth service returned. */
  function SignupErrorMessage(message: string): (r: string)
    ensures r in {AlreadyRegistered, BadPassword, BadEmail, SignupFailed}
    ensures r == AlreadyRegistered <==> message == "User already registered"
    ensures r == BadPassword <==> message != "User already registered" && Contains(message, "Password")
    ensures r == BadEmail <==>
      message != "User already registered" && !Contains(message, "Password") && Contains(message, "Email")
  {
    if message == "User already registered" then AlreadyRegistered
    else if Contains(message, "Password") then BadPassword
    else if Contains(message, "Email") then BadEmail
    else SignupFailed
  }

  /** What `signUp` did: threw (with its message, if any), or answered with an error and/or a user. */
  datatype SignupReply =
    | SignupThrew(thrown: Option<string>)
    | SignupAnswered(error: Option<string>, hasUser: bool)

  /** The form's state once the handler is done, and whether it called `signUp`. */
  datatype SignupOutcome = SignupOutcome(error: Option<string>, loading: bool, success: bool, calledSignup: bool)

  function HandleSignup(email: string, password: string, confirmPassword: string, reply: SignupReply): (r: SignupOutcome)
    ensures r.calledSignup <==> Validate(email, password, confirmPassword).None?
    ensures r.success <==> r.calledSignup && reply == SignupAnswered(None, true)
    ensures r.error.Some? ==> r.error.value != "" && !r.loading && !r.success
    ensures !r.loading ==> r.error.Some?
    ensures Validate(email, password, confirmPassword).Some? ==> r.error == Validate(email, password, confirmPassword)
    ensures Validate(email, password, confirmPassword).None? && reply.SignupAnswered? && reply.error.Some? ==>
      r.error == Some(SignupErrorMessage(reply.error.value))
    ensures Validate(email, password, confirmPassword).None? && reply.SignupThrew? ==>
      r.error == Some(if Present(reply.thrown) then reply.thrown.value else SignupFailed)
  {
    match Validate(email, password, confirmPassword)
    case Some(message) => SignupOutcome(Some(message), false, false, false)
    case None =>
      match reply
      case SignupThrew(thrown) =>
        SignupOutcome(Some(if Present(thrown) then thrown.value else SignupFailed), false, false, true)
      case SignupAnswered(Some(message), _) =>
        SignupOutcome(Some(SignupErrorMessage(message)), false, false, true)
      case SignupAnswered(None, hasUser) =>
        SignupOutcome(None, true, hasUser, true)
  }

  /** An empty field is reported first, whatever else is wrong. */
  lemma EmptyFieldFirst(email: string, password: string, confirmPassword: string, reply: SignupReply)
    requires email == "" || password == "" || confirmPassword == ""
    ensures HandleSignup(email, password, confirmPassword, reply).error == Some(AllFieldsRequired)
  {
  }

  /** A mismatch is reported before the length, even for a short password. */
  lemma MismatchBeforeLength(email: string, password: string, confirmPassword: string, reply: SignupReply)
    requires email != "" && password != "" && confirmPassword != ""
    requires password != confirmPassword
    ensures HandleSignup(email, password, confirmPassword, reply).error == Some(PasswordsDiffer)
  {
  }

  lemma ShortPasswordRejected(email: string, password: string, reply: SignupReply)
    requires email != "" && password != ""
    requires Utf16Length(password) < MinPasswordLength
    ensures HandleSignup(email, password, password, reply).error == Some(PasswordTooShort)
    ensures !HandleSignup(email, password, password, reply).calledSignup
  {
  }

  /**
   * When the service answers with neither an error nor a user, the handler
   * sets nothing: the form stays busy with no message and no success view.
   */
  lemma NoUserNoErrorStaysBusy(email: string, password: string, confirmPassword: string)
    requires Validate(email, password, confirmPassword).None?
    ensures var r := HandleSignup(email, password, confirmPassword, SignupAnswered(None, false));
      r.loading && !r.success && r.error.None?
  {
  }
}
