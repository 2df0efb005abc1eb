/** The login / sign-up form (src/components/Auth.js): the friendly error texts, the form
    schema, and the component's state through a submission and its two links. */
module Auth {
  import opened Wrappers
  import opened Text

  // ---------------------------------------------------------------------------------------
  // Error texts

  const InvalidCredentials: string := "Invalid login credentials"
  const AlreadyRegistered: string := "User already registered"
  const NotConfirmed: string := "Email not confirmed"
  const RateLimited: string := "Rate limit exceeded"

  const WrongPasswordText: string := "The email or password you entered is incorrect. Please try again."
  const AccountExistsText: string := "An account with this email already exists. Please try logging in or use a different email."
  const ConfirmEmailText: string := "Please confirm your email address before logging in. Check your inbox for a confirmation email."
  const TooManyText: string := "Too many attempts. Please try again later."
  const UnexpectedText: string := "An unexpected error occurred. Please try again later."

  predicate IsKnownMessage(message: string) {
    message in {InvalidCredentials, AlreadyRegistered, NotConfirmed, RateLimited}
  }

  /** `getErrorMessage(error)`, by `error.message`. */
  function GetErrorMessage(message: string): string {
    if message == InvalidCredentials then WrongPasswordText
    else if message == AlreadyRegistered then AccountExistsText
    else if message == NotConfirmed then ConfirmEmailText
    else if message == RateLimited then TooManyText
    else UnexpectedText
  }

  /** Every message outside the four known ones gets the default text, and the four known
      ones get four different texts, none of them the default: the text tells which case
      occurred. */
  lemma ErrorTextsDistinguish(m1: string, m2: string)
    ensures GetErrorMessage(m1) == UnexpectedText <==> !IsKnownMessage(m1)
    ensures IsKnownMessage(m1) && IsKnownMessage(m2) ==> (GetErrorMessage(m1) == GetErrorMessage(m2) <==> m1 == m2)
  {
    assert |WrongPasswordText| == 65 && |AccountExistsText| == 90 && |ConfirmEmailText| == 95;
    assert |TooManyText| == 42 && |UnexpectedText| == 53;
  }

  // ---------------------------------------------------------------------------------------
  // The schema

  const EmailRequired: string := "Email is required"
  const InvalidEmail: string := "Invalid email format"
  const PasswordRequired: string := "Password is required"
  const PasswordTooShort: string := "Password must be at least 8 characters"
  const PasswordTooWeak: string := "Password must contain at least one uppercase letter, one lowercase letter, and one number"
  const MinPasswordLength: nat := 8

  /** The text before the first line terminator: what `.*` inside a lookahead can skip. */
  function FirstLine(s: string): (r: string)
    ensures |r| <= |s| && r == s[..|r|]
    ensures forall i | 0 <= i < |r| :: !IsLineTerminator(r[i])
    ensures |r| < |s| ==> IsLineTerminator(s[|r|])
  {
    if s == [] || IsLineTerminator(s[0]) then [] else [s[0]] + FirstLine(s[1..])
  }

  predicate HasLower(s: string) { exists i | 0 <= i < |s| :: 'a' <= s[i] <= 'z' }
  predicate HasUpper(s: string) { exists i | 0 <= i < |s| :: 'A' <= s[i] <= 'Z' }
  predicate HasDigit(s: string) { exists i | 0 <= i < |s| :: '0' <= s[i] <= '9' }

  /** `/^(?=.*[a-z])(?=.*[A-Z])(?=.*\d)/.test(password)`. */
  predicate PasswordPattern(password: string) {
    var line := FirstLine(password);
    HasLower(line) && HasUpper(line) && HasDigit(line)
  }

  /** The password field's message: the first failing rule of required, `min(8)` and the
      pattern, or none. */
  function PasswordError(password: string): Option<string> {
    if password == [] then Some(PasswordRequired)
    else if |password| < MinPasswordLength then Some(PasswordTooShort)
    else if !PasswordPattern(password) then Some(PasswordTooWeak)
    else None
  }

  /** A password is accepted exactly when it has at least 8 characters and its first line
      has a lowercase letter, an uppercase letter and a digit; an empty one is reported as
      missing, a short one as short. */
  lemma PasswordRule(password: string)
    ensures PasswordError(password).None? <==>
              |password| >= MinPasswordLength && PasswordPattern(password)
    ensures password == [] ==> PasswordError(password) == Some(PasswordRequired)
    ensures 0 < |password| < MinPasswordLength ==> PasswordError(password) == Some(PasswordTooShort)
    ensures |password| >= MinPasswordLength && !PasswordPattern(password) ==> PasswordError(password) == Some(PasswordTooWeak)
  {
  }

  /** Only the first line counts: a password whose first line lacks one of the three kinds
      of character is refused whatever follows the line break. */
  lemma {:induction false} FirstLineDecides(line: string, t: char, rest: string)
    requires forall i | 0 <= i < |line| :: !IsLineTerminator(line[i])
    requires IsLineTerminator(t)
    ensures FirstLine(line + [t] + rest) == line
    ensures PasswordError(line + [t] + rest).None? <==>
              |line| + 1 + |rest| >= MinPasswordLength && HasLower(line) && HasUpper(line) && HasDigit(line)
  {
    var s := line + [t] + rest;
    var r := FirstLine(s);
    assert s[..|line|] == line;
    assert s[|line|] == t;
  }

  /** The email field's message: required first, then the format check (`formatOk` is the
      verdict of yup's `email()`, which accepts the empty string). */
  function EmailError(email: string, formatOk: bool): Option<string> {
    if email == [] then Some(EmailRequired)
    else if !formatOk then Some(InvalidEmail)
    else None
  }

  /** `handleSubmit` calls `onSubmit` only when neither field has a message. */
  predicate FormValid(email: string, formatOk: bool, password: string) {
    EmailError(email, formatOk).None? && PasswordError(password).None?
  }

  /** A submitted form has an email and a password of at least 8 characters. */
  lemma ValidFormFields(email: string, formatOk: bool, password: string)
    requires FormValid(email, formatOk, password)
    ensures email != [] && formatOk && |password| >= MinPasswordLength
    ensures HasLower(password) && HasUpper(password) && HasDigit(password)
  {
    var line := FirstLine(password);
    var i :| 0 <= i < |line| && 'a' <= line[i] <= 'z';
    var j :| 0 <= j < |line| && 'A' <= line[j] <= 'Z';
    var k :| 0 <= k < |line| && '0' <= line[k] <= '9';
    assert password[i] == line[i] && password[j] == line[j] && password[k] == line[k];
  }

  // ---------------------------------------------------------------------------------------
  // The component

  datatype Mode = Login | SignUp

  /** One call to the authentication service: its mode, email and password. */
  datatype AuthRequest = AuthRequest(mode: Mode, email: string, password: string)

  /** The form's state: the five `useState` fields, the requests sent, and the number of
      `onLogin` calls. */
  class AuthForm {
    var loading: bool
    var isSignUp: bool
    var showPassword: bool
    var signUpSuccess: bool
    var errorMessage: string
    var requests: seq<AuthRequest>
    var loginCalls: nat

    /** The initial state: login mode, nothing shown. */
    constructor()
      ensures !loading && !isSignUp && !showPassword && !signUpSuccess && errorMessage == []
      ensures requests == [] && loginCalls == 0
    {
      loading, isSignUp, showPassword, signUpSuccess := false, false, false, false;
      errorMessage, requests, loginCalls := [], [], 0;
    }

    function CurrentMode(): Mode
      reads this
    {
      if isSignUp then SignUp else Login
    }

    /** The start of `onSubmit`: loading, the message cleared, and the request sent in the
        mode of the render that submitted. */
    method BeginSubmit(email: string, password: string) returns (mode: Mode)
      modifies this
      ensures mode == old(CurrentMode())
      ensures loading && errorMessage == []
      ensures requests == old(requests) + [AuthRequest(mode, email, password)]
      ensures isSignUp == old(isSignUp) && showPassword == old(showPassword)
      ensures signUpSuccess == old(signUpSuccess) && loginCalls == old(loginCalls)
    {
      mode := CurrentMode();
      loading := true;
      errorMessage := [];
      requests := requests + [AuthRequest(mode, email, password)];
    }

    /** The rest once the service has answered (`Some(error.message)` or `None`): the mapped
        text on an error, otherwise the sign-up notice or the `onLogin` call; loading ends
        in every case. */
    method FinishSubmit(mode: Mode, error: Option<string>)
      modifies this
      ensures !loading
      ensures error.Some? ==> errorMessage == GetErrorMessage(error.value)
      ensures error.None? ==> errorMessage == old(errorMessage)
      ensures signUpSuccess == (old(signUpSuccess) || (mode == SignUp && error.None?))
      ensures loginCalls == old(loginCalls) + (if mode == Login && error.None? then 1 else 0)
      ensures isSignUp == old(isSignUp) && showPassword == old(showPassword) && requests == old(requests)
    {
      if mode == SignUp {
        if error.Some? {
          errorMessage := GetErrorMessage(error.value);
        } else {
          signUpSuccess := true;
        }
      } else {
        if error.Some? {
          errorMessage := GetErrorMessage(error.value);
        } else {
          loginCalls := loginCalls + 1;
        }
      }
      loading := false;
    }

    /** A submission of the form: nothing unless the schema accepts it, otherwise
        `onSubmit` with the service's answer `error`. */
    method Submit(email: string, formatOk: bool, password: string, error: Option<string>)
      modifies this
      ensures !FormValid(email, formatOk, password) ==>
                loading == old(loading) && errorMessage == old(errorMessage) && requests == old(requests)
                && signUpSuccess == old(signUpSuccess) && loginCalls == old(loginCalls)
      ensures FormValid(email, formatOk, password) ==>
                && !loading
                && requests == old(requests) + [AuthRequest(old(CurrentMode()), email, password)]
                && errorMessage == (if error.Some? then GetErrorMessage(error.value) else [])
                && signUpSuccess == (old(signUpSuccess) || (old(isSignUp) && error.None?))
                && loginCalls == old(loginCalls) + (if !old(isSignUp) && error.None? then 1 else 0)
      ensures isSignUp == old(isSignUp) && showPassword == old(showPassword)
    {
      if EmailError(email, formatOk).None? && PasswordError(password).None? {
        var mode := BeginSubmit(email, password);
        FinishSubmit(mode, error);
      }
    }

    /** "Return to Login": back to the login form. */
    method ReturnToLogin()
      modifies this
      ensures !signUpSuccess && !isSignUp
      ensures loading == old(loading) && showPassword == old(showPassword) && errorMessage == old(errorMessage)
      ensures requests == old(requests) && loginCalls == old(loginCalls)
    {
      signUpSuccess := false;
      isSignUp := false;
    }

    /** The link under the form: the other mode, and no message. */
    method ToggleMode()
      modifies this
      ensures isSignUp == !old(isSignUp) && errorMessage == []
      ensures loading == old(loading) && showPassword == old(showPassword) && signUpSuccess == old(signUpSuccess)
      ensures requests == old(requests) && loginCalls == old(loginCalls)
    {
      isSignUp := !isSignUp;
      errorMessage := [];
    }

    /** The eye button of the password field. */
    method ToggleShowPassword()
      modifies this
      ensures showPassword == !old(showPassword)
      ensures loading == old(loading) && isSignUp == old(isSignUp) && signUpSuccess == old(signUpSuccess)
      ensures errorMessage == old(errorMessage) && requests == old(requests) && loginCalls == old(loginCalls)
    {
      showPassword := !showPassword;
    }
  }

  /** What the component shows. A form's `emailHelper` and `passwordHelper` are the
      fields' helper texts, and a field is marked as in error exactly when it has one. */
  datatype Screen =
    | SignUpNotice
    | Form(title: string, alert: Option<string>, emailHelper: Option<string>, passwordHelper: Option<string>,
           buttonLabel: string, buttonDisabled: bool, passwordVisible: bool, switchLink: string)

  /** The render: the notice after a successful sign-up, otherwise the form, whose alert is
      shown for a non-empty message, whose fields show react-hook-form's current messages
      (`emailErrors` and `passwordErrors`, held by the library) and whose button is disabled
      while loading. */
  function View(loading: bool, isSignUp: bool, showPassword: bool, signUpSuccess: bool, errorMessage: string,
                emailErrors: Option<string>, passwordErrors: Option<string>): (s: Screen)
    ensures s.SignUpNotice? <==> signUpSuccess
    ensures s.Form? ==> (s.alert.Some? <==> errorMessage != []) && (s.alert.Some? ==> s.alert.value == errorMessage)
    ensures s.Form? ==> s.emailHelper == emailErrors && s.passwordHelper == passwordErrors
    ensures s.Form? ==> s.buttonDisabled == loading && s.passwordVisible == showPassword
    ensures s.Form? ==> s.title == (if isSignUp then "Sign Up" else "Login")
  {
    if signUpSuccess then SignUpNotice
    else
      Form(if isSignUp then "Sign Up" else "Login",
           if errorMessage != [] then Some(errorMessage) else None,
           emailErrors,
           passwordErrors,
           if loading then "Loading..." else if isSignUp then "Sign Up" else "Login",
           loading,
           showPassword,
           if isSignUp then "Already have an account? Login" else "Don't have an account? Sign Up")
  }

  /** After `handleSubmit` has validated the fields, the form shows the schema's message
      under each failing field and none under a passing one; it shows no field message at
      all exactly when the submission went through. */
  lemma ValidatedFieldsShown(loading: bool, isSignUp: bool, showPassword: bool, errorMessage: string,
                             email: string, formatOk: bool, password: string)
    ensures var s := View(loading, isSignUp, showPassword, false, errorMessage,
                          EmailError(email, formatOk), PasswordError(password));
            && s.Form?
            && (s.emailHelper.None? <==> email != [] && formatOk)
            && (email == [] ==> s.emailHelper == Some(EmailRequired))
            && (s.passwordHelper.None? <==> |password| >= MinPasswordLength && PasswordPattern(password))
            && (s.emailHelper.None? && s.passwordHelper.None? <==> FormValid(email, formatOk, password))
  {
    PasswordRule(password);
  }

  /** After a finished submission the button is enabled again and shows the mode. */
  lemma SettledButton(isSignUp: bool, showPassword: bool, errorMessage: string,
                      emailErrors: Option<string>, passwordErrors: Option<string>)
    ensures var s := View(false, isSignUp, showPassword, false, errorMessage, emailErrors, passwordErrors);
            s.Form? && !s.buttonDisabled && s.buttonLabel == s.title
  {
  }
}
