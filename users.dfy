/** The sign-up and sign-in forms: the user-id validator both forms share,
    the password rules of the sign-up form, what each form submits, and the
    message shown when signing in fails. */
module Users {
  import opened Strings

  /** A form validator either resolves or rejects with a message. */
  datatype Check = Resolve | Reject(message: string)

  const MissingUserId := "Please input your user ID!"
  const BadUserId := "User ID can only contain lowercase letters and numbers!"
  const MissingPassword := "Please input your password!"
  const ShortPassword := "Password must be at least 6 characters!"
  const PasswordMismatch := "The two passwords do not match!"
  const MinPasswordLength := 6

  predicate IsLowerAlnum(ch: char) {
    'a' <= ch <= 'z' || '0' <= ch <= '9'
  }

  /** `/^[a-z0-9]+$/.test(s)`: one character of the class, then either the
      end of the input or another match of the same pattern. */
  predicate MatchesUserIdPattern(s: string)
    decreases |s|
  {
    s != [] && IsLowerAlnum(s[0]) && (|s| == 1 || MatchesUserIdPattern(s[1..]))
  }

  /** The pattern accepts exactly the non-empty strings of lower-case ASCII
      letters and digits. */
  lemma {:induction false} MatchesUserIdPatternIff(s: string)
    ensures MatchesUserIdPattern(s) <==> s != [] && forall i :: 0 <= i < |s| ==> IsLowerAlnum(s[i])
    decreases |s|
  {
    if |s| > 1 {
      MatchesUserIdPatternIff(s[1..]);
      assert forall i :: 1 <= i < |s| ==> s[i] == s[1..][i - 1];
    }
  }

  /** `validateUserId`, identical in both forms. */
  function ValidateUserId(value: string): (r: Check)
    ensures r == Resolve <==> value != "" && forall i :: 0 <= i < |value| ==> IsLowerAlnum(value[i])
    ensures value == "" ==> r == Reject(MissingUserId)
    ensures value != "" && r != Resolve ==> r == Reject(BadUserId)
  {
    MatchesUserIdPatternIff(value);
    if value == "" then Reject(MissingUserId)
    else if !MatchesUserIdPattern(value) then Reject(BadUserId)
    else Resolve
  }

  /** An accepted user id is already in lower case, so the lower-casing on
      submission leaves it as typed. */
  lemma AcceptedUserIdIsLowerCase(value: string)
    requires ValidateUserId(value) == Resolve
    ensures ToLower(value) == value
  {
    ToLowerFixed(value);
  }

  /** The sign-up password rules: required, then at least six characters
      (the length rule is not applied to an empty value). */
  function PasswordCheck(value: string): (r: Check)
    ensures r == Resolve <==> |value| >= MinPasswordLength
    ensures r != Resolve ==> r == Reject(if value == "" then MissingPassword else ShortPassword)
  {
    if value == "" then Reject(MissingPassword)
    else if |value| < MinPasswordLength then Reject(ShortPassword)
    else Resolve
  }

  /** The confirm-password validator: an empty value is left to the
      required rule; otherwise it must equal the password field. */
  function ConfirmPasswordCheck(value: string, password: string): (r: Check)
    ensures r == Resolve <==> value == "" || value == password
    ensures r != Resolve ==> r == Reject(PasswordMismatch)
  {
    if value == "" || password == value then Resolve else Reject(PasswordMismatch)
  }

  datatype RegisterRequest = RegisterRequest(userId: string, email: string, password: string)
  datatype LoginRequest = LoginRequest(userId: string, password: string)

  /** What the sign-up form sends and the id it then signs in with. */
  datatype RegisterSubmission = RegisterSubmission(request: RegisterRequest, loginUserId: string)
  datatype LoginSubmission = LoginSubmission(request: LoginRequest, loginUserId: string, successMessage: string)

  function SubmitRegister(userId: string, email: string, password: string): (s: RegisterSubmission)
    ensures s.request.userId == s.loginUserId
    ensures |s.loginUserId| == |userId| && forall i :: 0 <= i < |userId| ==> s.loginUserId[i] == LowerChar(userId[i])
    ensures s.request.email == email && s.request.password == password
  {
    RegisterSubmission(RegisterRequest(ToLower(userId), email, password), ToLower(userId))
  }

  function SubmitLogin(userId: string, password: string): (s: LoginSubmission)
    ensures s.request.userId == s.loginUserId
    ensures |s.loginUserId| == |userId| && forall i :: 0 <= i < |userId| ==> s.loginUserId[i] == LowerChar(userId[i])
    ensures s.request.password == password
    ensures s.successMessage == "Login successful with userId: " + s.loginUserId
  {
    LoginSubmission(LoginRequest(ToLower(userId), password), ToLower(userId),
                    "Login successful with userId: " + ToLower(userId))
  }

  /** An id that passed validation reaches the server, and the signed-in
      state, exactly as typed. */
  lemma AcceptedIdSubmittedAsTyped(userId: string, email: string, password: string)
    requires ValidateUserId(userId) == Resolve
    ensures SubmitRegister(userId, email, password).request.userId == userId
    ensures SubmitLogin(userId, password).loginUserId == userId
  {
    AcceptedUserIdIsLowerCase(userId);
  }

  /** The sign-in failure message; a 401 is reported like any other error. */
  function LoginFailedMessage(isApiError: bool, status: int, message: string): (m: string)
    ensures m == "Login failed: " + message
  {
    if isApiError && status == 401 then "Login failed: " + message
    else "Login failed: " + message
  }
}
