/**
 * src/controllers/authController.js: login, and the account-token lifecycle of an employee
 * record (an email-verification token with its expiry, the `email_verified` flag, a password-reset
 * token with its expiry). bcrypt's hash, the uuid of a fresh token and the clock are parameters.
 */
module Auth {
  import opened Tables
  import opened Calendar
  import opened Http
  import opened Db
  import opened Validators
  import Employees

  /** A verification link is valid for a day, a reset link for an hour. */
  const VerificationHours: int := 24
  const ResetHours: int := 1

  /** Some row satisfies `p`: an UPDATE ... WHERE p has a non-zero row count. */
  predicate AnyMatch(employees: seq<Employee>, p: Employee -> bool) {
    exists i :: 0 <= i < |employees| && p(employees[i])
  }

  // ---------------------------------------------------------------------------------------
  // login
  // ---------------------------------------------------------------------------------------

  /** The JWT payload. */
  datatype Claims = Claims(id: Id, email: string, role: string)

  /** The employee object of a successful login. */
  datatype LoginView = LoginView(id: Id, nom: string, prenom: string, email: string, department: string)

  datatype LoginOutcome = Refused(resp: Response) | LoggedIn(claims: Claims, view: LoginView)

  function ViewOf(e: Employee): LoginView {
    LoginView(e.id, e.nom, e.prenom, e.email, e.department)
  }

  /**
   * `SELECT * FROM employee WHERE email = $1`, then the first row's hash compared with the
   * password's; `bcrypt.compare` is taken as equality with `hash(password)`.
   */
  function Login(employees: seq<Employee>, email: string, password: string, hash: string -> string)
    : (r: LoginOutcome)
    ensures r.LoggedIn? ==>
      exists e :: e in employees && e.email == email && e.password == hash(password) && e.emailVerified
        && r.claims == Claims(e.id, e.email, e.role) && r.view == ViewOf(e)
    ensures r.Refused? ==> Code(r.resp) in {400, 401, 403}
    ensures email == "" || password == "" ==> r == Refused(BadRequest(MissingFields))
    ensures email != "" && password != "" && !ValidEmail(email) ==> r == Refused(BadRequest(InvalidEmailFormat))
    ensures email != "" && password != "" && ValidEmail(email) && !Has(employees, EmployeeEmail, email) ==>
      r == Refused(Unauthorized)
  {
    if email == "" || password == "" then Refused(BadRequest(MissingFields))
    else if !ValidEmail(email) then Refused(BadRequest(InvalidEmailFormat))
    else
      match First(employees, EmployeeEmail, email)
      case None => Refused(Unauthorized)
      case Some(e) =>
        if hash(password) != e.password then Refused(Unauthorized)
        else if !e.emailVerified then Refused(Forbidden)
        else LoggedIn(Claims(e.id, e.email, e.role), ViewOf(e))
  }

  /**
   * With emails unique, the outcome for an existing account: a wrong password gets the same 401
   * as an unknown email, a right one on an unverified account gets 403, and a token is issued
   * only when every check passes.
   */
  lemma LoginIff(employees: seq<Employee>, k: nat, password: string, hash: string -> string)
    requires Employees.ContactsUnique(employees) && k < |employees|
    ensures var e := employees[k];
      Login(employees, e.email, password, hash) ==
        if e.email == "" || password == "" then Refused(BadRequest(MissingFields))
        else if !ValidEmail(e.email) then Refused(BadRequest(InvalidEmailFormat))
        else if hash(password) != e.password then Refused(Unauthorized)
        else if !e.emailVerified then Refused(Forbidden)
        else LoggedIn(Claims(e.id, e.email, e.role), ViewOf(e))
  {
    var e := employees[k];
    assert EmployeeEmail(e) == e.email;
    forall j | 0 <= j < |employees| && j != k ensures employees[j].email != e.email {
      if j < k {
        assert employees[j].email != employees[k].email;
      } else {
        assert employees[k].email != employees[j].email;
      }
    }
  }

  // ---------------------------------------------------------------------------------------
  // verifyEmail
  // ---------------------------------------------------------------------------------------

  /**
   * `WHERE email_verification_token = $1 AND email_verification_token_expires > NOW()`. An absent
   * token is SQL NULL, which equals nothing.
   */
  function VerificationLive(token: Option<string>, now: Instant): Employee -> bool {
    (e: Employee) =>
      token.Some? && e.verificationToken == token && e.verificationExpires.Some? && e.verificationExpires.value > now
  }

  /** `SET email_verified = true, email_verification_token = NULL, ..._expires = NULL`. */
  function MarkVerified(): Employee -> Employee {
    (e: Employee) => e.(emailVerified := true, verificationToken := None, verificationExpires := None)
  }

  function Verified(employees: seq<Employee>, token: Option<string>, now: Instant): (r: seq<Employee>)
    ensures |r| == |employees|
    ensures forall i :: 0 <= i < |r| ==> r[i].id == employees[i].id && r[i].email == employees[i].email
  {
    UpdateIf(employees, VerificationLive(token, now), MarkVerified())
  }

  /**
   * The verification flag is set exactly on the accounts the token is live for, and no other
   * column of any account moves except the cleared token and expiry.
   */
  lemma VerifiedRows(employees: seq<Employee>, token: Option<string>, now: Instant)
    ensures var r := Verified(employees, token, now);
      forall i :: 0 <= i < |r| ==>
        && (r[i].emailVerified <==> employees[i].emailVerified || VerificationLive(token, now)(employees[i]))
        && (VerificationLive(token, now)(employees[i]) ==> r[i].verificationToken.None?)
        && r[i].password == employees[i].password && r[i].resetToken == employees[i].resetToken
  {
  }

  /** A verification token works once: after it succeeds it matches no live row, now or later. */
  lemma VerificationSingleUse(employees: seq<Employee>, token: Option<string>, now: Instant, later: Instant)
    requires now <= later
    ensures !AnyMatch(Verified(employees, token, now), VerificationLive(token, later))
  {
    var r := Verified(employees, token, now);
    forall i | 0 <= i < |r| ensures !VerificationLive(token, later)(r[i]) {
      if !VerificationLive(token, now)(employees[i]) {
        assert r[i] == employees[i];
      }
    }
  }

  method VerifyEmail(db: Database, token: Option<string>, now: Instant) returns (resp: Response)
    requires db.Valid()
    modifies db`employees
    ensures db.Valid()
    ensures resp == if AnyMatch(old(db.employees), VerificationLive(token, now)) then Ok
      else BadRequest(InvalidOrExpiredToken)
    ensures resp == Ok ==> db.employees == Verified(old(db.employees), token, now)
    ensures resp != Ok ==> db.employees == old(db.employees)
  {
    var live := VerificationLive(token, now);
    if !AnyMatch(db.employees, live) {
      return BadRequest(InvalidOrExpiredToken);
    }
    UpdateIfKeepsKeys(db.employees, EmployeeKey, db.nextEmployeeId, live, MarkVerified());
    db.employees := Verified(db.employees, token, now);
    resp := Ok;
  }

  // ---------------------------------------------------------------------------------------
  // resendVerificationEmail
  // ---------------------------------------------------------------------------------------

  /** `WHERE email = $3`. */
  function HasEmail(email: string): Employee -> bool {
    (e: Employee) => e.email == email
  }

  /** `SET email_verification_token = $1, email_verification_token_expires = $2`. */
  function SetVerificationToken(token: string, expires: Instant): Employee -> Employee {
    (e: Employee) => e.(verificationToken := Some(token), verificationExpires := Some(expires))
  }

  function Reissued(employees: seq<Employee>, email: string, token: string, now: Instant): (r: seq<Employee>)
    ensures |r| == |employees|
    ensures forall i :: 0 <= i < |r| ==> r[i].id == employees[i].id && r[i].email == employees[i].email
  {
    UpdateIf(employees, HasEmail(email), SetVerificationToken(token, AddHours(now, VerificationHours)))
  }

  /**
   * After a resend, the new token verifies the account at any moment strictly within the next
   * 24 hours, and the token it replaces no longer matches the account.
   */
  lemma ResendReplacesToken(
    employees: seq<Employee>, k: nat, token: string, now: Instant, later: Instant, previous: string)
    requires k < |employees| && now <= later < now + VerificationHours * MsPerHour && previous != token
    ensures var r := Reissued(employees, employees[k].email, token, now);
      && VerificationLive(Some(token), later)(r[k])
      && r[k].verificationToken != Some(previous)
  {
  }

  /**
   * `newToken` is the `uuidv4()` drawn for the new link and `now` the request's clock; the email
   * itself is not sent.
   */
  method ResendVerificationEmail(db: Database, email: string, newToken: string, now: Instant)
    returns (resp: Response)
    requires db.Valid()
    modifies db`employees
    ensures db.Valid()
    ensures resp ==
      match First(old(db.employees), EmployeeEmail, email)
      case None => NotFound(EmployeeTable)
      case Some(e) => if e.emailVerified then BadRequest(AlreadyVerified) else Ok
    ensures resp == Ok ==> db.employees == Reissued(old(db.employees), email, newToken, now)
    ensures resp != Ok ==> db.employees == old(db.employees)
  {
    var found := First(db.employees, EmployeeEmail, email);
    if found.None? {
      return NotFound(EmployeeTable);
    }
    if found.value.emailVerified {
      return BadRequest(AlreadyVerified);
    }
    var expires := AddHours(now, VerificationHours);
    UpdateIfKeepsKeys(db.employees, EmployeeKey, db.nextEmployeeId, HasEmail(email), SetVerificationToken(newToken, expires));
    db.employees := Reissued(db.employees, email, newToken, now);
    resp := Ok;
  }

  // ---------------------------------------------------------------------------------------
  // requestPasswordReset
  // ---------------------------------------------------------------------------------------

  /** `SET password_reset_token = $1, password_reset_token_expires = $2`. */
  function SetResetToken(token: string, expires: Instant): Employee -> Employee {
    (e: Employee) => e.(resetToken := Some(token), resetExpires := Some(expires))
  }

  function ResetIssued(employees: seq<Employee>, email: string, token: string, now: Instant): (r: seq<Employee>)
    ensures |r| == |employees|
    ensures forall i :: 0 <= i < |r| ==> r[i].id == employees[i].id && r[i].email == employees[i].email
  {
    UpdateIf(employees, HasEmail(email), SetResetToken(token, AddHours(now, ResetHours)))
  }

  /** A reset request for an email nobody has changes nothing. */
  lemma ResetRequestForUnknownEmail(employees: seq<Employee>, email: string, token: string, now: Instant)
    requires !Has(employees, EmployeeEmail, email)
    ensures ResetIssued(employees, email, token, now) == employees
  {
    var r := ResetIssued(employees, email, token, now);
    forall i | 0 <= i < |r| ensures r[i] == employees[i] {
      assert EmployeeEmail(employees[i]) != email;
    }
  }

  /**
   * The response is 200 whether or not the email has an account, so it reveals nothing; `newToken`
   * is the `uuidv4()` of the link and `now` the request's clock.
   */
  method RequestPasswordReset(db: Database, email: string, newToken: string, now: Instant)
    returns (resp: Response)
    requires db.Valid()
    modifies db`employees
    ensures db.Valid()
    ensures resp == Ok
    ensures db.employees == ResetIssued(old(db.employees), email, newToken, now)
  {
    var found := First(db.employees, EmployeeEmail, email);
    if found.Some? {
      var expires := AddHours(now, ResetHours);
      UpdateIfKeepsKeys(db.employees, EmployeeKey, db.nextEmployeeId, HasEmail(email), SetResetToken(newToken, expires));
      db.employees := ResetIssued(db.employees, email, newToken, now);
    } else {
      ResetRequestForUnknownEmail(db.employees, email, newToken, now);
    }
    resp := Ok;
  }

  // ---------------------------------------------------------------------------------------
  // resetPassword
  // ---------------------------------------------------------------------------------------

  /** `WHERE password_reset_token = $2 AND password_reset_token_expires > NOW()`. */
  function ResetLive(token: Option<string>, now: Instant): Employee -> bool {
    (e: Employee) => token.Some? && e.resetToken == token && e.resetExpires.Some? && e.resetExpires.value > now
  }

  /** `SET password = $1, password_reset_token = NULL, password_reset_token_expires = NULL`. */
  function ApplyReset(hashed: string): Employee -> Employee {
    (e: Employee) => e.(password := hashed, resetToken := None, resetExpires := None)
  }

  function PasswordReset(employees: seq<Employee>, token: Option<string>, hashed: string, now: Instant)
    : (r: seq<Employee>)
    ensures |r| == |employees|
    ensures forall i :: 0 <= i < |r| ==> r[i].id == employees[i].id && r[i].email == employees[i].email
  {
    UpdateIf(employees, ResetLive(token, now), ApplyReset(hashed))
  }

  /** A reset token works once: after it succeeds it matches no live row, now or later. */
  lemma ResetSingleUse(employees: seq<Employee>, token: Option<string>, hashed: string, now: Instant, later: Instant)
    requires now <= later
    ensures !AnyMatch(PasswordReset(employees, token, hashed, now), ResetLive(token, later))
  {
    var r := PasswordReset(employees, token, hashed, now);
    forall i | 0 <= i < |r| ensures !ResetLive(token, later)(r[i]) {
      if !ResetLive(token, now)(employees[i]) {
        assert r[i] == employees[i];
      }
    }
  }

  /**
   * After a reset through a live token, the account logs in with the new password, provided
   * it is verified and its email well formed; the old password no longer does, unless it hashes
   * alike.
   */
  lemma LoginAfterReset(
    employees: seq<Employee>, k: nat, token: Option<string>, newPassword: string, oldPassword: string,
    hash: string -> string, now: Instant)
    requires Employees.ContactsUnique(employees) && k < |employees|
    requires ResetLive(token, now)(employees[k]) && employees[k].emailVerified && ValidEmail(employees[k].email)
    requires ValidPassword(newPassword)
    ensures var r := PasswordReset(employees, token, hash(newPassword), now);
      && Login(r, employees[k].email, newPassword, hash).LoggedIn?
      && (hash(oldPassword) != hash(newPassword) ==> Login(r, employees[k].email, oldPassword, hash).Refused?)
  {
    var r := PasswordReset(employees, token, hash(newPassword), now);
    assert Employees.ContactsUnique(r) by {
      forall i, j | 0 <= i < j < |r| ensures r[i].email != r[j].email && r[i].matricule != r[j].matricule {
        assert employees[i].email != employees[j].email && employees[i].matricule != employees[j].matricule;
      }
    }
    assert newPassword != "" by {
      ValidPasswordIff(newPassword);
    }
    LoginIff(r, k, newPassword, hash);
    LoginIff(r, k, oldPassword, hash);
  }

  /** `hash` is bcrypt's hash, taken as a function of the password. */
  method ResetPassword(db: Database, token: Option<string>, newPassword: string, hash: string -> string, now: Instant)
    returns (resp: Response)
    requires db.Valid()
    modifies db`employees
    ensures db.Valid()
    ensures resp ==
      if !ValidPassword(newPassword) then BadRequest(InvalidPasswordFormat)
      else if !AnyMatch(old(db.employees), ResetLive(token, now)) then BadRequest(InvalidOrExpiredToken)
      else Ok
    ensures resp == Ok ==> db.employees == PasswordReset(old(db.employees), token, hash(newPassword), now)
    ensures resp != Ok ==> db.employees == old(db.employees)
  {
    if !ValidPassword(newPassword) {
      return BadRequest(InvalidPasswordFormat);
    }
    var hashed := hash(newPassword);
    var live := ResetLive(token, now);
    if !AnyMatch(db.employees, live) {
      return BadRequest(InvalidOrExpiredToken);
    }
    UpdateIfKeepsKeys(db.employees, EmployeeKey, db.nextEmployeeId, live, ApplyReset(hashed));
    db.employees := PasswordReset(db.employees, token, hashed, now);
    resp := Ok;
  }
}
