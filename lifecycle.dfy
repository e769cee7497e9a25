/** Properties of sequences of requests: the controllers' specification
    functions composed into one state machine over the two collections. */
module Lifecycle {
  import opened Basics
  import opened AuthModel
  import opened OtpModel
  import opened Store
  import AuthController
  import AuthMiddleware
  import ForgetController

  /** A value of `Math.floor(Math.random() * 900000)`. */
  type Draw = d: nat | d < 900000

  /** One request to the account or password-reset routes. */
  datatype Request =
    | Register(email: Option<string>, password: Option<string>, name: Option<string>)
    | Login(email: Option<string>, password: Option<string>, deviceName: Option<string>,
            userAgent: Option<string>, nowIso: string)
    | SendOtp(email: Option<string>, draw: Draw, delivered: bool, now: int)
    | VerifyOtp(email: Option<string>, otp: Option<string>, now: int)
    | ResetPassword(email: Option<string>, password: Option<string>)

  /** The state after serving `req`, and whether it was served successfully. */
  function Apply(s: State, req: Request): (State, bool)
  {
    match req
    case Register(e, p, n) =>
      var r := AuthController.RegisterSpec(s, e, p, n); (r.1, r.0.Registered?)
    case Login(e, p, d, u, t) =>
      var r := AuthController.LoginSpec(s, e, p, d, u, t); (r.1, r.0.LoggedIn?)
    case SendOtp(e, d, ok, t) =>
      var r := ForgetController.SendOtpSpec(s, e, d, ok, t); (r.1, r.0.OtpSent?)
    case VerifyOtp(e, c, t) =>
      var r := ForgetController.VerifyOtpSpec(s, e, c, t); (r.1, r.0.OtpVerified?)
    case ResetPassword(e, p) =>
      var r := ForgetController.ResetPasswordSpec(s, e, p); (r.1, r.0.PasswordReset?)
  }

  /** The state after serving `reqs` in order. */
  function Run(s0: State, reqs: seq<Request>): State
    decreases |reqs|
  {
    if reqs == [] then s0 else Apply(Run(s0, reqs[..|reqs| - 1]), reqs[|reqs| - 1]).0
  }

  /** Every sequence of requests keeps the collections well formed. */
  lemma {:induction false} RunPreservesWellFormed(s0: State, reqs: seq<Request>)
    requires WellFormed(s0)
    ensures WellFormed(Run(s0, reqs))
    decreases |reqs|
  {
    if reqs != [] {
      RunPreservesWellFormed(s0, reqs[..|reqs| - 1]);
    }
  }

  /** Request `i` of `reqs` is a successful code verification for `e`. */
  predicate VerifiesAt(s0: State, reqs: seq<Request>, i: nat, e: string)
    requires i < |reqs|
  {
    reqs[i].VerifyOtp? && reqs[i].email == Some(e) && Apply(Run(s0, reqs[..i]), reqs[i]).1
  }

  /** Only a successful verification for `e` raises `e`'s verified flag; in
      particular a re-sent code never does (it keeps the flag as it was). */
  lemma OnlyVerificationSetsFlag(s: State, req: Request, e: string)
    requires !ForgetController.VerifiedRecord(s, e) && ForgetController.VerifiedRecord(Apply(s, req).0, e)
    ensures req.VerifyOtp? && req.email == Some(e) && Apply(s, req).1
  {
  }

  /** If `e` is unverified after the first `j` requests and verified after
      all of them, one of the later requests verified a code for `e`. */
  lemma {:induction false} VerificationHasCause(s0: State, reqs: seq<Request>, j: nat, e: string)
    requires j < |reqs|
    requires !ForgetController.VerifiedRecord(Run(s0, reqs[..j]), e)
    requires ForgetController.VerifiedRecord(Run(s0, reqs), e)
    ensures exists i | j <= i < |reqs| :: VerifiesAt(s0, reqs, i, e)
    decreases |reqs|
  {
    var n := |reqs|;
    var prefix := reqs[..n - 1];
    var s := Run(s0, prefix);
    if ForgetController.VerifiedRecord(s, e) {
      assert prefix[..j] == reqs[..j];
      VerificationHasCause(s0, prefix, j, e);
      var i :| j <= i < |prefix| && VerifiesAt(s0, prefix, i, e);
      assert prefix[i] == reqs[i] && prefix[..i] == reqs[..i];
      assert VerifiesAt(s0, reqs, i, e);
    } else {
      OnlyVerificationSetsFlag(s, reqs[n - 1], e);
      assert VerifiesAt(s0, reqs, n - 1, e);
    }
  }

  /** No reset without verification: starting from a state in which `e` has
      no verified code, a password reset for `e` succeeds only after some
      request verified a code for `e`. */
  lemma NoResetWithoutVerification(s0: State, reqs: seq<Request>, e: string, password: Option<string>)
    requires !ForgetController.VerifiedRecord(s0, e)
    requires Apply(Run(s0, reqs), ResetPassword(Some(e), password)).1
    ensures exists i | 0 <= i < |reqs| :: VerifiesAt(s0, reqs, i, e)
  {
    assert reqs[..0] == [];
    VerificationHasCause(s0, reqs, 0, e);
  }

  /** One-time use: between two successful password resets for `e` there is
      a successful verification for `e`, because a reset deletes the record. */
  lemma ResetConsumesVerification(s0: State, reqs: seq<Request>, j: nat, e: string, password: Option<string>)
    requires j < |reqs|
    requires reqs[j].ResetPassword? && reqs[j].email == Some(e) && Apply(Run(s0, reqs[..j]), reqs[j]).1
    requires Apply(Run(s0, reqs), ResetPassword(Some(e), password)).1
    ensures exists i | j < i < |reqs| :: VerifiesAt(s0, reqs, i, e)
  {
    var upTo := reqs[..j + 1];
    assert upTo[..j] == reqs[..j];
    assert Run(s0, upTo) == Apply(Run(s0, reqs[..j]), reqs[j]).0;
    assert !ForgetController.VerifiedRecord(Run(s0, upTo), e);
    VerificationHasCause(s0, reqs, j + 1, e);
  }

  /** The code sent is accepted until its expiry instant, inclusive. */
  lemma SentCodeVerifiesUntilExpiry(s: State, e: string, draw: Draw, now: int, later: int)
    requires e != "" && e in s.accounts
    requires now <= later <= now + OtpLifetimeMs
    ensures var s1 := ForgetController.SendOtpSpec(s, Some(e), draw, true, now).1;
            ForgetController.VerifyOtpSpec(s1, Some(e), Some(ForgetController.OtpCode(draw)), later).0.OtpVerified?
  {
  }

  /** After its expiry instant the record is deleted, even for the right code,
      and that code is then not found at all. */
  lemma SentCodeExpires(s: State, e: string, draw: Draw, now: int, later: int)
    requires e != "" && e in s.accounts
    requires now + OtpLifetimeMs < later
    ensures var code := ForgetController.OtpCode(draw);
            var s1 := ForgetController.SendOtpSpec(s, Some(e), draw, true, now).1;
            var r := ForgetController.VerifyOtpSpec(s1, Some(e), Some(code), later);
            && r.0 == ForgetController.Fail(400, ForgetController.OtpExpired)
            && e !in r.1.otps
            && ForgetController.VerifyOtpSpec(r.1, Some(e), Some(code), later).0
               == ForgetController.Fail(404, ForgetController.OtpNotFound)
  {
  }

  /** A wrong code leaves the record as it was, so the right code still
      succeeds afterwards (before expiry). */
  lemma WrongCodeAllowsRetry(s: State, e: string, wrong: string, now: int)
    requires e != "" && e in s.otps && wrong != "" && wrong != s.otps[e].otp && s.otps[e].otp != ""
    requires now <= s.otps[e].expiresAt
    ensures var r := ForgetController.VerifyOtpSpec(s, Some(e), Some(wrong), now);
            && r == (ForgetController.Fail(400, ForgetController.InvalidOtp), s)
            && ForgetController.VerifyOtpSpec(r.1, Some(e), Some(s.otps[e].otp), now).0.OtpVerified?
  {
  }

  /** Re-sending a code does not withdraw an earlier verification: after a
      successful verification and a fresh code, a reset succeeds without the
      fresh code ever being entered. */
  lemma ResentCodeKeepsVerification(s: State, e: string, otp: string, now: int,
                                    draw: Draw, later: int, password: string)
    requires WellFormed(s)
    requires ForgetController.VerifyOtpSpec(s, Some(e), Some(otp), now).0.OtpVerified?
    requires password != ""
    ensures var s1 := ForgetController.VerifyOtpSpec(s, Some(e), Some(otp), now).1;
            var s2 := ForgetController.SendOtpSpec(s1, Some(e), draw, true, later).1;
            && s2.otps[e].otp == ForgetController.OtpCode(draw)
            && ForgetController.ResetPasswordSpec(s2, Some(e), Some(password)).0 == ForgetController.PasswordReset
  {
  }

  /** Only a reset naming `e` that finds `e`'s record verified changes the
      password of `e`'s account; no request removes the account. */
  lemma OnlyResetChangesPassword(s: State, req: Request, e: string)
    requires e in s.accounts
    ensures e in Apply(s, req).0.accounts
    ensures Apply(s, req).0.accounts[e].password != s.accounts[e].password ==>
              req.ResetPassword? && req.email == Some(e) && ForgetController.VerifiedRecord(s, e)
  {
  }

  /** Starting from a state in which `e` has no verified code, the password
      of `e`'s account changes only after a successful verification for `e`. */
  lemma {:induction false} PasswordChangeNeedsVerification(s0: State, reqs: seq<Request>, e: string)
    requires e in s0.accounts && !ForgetController.VerifiedRecord(s0, e)
    ensures e in Run(s0, reqs).accounts
    ensures Run(s0, reqs).accounts[e].password != s0.accounts[e].password ==>
              exists i | 0 <= i < |reqs| :: VerifiesAt(s0, reqs, i, e)
    decreases |reqs|
  {
    if reqs != [] {
      var n := |reqs|;
      var prefix := reqs[..n - 1];
      var s := Run(s0, prefix);
      PasswordChangeNeedsVerification(s0, prefix, e);
      OnlyResetChangesPassword(s, reqs[n - 1], e);
      if Run(s0, reqs).accounts[e].password != s0.accounts[e].password {
        if s.accounts[e].password == s0.accounts[e].password {
          assert ForgetController.VerifiedRecord(s, e);
          assert prefix != [];
          assert prefix[..0] == [];
          VerificationHasCause(s0, prefix, 0, e);
        }
        var i :| 0 <= i < |prefix| && VerifiesAt(s0, prefix, i, e);
        assert prefix[i] == reqs[i] && prefix[..i] == reqs[..i];
        assert VerifiesAt(s0, reqs, i, e);
      }
    }
  }

  /** The state after registering and logging in. */
  function RegisteredAndLoggedIn(s: State, e: string, name: string, oldPw: string, nowIso: string): State
  {
    var s1 := AuthController.RegisterSpec(s, Some(e), Some(oldPw), Some(name)).1;
    AuthController.LoginSpec(s1, Some(e), Some(oldPw), None, None, nowIso).1
  }

  /** The state after requesting a code, verifying it and resetting the
      password. */
  function CodeVerifiedAndReset(s: State, e: string, newPw: string, draw: Draw, now: int): State
  {
    var s3 := ForgetController.SendOtpSpec(s, Some(e), draw, true, now).1;
    var s4 := ForgetController.VerifyOtpSpec(s3, Some(e), Some(ForgetController.OtpCode(draw)), now).1;
    ForgetController.ResetPasswordSpec(s4, Some(e), Some(newPw)).1
  }

  /** The state after register, log in, request a code, verify it and
      reset the password. */
  function ResetFlow(s: State, e: string, name: string, oldPw: string, newPw: string,
                     draw: Draw, now: int, nowIso: string): State
  {
    CodeVerifiedAndReset(RegisteredAndLoggedIn(s, e, name, oldPw, nowIso), e, newPw, draw, now)
  }

  lemma RegisterThenLoginKeepsAccount(s: State, e: string, name: string, oldPw: string, nowIso: string)
    requires e !in s.accounts && e != "" && name != "" && oldPw != ""
    ensures e in RegisteredAndLoggedIn(s, e, name, oldPw, nowIso).accounts
  {
  }

  lemma CodeThenResetSucceeds(s: State, e: string, newPw: string, draw: Draw, now: int)
    requires e in s.accounts && e != "" && newPw != ""
    ensures var s5 := CodeVerifiedAndReset(s, e, newPw, draw, now);
            e in s5.accounts && s5.accounts[e].password == Hash(newPw) && e !in s5.otps
  {
  }

  /** After the flow the new password logs in, and the old one logs in
      exactly when it agrees with the new one on bcrypt's 72 key bytes; in
      particular a distinct old password that bcrypt reads in full is
      refused with 401. */
  lemma EndToEndReset(s: State, e: string, name: string, oldPw: string, newPw: string,
                      draw: Draw, now: int, nowIso: string)
    requires e !in s.accounts
    requires e != "" && name != "" && oldPw != "" && newPw != ""
    ensures var s5 := ResetFlow(s, e, name, oldPw, newPw, draw, now, nowIso);
            var oldLogin := AuthController.LoginSpec(s5, Some(e), Some(oldPw), None, None, nowIso).0;
            && e !in s5.otps
            && AuthController.LoginSpec(s5, Some(e), Some(newPw), None, None, nowIso).0.LoggedIn?
            && (oldLogin.LoggedIn? <==> Key(oldPw) == Key(newPw))
            && (oldPw != newPw && FitsKey(oldPw) && FitsKey(newPw) ==>
                  oldLogin == AuthController.Fail(401, AuthController.InvalidCredentials))
  {
    RegisterThenLoginKeepsAccount(s, e, name, oldPw, nowIso);
    CodeThenResetSucceeds(RegisteredAndLoggedIn(s, e, name, oldPw, nowIso), e, newPw, draw, now);
    if FitsKey(oldPw) && FitsKey(newPw) {
      HashMatchesOnlyItsPassword(newPw, oldPw);
    }
  }

  /** A token issued at login, presented as "Bearer <token>" and decoded by
      `jwt.verify` to the claims it was signed with, passes `isLogin`; the
      request then passes `isAdmin` exactly when the account's role is
      admin. */
  lemma LoginTokenAdmitsOnlyAdmins(s: State, email: Option<string>, password: Option<string>,
                                   deviceName: Option<string>, userAgent: Option<string>, nowIso: string,
                                   headers: map<string, string>, token: string, id: Option<string>,
                                   verify: string -> AuthMiddleware.Verified)
    requires AuthController.LoginSpec(s, email, password, deviceName, userAgent, nowIso).0.LoggedIn?
    requires token != "" && ' ' !in token
    requires AuthMiddleware.Header(headers, "authorization") == Some("Bearer " + token)
    requires var p := AuthController.LoginSpec(s, email, password, deviceName, userAgent, nowIso).0.token.payload;
             verify(token) == AuthMiddleware.Decoded(AuthMiddleware.Claims(id, Some(p.email), Some(p.role)))
    ensures var check := AuthMiddleware.Authenticate(AuthMiddleware.Header(headers, "authorization"), verify);
            && check.Pass?
            && (AuthMiddleware.IsAdmin(AuthMiddleware.WithClaims(headers, check.claims)) == AuthMiddleware.Next
                <==> s.accounts[email.value].role == Admin)
  {
    assert "Bearer " + token == "Bearer" + " " + token + "";
    AuthMiddleware.BearerTokenOfHeader("Bearer", token, "");
  }
}
