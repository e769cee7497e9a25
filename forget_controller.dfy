/** The password-reset flow: issue a one-time code, verify it, then replace
    the account's password. The OTP collection holds at most one record per
    email; a record is created or refreshed by `SendOtp`, flagged by
    `VerifyOtp`, and deleted when it is found expired or when it is used. */
module ForgetController {
  import opened Basics
  import opened AuthModel
  import opened OtpModel
  import opened Store

  const EmailRequired := "Email are required"
  const EmailNotFound := "Email not found"
  const SendFailed := "Failed to send OTP"
  const EmailAndOtpRequired := "Email and OTP are required"
  const OtpNotFound := "OTP not found for this email"
  const OtpExpired := "OTP has expired"
  const InvalidOtp := "Invalid OTP"
  const PasswordRequired := "Email and new password are required"
  const OtpNotVerified := "OTP not verified"

  datatype Outcome =
    | OtpSent
    | OtpVerified(otpVerify: bool)
    | PasswordReset
    | Fail(status: nat, msg: string)

  // ------------------------------------------------------- the 6-digit code

  function Digit(d: nat): (c: char)
    requires d < 10
    ensures '0' <= c <= '9' && c as int - '0' as int == d
  {
    ('0' as int + d) as char
  }

  predicate AllDigits(s: string)
  {
    forall i | 0 <= i < |s| :: '0' <= s[i] <= '9'
  }

  /** `Number.prototype.toString()` of a non-negative integer: its decimal
      digits, most significant first, without leading zeros. */
  function DecimalString(n: nat): (s: string)
    ensures |s| >= 1 && AllDigits(s)
    decreases n
  {
    if n < 10 then [Digit(n)] else DecimalString(n / 10) + [Digit(n % 10)]
  }

  /** The number a string of decimal digits denotes. */
  function DecimalValue(s: string): nat
    requires AllDigits(s)
    decreases |s|
  {
    if s == [] then 0
    else DecimalValue(s[..|s| - 1]) * 10 + (s[|s| - 1] as int - '0' as int)
  }

  function Pow10(k: nat): nat
  {
    if k == 0 then 1 else 10 * Pow10(k - 1)
  }

  /** Reading back the decimal rendering gives the number again. */
  lemma {:induction false} DecimalRoundTrip(n: nat)
    ensures DecimalValue(DecimalString(n)) == n
    decreases n
  {
    if n >= 10 {
      var s := DecimalString(n);
      assert s[..|s| - 1] == DecimalString(n / 10);
      DecimalRoundTrip(n / 10);
    }
  }

  /** A number in [10^k, 10^(k+1)) has k + 1 decimal digits. */
  lemma {:induction false} DecimalLength(n: nat, k: nat)
    requires Pow10(k) <= n < Pow10(k + 1)
    ensures |DecimalString(n)| == k + 1
    decreases k
  {
    if k > 0 {
      assert Pow10(k) == 10 * Pow10(k - 1);
      assert Pow10(k + 1) == 10 * Pow10(k);
      assert Pow10(k - 1) <= n / 10 < Pow10(k);
      DecimalLength(n / 10, k - 1);
    }
  }

  /** `Math.floor(100000 + Math.random() * 900000).toString()`, where `draw`
      stands for `Math.floor(Math.random() * 900000)`: a six-character string
      of decimal digits denoting a number in [100000, 999999]. */
  function OtpCode(draw: nat): (code: string)
    requires draw < 900000
    ensures |code| == 6 && AllDigits(code)
    ensures 100000 <= DecimalValue(code) <= 999999
    ensures DecimalValue(code) == 100000 + draw
  {
    assert Pow10(5) == 100000 && Pow10(6) == 1000000;
    DecimalLength(100000 + draw, 5);
    DecimalRoundTrip(100000 + draw);
    DecimalString(100000 + draw)
  }

  /** Distinct draws give distinct codes. */
  lemma OtpCodeInjective(d1: nat, d2: nat)
    requires d1 < 900000 && d2 < 900000
    ensures OtpCode(d1) == OtpCode(d2) <==> d1 == d2
  {
  }

  // ------------------------------------------------------------------ sendOtp

  /** `findOneAndUpdate({ email }, { otp, expiresAt, createdAt }, { upsert: true })`
      on a schema with `timestamps: true`: an existing record gets the new
      `otp` and `expiresAt` and keeps its other fields (`otpVerify` and its
      first `createdAt` among them, since the timestamps option sets
      `createdAt` on insert only); a missing one is created with the schema
      defaults and `createdAt = now`. */
  function Upsert(otps: map<string, OtpRecord>, email: string, code: string, now: int): map<string, OtpRecord>
  {
    if email in otps then
      otps[email := otps[email].(otp := code, expiresAt := now + OtpLifetimeMs)]
    else
      otps[email := NewOtpRecord(email, code, now)]
  }

  /** `delivered` is whether `SendEmailUtility` succeeded; `now` is the clock. */
  function SendOtpSpec(s: State, email: Option<string>, draw: nat, delivered: bool, now: int): (r: (Outcome, State))
    requires draw < 900000
    ensures WellFormed(s) ==> WellFormed(r.1)
    ensures r.1.accounts == s.accounts && r.1.nextId == s.nextId
    ensures r.0 != OtpSent ==> r.1 == s
    ensures !Present(email) ==> r.0 == Fail(400, EmailRequired)
    ensures Present(email) && email.value !in s.accounts ==> r.0 == Fail(404, EmailNotFound)
    ensures Present(email) && email.value in s.accounts && !delivered ==> r.0 == Fail(500, SendFailed)
    ensures r.0 == OtpSent <==> Present(email) && email.value in s.accounts && delivered
    ensures r.0 == OtpSent ==>
              var e := email.value;
              && r.1.otps.Keys == s.otps.Keys + {e}
              && (forall e' | e' in s.otps && e' != e :: r.1.otps[e'] == s.otps[e'])
              && r.1.otps[e].otp == OtpCode(draw)
              && r.1.otps[e].expiresAt == now + OtpLifetimeMs
              && (e in s.otps ==> && r.1.otps[e].otpVerify == s.otps[e].otpVerify
                                  && r.1.otps[e].createdAt == s.otps[e].createdAt
                                  && r.1.otps[e].email == s.otps[e].email
                                  && r.1.otps[e].expireTime == s.otps[e].expireTime)
              && (e !in s.otps ==> r.1.otps[e] == NewOtpRecord(e, OtpCode(draw), now))
  {
    if !Present(email) then
      (Fail(400, EmailRequired), s)
    else if email.value !in s.accounts then
      (Fail(404, EmailNotFound), s)
    else if !delivered then
      (Fail(500, SendFailed), s)
    else
      (OtpSent, s.(otps := Upsert(s.otps, email.value, OtpCode(draw), now)))
  }

  method SendOtp(db: Database, email: Option<string>, draw: nat, delivered: bool, now: int) returns (r: Outcome)
    requires draw < 900000
    requires db.Valid()
    modifies db
    ensures db.Valid()
    ensures (r, db.Snapshot()) == SendOtpSpec(old(db.Snapshot()), email, draw, delivered, now)
  {
    if !Present(email) {
      return Fail(400, EmailRequired);
    }
    if email.value !in db.accounts {
      return Fail(404, EmailNotFound);
    }
    var otp := OtpCode(draw);
    if !delivered {
      return Fail(500, SendFailed);
    }
    db.otps := Upsert(db.otps, email.value, otp, now);
    r := OtpSent;
  }

  // ---------------------------------------------------------------- verifyOtp

  /** `record.expiresAt < new Date()`: a record is still good at its expiry instant. */
  predicate Expired(record: OtpRecord, now: int)
  {
    record.expiresAt < now
  }

  function VerifyOtpSpec(s: State, email: Option<string>, otp: Option<string>, now: int): (r: (Outcome, State))
    ensures WellFormed(s) ==> WellFormed(r.1)
    ensures r.1.accounts == s.accounts && r.1.nextId == s.nextId
    ensures !(Present(email) && Present(otp)) ==> r == (Fail(400, EmailAndOtpRequired), s)
    ensures Present(email) && Present(otp) && email.value !in s.otps ==> r == (Fail(404, OtpNotFound), s)
    ensures Present(email) && Present(otp) && email.value in s.otps && s.otps[email.value].expiresAt < now ==>
              r == (Fail(400, OtpExpired), s.(otps := s.otps - {email.value}))
    ensures Present(email) && Present(otp) && email.value in s.otps && now <= s.otps[email.value].expiresAt
            && s.otps[email.value].otp != otp.value ==>
              r == (Fail(400, InvalidOtp), s)
    ensures r.0.OtpVerified? <==>
              Present(email) && Present(otp) && email.value in s.otps
              && now <= s.otps[email.value].expiresAt && s.otps[email.value].otp == otp.value
    ensures r.0.OtpVerified? ==>
              r.0.otpVerify && r.1.otps == s.otps[email.value := s.otps[email.value].(otpVerify := true)]
  {
    if !(Present(email) && Present(otp)) then
      (Fail(400, EmailAndOtpRequired), s)
    else if email.value !in s.otps then
      (Fail(404, OtpNotFound), s)
    else
      var record := s.otps[email.value];
      if Expired(record, now) then
        (Fail(400, OtpExpired), s.(otps := s.otps - {email.value}))
      else if record.otp != otp.value then
        (Fail(400, InvalidOtp), s)
      else
        (OtpVerified(true), s.(otps := s.otps[email.value := record.(otpVerify := true)]))
  }

  method VerifyOtp(db: Database, email: Option<string>, otp: Option<string>, now: int) returns (r: Outcome)
    requires db.Valid()
    modifies db
    ensures db.Valid()
    ensures (r, db.Snapshot()) == VerifyOtpSpec(old(db.Snapshot()), email, otp, now)
  {
    if !Present(email) || !Present(otp) {
      return Fail(400, EmailAndOtpRequired);
    }
    if email.value !in db.otps {
      return Fail(404, OtpNotFound);
    }
    var record := db.otps[email.value];
    if Expired(record, now) {
      db.otps := db.otps - {email.value};
      return Fail(400, OtpExpired);
    }
    if record.otp != otp.value {
      return Fail(400, InvalidOtp);
    }
    record := record.(otpVerify := true);
    db.otps := db.otps[email.value := record];
    r := OtpVerified(record.otpVerify);
  }

  // ------------------------------------------------------------ resetPassword

  /** The record stored under `e` exists and carries `otpVerify`. */
  predicate VerifiedRecord(s: State, e: string)
  {
    e in s.otps && s.otps[e].otpVerify
  }

  /** `resetPassword` with the guard its 400 message announces ("Email and
      new password are required"): both fields must be present. The code as
      written tests only the password; see `ResetPasswordAsWritten`. */
  function ResetPasswordSpec(s: State, email: Option<string>, password: Option<string>): (r: (Outcome, State))
    ensures WellFormed(s) ==> WellFormed(r.1)
    ensures r.1.nextId == s.nextId && r.1.accounts.Keys == s.accounts.Keys
    ensures !(Present(email) && Present(password)) ==> r == (Fail(400, PasswordRequired), s)
    ensures Present(email) && Present(password) && !VerifiedRecord(s, email.value) ==> r == (Fail(400, OtpNotVerified), s)
    ensures r.0 == PasswordReset <==> Present(email) && Present(password) && VerifiedRecord(s, email.value)
    ensures r.0 == PasswordReset ==>
              var e := email.value;
              && r.1.otps == s.otps - {e}
              && e !in r.1.otps
              && (forall e' | e' in s.accounts && e' != e :: r.1.accounts[e'] == s.accounts[e'])
              && (e in s.accounts ==> r.1.accounts[e] == s.accounts[e].(password := Hash(password.value)))
  {
    if !(Present(email) && Present(password)) then
      (Fail(400, PasswordRequired), s)
    else if !VerifiedRecord(s, email.value) then
      (Fail(400, OtpNotVerified), s)
    else
      var e := email.value;
      var accounts :=
        if e in s.accounts then s.accounts[e := s.accounts[e].(password := Hash(password.value))]
        else s.accounts;
      (PasswordReset, s.(accounts := accounts, otps := s.otps - {e}))
  }

  /** An account's stored data changes only through a reset that names its
      email and finds that email's record verified. */
  lemma ResetChangesOnlyVerifiedAccount(s: State, email: Option<string>, password: Option<string>, e: string)
    requires e in s.accounts
    requires ResetPasswordSpec(s, email, password).1.accounts[e] != s.accounts[e]
    ensures email == Some(e) && VerifiedRecord(s, e)
    ensures ResetPasswordSpec(s, email, password).1.accounts[e] == s.accounts[e].(password := Hash(password.value))
  {
  }

  /** The document a Mongoose filter `{ email }` selects. A given email
      selects the record under it. An `undefined` email drops the condition,
      so the filter is `{}` and selects the first document in natural order,
      `first`, which is absent exactly when the collection is empty. */
  function Selected<T>(m: map<string, T>, email: Option<string>, first: Option<string>): (k: Option<string>)
    requires first.Some? ==> first.value in m
    requires first.None? ==> m == map[]
    ensures k.Some? ==> k.value in m
    ensures email.Some? ==> (k.Some? <==> email.value in m) && (k.Some? ==> k == email)
    ensures email.None? ==> k == first
  {
    if email.None? then first
    else if email.value in m then email
    else None
  }

  /** `resetPassword` as written: only the password is tested, and
      `findOne`, `findOneAndUpdate` and `deleteOne` all use the filter
      `{ email }`. `firstOtp` and `firstAccount` are the documents an empty
      filter selects in each collection. */
  function ResetPasswordAsWritten(s: State, email: Option<string>, password: Option<string>,
                                  firstOtp: Option<string>, firstAccount: Option<string>): (r: (Outcome, State))
    requires firstOtp.Some? ==> firstOtp.value in s.otps
    requires firstOtp.None? ==> s.otps == map[]
    requires firstAccount.Some? ==> firstAccount.value in s.accounts
    requires firstAccount.None? ==> s.accounts == map[]
    ensures Present(email) ==> r == ResetPasswordSpec(s, email, password)
    ensures !Present(password) ==> r == (Fail(400, PasswordRequired), s)
  {
    if !Present(password) then
      (Fail(400, PasswordRequired), s)
    else
      var record := Selected(s.otps, email, firstOtp);
      if record.None? || !s.otps[record.value].otpVerify then
        (Fail(400, OtpNotVerified), s)
      else
        var user := Selected(s.accounts, email, firstAccount);
        var accounts :=
          if user.Some? then s.accounts[user.value := s.accounts[user.value].(password := Hash(password.value))]
          else s.accounts;
        (PasswordReset, s.(accounts := accounts, otps := s.otps - {record.value}))
  }

  /** The code as written lets a body without an email reset a password
      nobody verified: when the first OTP record is `holder`'s and verified,
      and the first account is `victim`'s, whose email has no record, the
      victim's password is replaced. The corrected guard refuses the body. */
  lemma AbsentEmailResetsAnotherAccount(s: State, holder: string, victim: string, password: string)
    requires WellFormed(s)
    requires VerifiedRecord(s, holder) && victim in s.accounts && victim !in s.otps
    requires password != "" && s.accounts[victim].password != Hash(password)
    ensures var r := ResetPasswordAsWritten(s, None, Some(password), Some(holder), Some(victim));
            && r.0 == PasswordReset
            && !VerifiedRecord(s, victim)
            && r.1.accounts[victim] == s.accounts[victim].(password := Hash(password))
            && r.1.accounts[victim] != s.accounts[victim]
            && r.1.otps == s.otps - {holder}
    ensures ResetPasswordSpec(s, None, Some(password)) == (Fail(400, PasswordRequired), s)
  {
  }

  /** A concrete instance: the accounts of Alice and Bob, Bob's record
      verified, and a body `{ password: "new" }` with no email. */
  lemma AbsentEmailResetExample()
    ensures var alice, bob := "alice@x", "bob@x";
            var s := State(map[alice := NewAccount(0, alice, Hash("a1"), None), bob := NewAccount(1, bob, Hash("b1"), None)],
                           map[bob := NewOtpRecord(bob, "123456", 0).(otpVerify := true)], 2);
            var r := ResetPasswordAsWritten(s, None, Some("new"), Some(bob), Some(alice));
            && WellFormed(s) && !VerifiedRecord(s, alice)
            && r.0 == PasswordReset && r.1.accounts[alice].password == Hash("new")
            && r.1.accounts[alice].password != s.accounts[alice].password
  {
  }

  /** A verified record is good for one reset only: the reset deletes it, so
      an immediate second reset is refused whatever password it carries. */
  lemma ResetIsOneTime(s: State, email: Option<string>, password: Option<string>, again: Option<string>)
    requires ResetPasswordSpec(s, email, password).0 == PasswordReset
    ensures ResetPasswordSpec(ResetPasswordSpec(s, email, password).1, email, again).0 != PasswordReset
  {
  }

  method ResetPassword(db: Database, email: Option<string>, password: Option<string>) returns (r: Outcome)
    requires db.Valid()
    modifies db
    ensures db.Valid()
    ensures (r, db.Snapshot()) == ResetPasswordSpec(old(db.Snapshot()), email, password)
  {
    if !Present(email) || !Present(password) {
      return Fail(400, PasswordRequired);
    }
    if email.value !in db.otps || !db.otps[email.value].otpVerify {
      return Fail(400, OtpNotVerified);
    }
    var hashedPassword := Hash(password.value);
    if email.value in db.accounts {
      db.accounts := db.accounts[email.value := db.accounts[email.value].(password := hashedPassword)];
    }
    db.otps := db.otps - {email.value};
    r := PasswordReset;
  }
}
