/** Registration, login and profile retrieval over the account collection.
    Each operation is a guard chain that answers with an `Outcome`; the
    state-changing ones are methods on a `Database`, each tied to a pure
    specification function of the state before the call. */
module AuthController {
  import opened Basics
  import opened AuthModel
  import opened OtpModel
  import opened Store

  /** `expiresIn: "1d"`, in seconds. */
  const TokenLifetimeSeconds: nat := 24 * 60 * 60

  const MissingRegistrationFields := "Please provide all required fields: email, password, and name"
  const EmailExists := "User email already exists"
  const MissingCredentials := "Please provide email and password"
  const InvalidCredentials := "Invalid email or password"
  const UserNotFound := "User not found"
  const UnknownDevice := "Unknown Device"

  /** The claims signed into a login token; the role is signed as the
      string the account stores. */
  datatype TokenPayload = TokenPayload(id: Id, email: string, role: string)

  /** `jwt.sign(payload, secret, { expiresIn })`; the signature is not modelled. */
  datatype Token = Token(payload: TokenPayload, expiresInSeconds: nat)

  /** The account summary returned by a successful login. */
  datatype LoginData = LoginData(
    id: Id,
    email: string,
    name: Option<string>,
    role: Role,
    lastLogin: Option<string>,
    loginDeviceName: string)

  datatype Outcome =
    | Registered(id: Id, email: string, name: string)
    | LoggedIn(token: Token, data: LoginData)
    | Profile(user: AccountView)
    | Fail(status: nat, msg: string)

  // ---------------------------------------------------------------- register

  function RegisterSpec(s: State, email: Option<string>, password: Option<string>, name: Option<string>)
    : (r: (Outcome, State))
    ensures WellFormed(s) ==> WellFormed(r.1)
    ensures r.1.otps == s.otps
    ensures r.0.Registered? <==> Present(email) && Present(password) && Present(name) && email.value !in s.accounts
    ensures !(Present(email) && Present(password) && Present(name)) ==> r == (Fail(400, MissingRegistrationFields), s)
    ensures Present(email) && Present(password) && Present(name) && email.value in s.accounts ==>
              r == (Fail(400, EmailExists), s)
    ensures r.0.Registered? ==>
              && r.0 == Registered(s.nextId, email.value, name.value)
              && r.1.nextId == s.nextId + 1
              && r.1.accounts == s.accounts[email.value := NewAccount(s.nextId, email.value, Hash(password.value), name)]
  {
    if !(Present(email) && Present(password) && Present(name)) then
      (Fail(400, MissingRegistrationFields), s)
    else if email.value in s.accounts then
      (Fail(400, EmailExists), s)
    else
      var account := NewAccount(s.nextId, email.value, Hash(password.value), name);
      (Registered(account.id, account.email, name.value),
       s.(accounts := s.accounts[email.value := account], nextId := s.nextId + 1))
  }

  /** A successful registration adds exactly one account, under the new
      email, holding the digest of the password and the schema defaults;
      every existing account is left as it was. */
  lemma RegisterAddsOneAccount(s: State, email: Option<string>, password: Option<string>, name: Option<string>)
    requires RegisterSpec(s, email, password, name).0.Registered?
    ensures var s' := RegisterSpec(s, email, password, name).1;
            && s'.accounts.Keys == s.accounts.Keys + {email.value}
            && |s'.accounts| == |s.accounts| + 1
            && (forall e | e in s.accounts :: s'.accounts[e] == s.accounts[e])
  {
  }

  /** The account created at registration stores a digest that accepts
      exactly the passwords agreeing with the one given on bcrypt's 72 key
      bytes (among passwords bcrypt reads in full: that password and no
      other); the account is active and has role `user`. */
  lemma RegisteredAccountDefaults(s: State, email: Option<string>, password: Option<string>, name: Option<string>, q: string)
    requires RegisterSpec(s, email, password, name).0.Registered?
    ensures var a := RegisterSpec(s, email, password, name).1.accounts[email.value];
            && (Matches(q, a.password) <==> Key(q) == Key(password.value))
            && (FitsKey(q) && FitsKey(password.value) ==> (Matches(q, a.password) <==> q == password.value))
            && a.isActive && a.role == User
            && a.name == name && a.lastLogin == None && a.loginDeviceName == None
  {
    if FitsKey(q) && FitsKey(password.value) {
      HashMatchesOnlyItsPassword(password.value, q);
    }
  }

  method UserRegistration(db: Database, email: Option<string>, password: Option<string>, name: Option<string>)
    returns (r: Outcome)
    requires db.Valid()
    modifies db
    ensures db.Valid()
    ensures (r, db.Snapshot()) == RegisterSpec(old(db.Snapshot()), email, password, name)
  {
    if !Present(email) || !Present(password) || !Present(name) {
      return Fail(400, MissingRegistrationFields);
    }
    if email.value in db.accounts {
      return Fail(400, EmailExists);
    }
    var hashed := Hash(password.value);
    var account := NewAccount(db.nextId, email.value, hashed, name);
    db.accounts := db.accounts[email.value := account];
    db.nextId := db.nextId + 1;
    r := Registered(account.id, account.email, name.value);
  }

  // ------------------------------------------------------------------- login

  /** `deviceName || req.headers["user-agent"] || "Unknown Device"`. */
  function DeviceName(deviceName: Option<string>, userAgent: Option<string>): (d: string)
    ensures d != ""
    ensures Present(deviceName) ==> d == deviceName.value
    ensures !Present(deviceName) && Present(userAgent) ==> d == userAgent.value
    ensures !Present(deviceName) && !Present(userAgent) ==> d == UnknownDevice
  {
    if Present(deviceName) then deviceName.value
    else if Present(userAgent) then userAgent.value
    else UnknownDevice
  }

  /** `nowIso` is `new Date().toISOString()` at the time of the call. */
  function LoginSpec(s: State, email: Option<string>, password: Option<string>,
                     deviceName: Option<string>, userAgent: Option<string>, nowIso: string)
    : (r: (Outcome, State))
    ensures WellFormed(s) ==> WellFormed(r.1)
    ensures r.1.otps == s.otps && r.1.nextId == s.nextId && r.1.accounts.Keys == s.accounts.Keys
    ensures !r.0.LoggedIn? ==> r.1 == s
    ensures !(Present(email) && Present(password)) ==> r.0 == Fail(400, MissingCredentials)
    ensures r.0.LoggedIn? <==>
              Present(email) && Present(password) && email.value in s.accounts
              && Matches(password.value, s.accounts[email.value].password)
    ensures Present(email) && Present(password) && !r.0.LoggedIn? ==> r.0 == Fail(401, InvalidCredentials)
    ensures r.0.LoggedIn? ==>
              var a := s.accounts[email.value];
              var device := DeviceName(deviceName, userAgent);
              && r.1.accounts == s.accounts[email.value := a.(lastLogin := Some(nowIso), loginDeviceName := Some(device))]
              && r.0.token == Token(TokenPayload(a.id, a.email, RoleName(a.role)), TokenLifetimeSeconds)
              && r.0.data == LoginData(a.id, a.email, a.name, a.role, Some(nowIso), device)
  {
    if !(Present(email) && Present(password)) then
      (Fail(400, MissingCredentials), s)
    else if email.value !in s.accounts then
      (Fail(401, InvalidCredentials), s)
    else
      var user := s.accounts[email.value];
      if !Matches(password.value, user.password) then
        (Fail(401, InvalidCredentials), s)
      else
        var device := DeviceName(deviceName, userAgent);
        var updated := user.(lastLogin := Some(nowIso), loginDeviceName := Some(device));
        var payload := TokenPayload(updated.id, updated.email, RoleName(updated.role));
        (LoggedIn(Token(payload, TokenLifetimeSeconds),
                  LoginData(updated.id, updated.email, updated.name, updated.role, updated.lastLogin, device)),
         s.(accounts := s.accounts[email.value := updated]))
  }

  /** An unknown email and a wrong password for a known one are answered
      identically, and neither changes anything. */
  lemma LoginFailuresIndistinguishable(s: State, email: string, password: string,
                                       deviceName: Option<string>, userAgent: Option<string>, nowIso: string)
    requires email != "" && password != ""
    requires email !in s.accounts || !Matches(password, s.accounts[email].password)
    ensures LoginSpec(s, Some(email), Some(password), deviceName, userAgent, nowIso)
            == (Fail(401, InvalidCredentials), s)
  {
  }

  /** A successful login changes only `lastLogin` and `loginDeviceName` of
      the account logged into. */
  lemma LoginTouchesOnlyLastLogin(s: State, email: Option<string>, password: Option<string>,
                                  deviceName: Option<string>, userAgent: Option<string>, nowIso: string)
    requires LoginSpec(s, email, password, deviceName, userAgent, nowIso).0.LoggedIn?
    ensures var s' := LoginSpec(s, email, password, deviceName, userAgent, nowIso).1;
            && (forall e | e in s.accounts && e != email.value :: s'.accounts[e] == s.accounts[e])
            && s'.accounts[email.value].(lastLogin := None, loginDeviceName := None)
               == s.accounts[email.value].(lastLogin := None, loginDeviceName := None)
            && s'.accounts[email.value].lastLogin == Some(nowIso)
  {
  }

  method UserLogin(db: Database, email: Option<string>, password: Option<string>,
                   deviceName: Option<string>, userAgent: Option<string>, nowIso: string)
    returns (r: Outcome)
    requires db.Valid()
    modifies db
    ensures db.Valid()
    ensures (r, db.Snapshot()) == LoginSpec(old(db.Snapshot()), email, password, deviceName, userAgent, nowIso)
  {
    if !Present(email) || !Present(password) {
      return Fail(400, MissingCredentials);
    }
    if email.value !in db.accounts {
      return Fail(401, InvalidCredentials);
    }
    var user := db.accounts[email.value];
    var isMatch := Matches(password.value, user.password);
    if !isMatch {
      return Fail(401, InvalidCredentials);
    }
    var clientDevice := DeviceName(deviceName, userAgent);
    user := user.(lastLogin := Some(nowIso));
    user := user.(loginDeviceName := Some(clientDevice));
    db.accounts := db.accounts[email.value := user];
    var payload := TokenPayload(user.id, user.email, RoleName(user.role));
    r := LoggedIn(Token(payload, TokenLifetimeSeconds),
                  LoginData(user.id, user.email, user.name, user.role, user.lastLogin, clientDevice));
  }

  // ----------------------------------------------------------------- profile

  /** `findOne({ _id: userId }).select("-password")`. Changes nothing. */
  method UserProfile(db: Database, userId: Id) returns (r: Outcome)
    requires db.Valid()
    ensures r.Fail? <==> (forall e | e in db.accounts :: db.accounts[e].id != userId)
    ensures r.Fail? ==> r == Fail(404, UserNotFound)
    ensures forall e | e in db.accounts && db.accounts[e].id == userId :: r == Profile(WithoutPassword(db.accounts[e]))
  {
    if e :| e in db.accounts && db.accounts[e].id == userId {
      r := Profile(WithoutPassword(db.accounts[e]));
    } else {
      r := Fail(404, UserNotFound);
    }
  }
}
