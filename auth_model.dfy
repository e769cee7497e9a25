/** The account schema: one record per registered email. */
module AuthModel {
  import opened Basics

  /** Document identity (`_id`). Fresh ids are drawn by the store. */
  type Id = nat

  /** The `Role` enum: the schema accepts exactly these two values. */
  datatype Role = Admin | User

  /** The string a role is stored and signed as. */
  function RoleName(r: Role): (s: string)
    ensures s == "admin" <==> r == Admin
    ensures s == "user" <==> r == User
  {
    match r
    case Admin => "admin"
    case User => "user"
  }

  /** An account document. `email` and `password` are required; `name`,
      `lastLogin` and `loginDeviceName` are optional; `isActive` and `role`
      have schema defaults. */
  datatype Account = Account(
    id: Id,
    email: string,
    password: PasswordHash,
    name: Option<string>,
    isActive: bool,
    role: Role,
    lastLogin: Option<string>,
    loginDeviceName: Option<string>)

  /** An account as `select("-password")` returns it. */
  datatype AccountView = AccountView(
    id: Id,
    email: string,
    name: Option<string>,
    isActive: bool,
    role: Role,
    lastLogin: Option<string>,
    loginDeviceName: Option<string>)

  function WithoutPassword(a: Account): AccountView
  {
    AccountView(a.id, a.email, a.name, a.isActive, a.role, a.lastLogin, a.loginDeviceName)
  }

  /** The view drops the password and nothing else: two accounts with the
      same view differ at most in their password. */
  lemma ViewForgetsOnlyPassword(a: Account, b: Account)
    ensures WithoutPassword(a) == WithoutPassword(b) <==> a.(password := b.password) == b
  {
  }

  /** `new AuthModel({ email, password, name })`: the fields given, and the
      schema defaults for the rest. */
  function NewAccount(id: Id, email: string, password: PasswordHash, name: Option<string>): (a: Account)
    ensures a.id == id && a.email == email && a.password == password && a.name == name
    ensures a.isActive
    ensures a.role == User
    ensures a.lastLogin == None && a.loginDeviceName == None
  {
    Account(id, email, password, name, true, User, None, None)
  }
}
