/** The two collections the controllers work on: accounts keyed by email and
    OTP records keyed by email (both schemas declare `email` unique). */
module Store {
  import opened AuthModel
  import opened OtpModel

  datatype State = State(
    accounts: map<string, Account>,
    otps: map<string, OtpRecord>,
    nextId: Id)

  /** Each record is filed under its own email, ids are distinct and below
      `nextId`, and every OTP record belongs to an existing account. */
  ghost predicate WellFormed(s: State)
  {
    && (forall e | e in s.accounts :: s.accounts[e].email == e && s.accounts[e].id < s.nextId)
    && (forall e1, e2 | e1 in s.accounts && e2 in s.accounts && s.accounts[e1].id == s.accounts[e2].id :: e1 == e2)
    && (forall e | e in s.otps :: s.otps[e].email == e)
    && s.otps.Keys <= s.accounts.Keys
  }

  /** The database the controllers read and write. */
  class Database {
    var accounts: map<string, Account>
    var otps: map<string, OtpRecord>
    var nextId: Id

    function Snapshot(): State
      reads this
    {
      State(accounts, otps, nextId)
    }

    ghost predicate Valid()
      reads this
    {
      WellFormed(Snapshot())
    }

    /** An empty database. */
    constructor ()
      ensures Valid()
      ensures Snapshot() == State(map[], map[], 0)
    {
      accounts, otps, nextId := map[], map[], 0;
    }
  }
}
