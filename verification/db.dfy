/** The storage contract that the security layer relies on: the `user`
    table (user name, password hash, salt) and the session store, as two
    maps held by one object. SQL text, connections and row scanning are
    not modelled; every read answers from the maps, and every write may be
    refused by the database, which the caller supplies as a parameter. */
module Db {
  import opened Types

  /** Widths of the `user` table's columns: `username VARCHAR(50)`,
      `password CHAR(128)`, `salt BINARY(16)`. */
  const UsernameWidth: nat := 50
  const PasswordWidth: nat := 128
  const SaltWidth: nat := 16

  /** `db.User`: one row of the `user` table. `password` holds the hash. */
  datatype User = User(username: string, password: string, salt: Bytes)

  /** What the `user` table holds for one user name. */
  datatype Credential = Credential(hash: string, salt: Bytes)

  /** The `(password, salt, error)` triple that `Getcreds` returns. */
  datatype Creds = Creds(hash: string, salt: Bytes, err: Option<Error>)

  /** The `(bool, error)` pair that `ValidSession` returns. */
  datatype SessionCheck = SessionCheck(valid: bool, err: Option<Error>)

  /** A row fits the `user` table's columns (a strict-mode server refuses
      values wider than their column). */
  predicate FitsUserTable(user: User) {
    |user.username| <= UsernameWidth && |user.password| <= PasswordWidth && |user.salt| <= SaltWidth
  }

  /** The sessions that remain once every session of `username` is gone. */
  function WithoutOwner(sessions: map<string, string>, username: string): (r: map<string, string>)
    ensures forall id :: id in r <==> id in sessions && sessions[id] != username
    ensures forall id :: id in r ==> r[id] == sessions[id]
  {
    map id | id in sessions && sessions[id] != username :: sessions[id]
  }

  class Database {
    /** The `user` table: user name to (password hash, salt). */
    var users: map<string, Credential>
    /** The session store: session id to the user name it belongs to. */
    var sessions: map<string, string>

    constructor ()
      ensures users == map[] && sessions == map[]
    {
      users := map[];
      sessions := map[];
    }

    /** `Getcreds`: the stored hash and salt, or `""` and an error when no row exists. */
    function Getcreds(username: string): (r: Creds)
      reads this
      ensures r.err == None <==> username in users
      ensures r.err == None ==> Credential(r.hash, r.salt) == users[username]
      ensures r.err != None ==> r == Creds("", [], Some(NoSuchRow))
    {
      if username in users then Creds(users[username].hash, users[username].salt, None)
      else Creds("", [], Some(NoSuchRow))
    }

    /** `Adduser`: inserts the row, unless the server refuses it (`accepted`
        false) or a value is wider than its column. */
    method Adduser(user: User, accepted: bool) returns (err: Option<Error>)
      modifies this
      ensures err == None <==> accepted && FitsUserTable(user)
      ensures err == None ==> users == old(users)[user.username := Credential(user.password, user.salt)]
      ensures err != None ==> err == Some(InsertFailed) && users == old(users)
      ensures sessions == old(sessions)
    {
      if accepted && FitsUserTable(user) {
        users := users[user.username := Credential(user.password, user.salt)];
        err := None;
      } else {
        err := Some(InsertFailed);
      }
    }

    /** `AddSession`: records a session for `username` under the id the store
        issues (`issued`), or fails when the store issues none. */
    method AddSession(username: string, issued: Option<string>) returns (r: Result<string>)
      modifies this
      ensures issued.Some? ==> r == Ok(issued.value) && sessions == old(sessions)[issued.value := username]
      ensures issued.None? ==> r == Err(SessionStoreFailed) && sessions == old(sessions)
      ensures users == old(users)
    {
      match issued
      case Some(id) =>
        sessions := sessions[id := username];
        r := Ok(id);
      case None =>
        r := Err(SessionStoreFailed);
    }

    /** `ValidSession`: whether a session with exactly this id exists. */
    function ValidSession(uuid: string): (r: SessionCheck)
      reads this
      ensures r.valid <==> uuid in sessions
      ensures r.err == None
    {
      SessionCheck(uuid in sessions, None)
    }

    /** `GetUsername`: the owner of a session, or an error when the id is unknown. */
    function GetUsername(uuid: string): (r: Result<string>)
      reads this
      ensures r.Ok? <==> uuid in sessions
      ensures r.Ok? ==> r.value == sessions[uuid]
      ensures r.Err? ==> r.error == SessionNotFound
    {
      if uuid in sessions then Ok(sessions[uuid]) else Err(SessionNotFound)
    }

    /** `DeleteSession`: removes every session of `username`, unless the
        store refuses the write (`accepted` false). */
    method DeleteSession(username: string, accepted: bool) returns (err: Option<Error>)
      modifies this
      ensures accepted ==> err == None && sessions == WithoutOwner(old(sessions), username)
      ensures !accepted ==> err == Some(SessionStoreFailed) && sessions == old(sessions)
      ensures users == old(users)
    {
      if accepted {
        sessions := WithoutOwner(sessions, username);
        err := None;
      } else {
        err := Some(SessionStoreFailed);
      }
    }
  }
}
