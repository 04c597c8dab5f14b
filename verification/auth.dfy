/** The authentication backend: the `User` row and its `AuthUser` identity,
    the `Credentials` a client submits, the redacting `Debug` output of both,
    and the two `AuthnBackend` operations, `authenticate` and `get_user`.
    SQL queries become searches of the table's rows; bcrypt is the
    uninterpreted `Hasher`. */
module Auth {
  import opened Wrappers
  import Utf8
  import DebugFmt

  /** A row of the `user` table; `pwHash` is the `password_hash` column, a
      bcrypt hash string. */
  datatype User = User(id: int, username: string, pwHash: string)

  /** What a client submits to log in. */
  datatype Credentials = Credentials(username: string, password: string)

  /** bcrypt, left uninterpreted.  `hash` produces the stored hash string of
      a password; `verify` checks a password against a stored hash and is
      `None` when the stored hash cannot be parsed, which is bcrypt's error
      result. */
  datatype Hasher = Hasher(hash: string -> string, verify: (string, string) -> Option<bool>)

  /** The single assumption made about bcrypt: a password verifies against
      its own fresh hash. */
  predicate VerifiesOwnHash(h: Hasher, password: string) {
    h.verify(password, h.hash(password)) == Some(true)
  }

  /** The user table: its rows, and the id the next inserted row receives. */
  datatype UserTable = UserTable(rows: seq<User>, nextId: int)

  /** Usernames and ids are unique, and every id is below the next one. */
  predicate Valid(t: UserTable) {
    && (forall i, j | 0 <= i < j < |t.rows| ::
          t.rows[i].username != t.rows[j].username && t.rows[i].id != t.rows[j].id)
    && (forall i | 0 <= i < |t.rows| :: t.rows[i].id < t.nextId)
  }

  /** `AuthUser::id`: the key axum_login stores in the session. */
  function Id(u: User): (r: int)
    ensures r == u.id
  {
    u.id
  }

  /** In a valid table the id names one row, so the session's stored id
      leads back to the user that logged in. */
  lemma IdIdentifiesRow(t: UserTable, u: User, v: User)
    requires Valid(t)
    requires u in t.rows && v in t.rows
    ensures Id(u) == Id(v) <==> u == v
  {
  }

  /** `AuthUser::session_auth_hash`: the bytes of the stored hash string,
      which decode back to it. */
  function SessionAuthHash(u: User): (r: seq<Utf8.byte>)
    ensures Utf8.Decode(r) == Some(u.pwHash)
    ensures |r| >= |u.pwHash|
  {
    Utf8.Encode(u.pwHash)
  }

  /** A change of password hash changes the session hash, which is what
      lets axum_login drop sessions opened under the old password. */
  lemma SessionAuthHashDetectsChange(u: User, v: User)
    ensures SessionAuthHash(u) == SessionAuthHash(v) <==> u.pwHash == v.pwHash
  {
    if SessionAuthHash(u) == SessionAuthHash(v) {
      Utf8.EncodeInjective(u.pwHash, v.pwHash);
    }
  }

  /** The last field and closing brace both `Debug` impls print: the secret
      field's value is replaced by the fixed text "Wouldn't you like to know",
      printed with `{:?}`, which needs no escapes for it. */
  const RedactedTail := ", pw_hash: \"Wouldn't you like to know\" }"

  /** `{:?}` of a `User`: id and name, with the hash replaced by the fixed
      text.  The id and the name read back exactly. */
  function DebugUser(u: User): (r: string)
    ensures ReadDebugUser(r) == Some((u.id, u.username))
  {
    var q := DebugFmt.Quote(u.username) + RedactedTail;
    var s2 := ", name: " + q;
    var r := "User { id: " + DebugFmt.ShowInt(u.id) + ", name: " + DebugFmt.Quote(u.username)
      + RedactedTail;
    assert r == "User { id: " + (DebugFmt.ShowInt(u.id) + s2);
    DebugFmt.StripOwnPrefix("User { id: ", DebugFmt.ShowInt(u.id) + s2);
    DebugFmt.ReadShowInt(u.id, s2);
    DebugFmt.StripOwnPrefix(", name: ", q);
    DebugFmt.ReadQuoteRoundTrip(u.username, RedactedTail);
    r
  }

  /** `{:?}` of `Credentials`: the username, with the password replaced by
      the fixed text. */
  function DebugCredentials(c: Credentials): (r: string)
    ensures ReadDebugCredentials(r) == Some(c.username)
  {
    var q := DebugFmt.Quote(c.username) + RedactedTail;
    var r := "Credentials { username: " + q;
    DebugFmt.StripOwnPrefix("Credentials { username: ", q);
    DebugFmt.ReadQuoteRoundTrip(c.username, RedactedTail);
    r
  }

  /** Recovers the id and name from the `Debug` text of a `User`. */
  function ReadDebugUser(s: string): Option<(int, string)>
  {
    match DebugFmt.StripPrefix("User { id: ", s)
    case None => None
    case Some(s1) =>
      match DebugFmt.ReadInt(s1)
      case None => None
      case Some((id, s2)) =>
        match DebugFmt.StripPrefix(", name: ", s2)
        case None => None
        case Some(s3) =>
          match DebugFmt.ReadQuoted(s3)
          case None => None
          case Some((name, s4)) =>
            if s4 == RedactedTail then Some((id, name)) else None
  }

  /** Recovers the username from the `Debug` text of `Credentials`. */
  function ReadDebugCredentials(s: string): Option<string>
  {
    match DebugFmt.StripPrefix("Credentials { username: ", s)
    case None => None
    case Some(s1) =>
      match DebugFmt.ReadQuoted(s1)
      case None => None
      case Some((name, s2)) =>
        if s2 == RedactedTail then Some(name) else None
  }

  /** The `Debug` text of a `User` shows nothing of its hash: users that
      differ only in `pwHash` print the same text. */
  lemma DebugUserHidesHash(u: User, pwHash: string)
    ensures DebugUser(u.(pwHash := pwHash)) == DebugUser(u)
  {
  }

  /** The `Debug` text of `Credentials` shows nothing of the password. */
  lemma DebugCredentialsHidesPassword(c: Credentials, password: string)
    ensures DebugCredentials(c.(password := password)) == DebugCredentials(c)
  {
  }

  /** `SELECT * FROM user WHERE username = ?` with `fetch_optional`: the
      first row with exactly that name, if any. */
  function FindByName(rows: seq<User>, name: string): (r: Option<User>)
    ensures r.None? <==> forall i | 0 <= i < |rows| :: rows[i].username != name
    ensures r.Some? ==> r.value in rows && r.value.username == name
  {
    if |rows| == 0 then None
    else if rows[0].username == name then Some(rows[0])
    else FindByName(rows[1..], name)
  }

  /** With unique names the row found is the row with that name. */
  lemma FindByNameUnique(t: UserTable, i: nat)
    requires Valid(t) && i < |t.rows|
    ensures FindByName(t.rows, t.rows[i].username) == Some(t.rows[i])
  {
    var r := FindByName(t.rows, t.rows[i].username);
    var j :| 0 <= j < |t.rows| && t.rows[j] == r.value;
    assert t.rows[j].username == t.rows[i].username;
  }

  /** `AuthnBackend::authenticate`, in its lookup-then-verify form: an
      unknown name gives `None`; a known one gives its row when bcrypt
      accepts the password, `None` when it rejects it, and a panic when the
      stored hash cannot be parsed.  The result is always a row of the
      table, and the table is only read. */
  function Authenticate(t: UserTable, h: Hasher, creds: Credentials): (r: Reply<Option<User>>)
    ensures !r.Err?
    ensures (forall i | 0 <= i < |t.rows| :: t.rows[i].username != creds.username) ==> r == Ok(None)
    ensures r.Ok? && r.value.Some? ==>
      && r.value.value in t.rows
      && r.value.value.username == creds.username
      && h.verify(creds.password, r.value.value.pwHash) == Some(true)
    ensures Valid(t) ==>
      forall i | 0 <= i < |t.rows| && t.rows[i].username == creds.username ::
        var verdict := h.verify(creds.password, t.rows[i].pwHash);
        && (r == Ok(Some(t.rows[i])) <==> verdict == Some(true))
        && (r == Ok(None) <==> verdict == Some(false))
        && (r.Panic? <==> verdict.None?)
  {
    match FindByName(t.rows, creds.username)
    case None => Ok(None)
    case Some(user) =>
      assert Valid(t) ==> forall i | 0 <= i < |t.rows| && t.rows[i].username == creds.username ::
        t.rows[i] == user
      by {
        if Valid(t) {
          forall i | 0 <= i < |t.rows| && t.rows[i].username == creds.username
            ensures t.rows[i] == user
          {
            FindByNameUnique(t, i);
          }
        }
      }
      match h.verify(creds.password, user.pwHash)
      case None => Panic("database's hash should be formatted ok")
      case Some(ok) => if ok then Ok(Some(user)) else Ok(None)
  }

  /** `AuthnBackend::get_user`: `SELECT * FROM user WHERE id = ?` with
      `fetch_optional`, scanning the rows in order.  It finds a row with the
      requested id exactly when one exists, and in a valid table that row
      is the only one. */
  method GetUser(t: UserTable, id: int) returns (r: Option<User>)
    ensures r.Some? ==> r.value in t.rows && r.value.id == id
    ensures r.None? <==> forall i | 0 <= i < |t.rows| :: t.rows[i].id != id
    ensures Valid(t) ==> forall i | 0 <= i < |t.rows| && Id(t.rows[i]) == id :: r == Some(t.rows[i])
  {
    var i := 0;
    while i < |t.rows|
      invariant 0 <= i <= |t.rows|
      invariant forall j | 0 <= j < i :: t.rows[j].id != id
    {
      if t.rows[i].id == id {
        return Some(t.rows[i]);
      }
      i := i + 1;
    }
    return None;
  }
}
