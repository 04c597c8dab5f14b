/** The server functions of the application: `get_username`, `logout`,
    `log_in` and `sign_up`, as transitions of a state made of the user
    table and the request's session user.  Each returns how the call ends
    and the state after it. */
module App {
  import opened Wrappers
  import opened Auth
  import Text

  /** The user table, and the user axum_login has bound to the session. */
  datatype State = State(table: UserTable, session: Option<User>)

  /** The end of one server-function call and the state it leaves. */
  datatype Step = Step(reply: Reply<()>, next: State)

  const InvalidLogin := "Invalid login details"
  const UserExists := "User already exists"
  const NoAppState := "Couldn't receive state from context"
  const SignedUpButRejected := "user should authenticate correctly because they were just added to the database"

  /** The table is valid and the session user, if any, is one of its rows. */
  predicate Inv(st: State) {
    Valid(st.table) && (st.session.Some? ==> st.session.value in st.table.rows)
  }

  /** `get_username`: the session user's name, or `None` when logged out. */
  function GetUsername(st: State): (r: Reply<Option<string>>)
    ensures r.Ok?
    ensures r.value.Some? <==> st.session.Some?
    ensures st.session.Some? ==> r.value.value == st.session.value.username
  {
    Ok(match st.session case None => None case Some(u) => Some(u.username))
  }

  /** `logout`: clears the session user and touches nothing else. */
  function LogOut(st: State): (s: Step)
    ensures s.reply == Ok(())
    ensures s.next.session.None?
    ensures s.next.table == st.table
  {
    Step(Ok(()), st.(session := None))
  }

  /** `log_in`, as written: a caller who is logged in gets `Ok` and nothing
      else happens; otherwise the submitted name, exactly as typed, is
      authenticated, and a match becomes the session user while a miss ends
      with the one fixed error text.  The user table never changes. */
  function LogIn(st: State, h: Hasher, username: string, password: string): (s: Step)
    ensures s.next.table == st.table
    ensures st.session.Some? ==> s == Step(Ok(()), st)
    ensures s.reply.Err? ==> s.reply == Err(InvalidLogin) && s.next == st
    ensures s.reply.Panic? ==> s.next == st
    ensures st.session.None? && s.reply.Ok? ==>
      && s.next.session.Some?
      && s.next.session.value in st.table.rows
      && s.next.session.value.username == username
      && h.verify(password, s.next.session.value.pwHash) == Some(true)
    ensures st.session.None? && Valid(st.table) ==>
      forall i | 0 <= i < |st.table.rows| && st.table.rows[i].username == username ::
        var verdict := h.verify(password, st.table.rows[i].pwHash);
        && (s == Step(Ok(()), st.(session := Some(st.table.rows[i]))) <==> verdict == Some(true))
        && (s == Step(Err(InvalidLogin), st) <==> verdict == Some(false))
        && (s.reply.Panic? <==> verdict.None?)
    ensures st.session.None? && (forall i | 0 <= i < |st.table.rows| :: st.table.rows[i].username != username)
      ==> s == Step(Err(InvalidLogin), st)
  {
    if st.session.Some? then
      Step(Ok(()), st)
    else
      match Authenticate(st.table, h, Credentials(username, password))
      case Ok(Some(user)) => Step(Ok(()), st.(session := Some(user)))
      case Ok(None) => Step(Err(InvalidLogin), st)
      case Err(e) => Step(Err(e), st)
      case Panic(m) => Step(Panic(m), st)
  }

  /** `log_in` as it was evidently meant to be: the submitted name is
      normalised the way `sign_up` stored it before it is looked up, so a
      logged-out caller is let in exactly when a row carries the normalised
      name and bcrypt accepts the password against that row's hash. */
  function LogInNormalised(st: State, h: Hasher, username: string, password: string): (s: Step)
    ensures s.next.table == st.table
    ensures st.session.Some? ==> s == Step(Ok(()), st)
    ensures s.reply.Err? ==> s.reply == Err(InvalidLogin) && s.next == st
    ensures s.reply.Panic? ==> s.next == st
    ensures st.session.None? && s.reply.Ok? ==>
      && s.next.session.Some?
      && s.next.session.value in st.table.rows
      && s.next.session.value.username == Text.Normalize(username)
      && h.verify(password, s.next.session.value.pwHash) == Some(true)
    ensures st.session.None? && Valid(st.table) ==>
      forall i | 0 <= i < |st.table.rows| && st.table.rows[i].username == Text.Normalize(username) ::
        var verdict := h.verify(password, st.table.rows[i].pwHash);
        && (s == Step(Ok(()), st.(session := Some(st.table.rows[i]))) <==> verdict == Some(true))
        && (s == Step(Err(InvalidLogin), st) <==> verdict == Some(false))
        && (s.reply.Panic? <==> verdict.None?)
    ensures st.session.None?
      && (forall i | 0 <= i < |st.table.rows| :: st.table.rows[i].username != Text.Normalize(username))
      ==> s == Step(Err(InvalidLogin), st)
  {
    LogIn(st, h, Text.Normalize(username), password)
  }

  /** `INSERT INTO user (username, password_hash) VALUES (?, ?)`: one row at
      the end, with the next id. */
  function InsertUser(t: UserTable, name: string, pwHash: string): (t': UserTable)
    ensures |t'.rows| == |t.rows| + 1
    ensures t'.rows[..|t.rows|] == t.rows
    ensures t'.rows[|t.rows|] == User(t.nextId, name, pwHash)
    ensures t'.nextId > t.nextId
  {
    UserTable(t.rows + [User(t.nextId, name, pwHash)], t.nextId + 1)
  }

  /** Inserting a name that is not yet present keeps the table valid. */
  lemma InsertKeepsValid(t: UserTable, name: string, pwHash: string)
    requires Valid(t)
    requires FindByName(t.rows, name).None?
    ensures Valid(InsertUser(t, name, pwHash))
  {
    var t' := InsertUser(t, name, pwHash);
    forall i, j | 0 <= i < j < |t'.rows|
      ensures t'.rows[i].username != t'.rows[j].username && t'.rows[i].id != t'.rows[j].id
    {
      assert t'.rows[i] == t.rows[i];
      if j < |t.rows| { assert t'.rows[j] == t.rows[j]; }
    }
  }

  /** After inserting a name that was absent, looking it up finds the new row. */
  lemma {:induction false} FindInserted(rows: seq<User>, u: User)
    requires FindByName(rows, u.username).None?
    ensures FindByName(rows + [u], u.username) == Some(u)
  {
    if |rows| > 0 {
      assert (rows + [u])[1..] == rows[1..] + [u];
      FindInserted(rows[1..], u);
    }
  }

  /** `sign_up`: a logged-in caller gets `Ok` and nothing else happens;
      otherwise the name is normalised, an existing name is refused with
      "User already exists" and nothing is written, and a new name gets
      exactly one row, is authenticated with the submitted password and
      becomes the session user.  If that authentication does not succeed
      the call panics, after the row has been written. */
  function SignUp(st: State, h: Hasher, haveAppState: bool, username: string, password: string): (s: Step)
    ensures st.session.Some? ==> s == Step(Ok(()), st)
    ensures st.session.None? && !haveAppState ==> s == Step(Err(NoAppState), st)
    ensures s.reply.Err? ==> s.next == st && (s.reply == Err(NoAppState) || s.reply == Err(UserExists))
    ensures s.reply == Err(UserExists) <==>
      st.session.None? && haveAppState && FindByName(st.table.rows, Text.Normalize(username)).Some?
    ensures s.next.table == st.table
      || s.next.table == InsertUser(st.table, Text.Normalize(username), h.hash(password))
    ensures s.reply.Ok? && s.next.session != st.session ==>
      s.next.session == Some(User(st.table.nextId, Text.Normalize(username), h.hash(password)))
    ensures !s.reply.Ok? ==> s.next.session == st.session
  {
    if st.session.Some? then
      Step(Ok(()), st)
    else if !haveAppState then
      Step(Err(NoAppState), st)
    else
      var name := Text.Normalize(username);
      if FindByName(st.table.rows, name).Some? then
        Step(Err(UserExists), st)
      else
        var t := InsertUser(st.table, name, h.hash(password));
        var row := User(st.table.nextId, name, h.hash(password));
        assert t.rows == st.table.rows + [row];
        FindInserted(st.table.rows, row);
        match Authenticate(t, h, Credentials(name, password))
        case Ok(Some(user)) => Step(Ok(()), State(t, Some(user)))
        case Ok(None) => Step(Panic(SignedUpButRejected), st.(table := t))
        case Err(e) => Step(Err(e), st.(table := t))
        case Panic(m) => Step(Panic(m), st.(table := t))
  }

  // ---------------------------------------------------------------------
  // Properties of single calls

  /** A failed login gives the same text whether the name is unknown or the
      password is wrong, and leaves the state as it was. */
  lemma LogInRejectionHidesCause(st: State, h: Hasher, username: string, password: string)
    requires st.session.None? && Valid(st.table)
    requires forall i | 0 <= i < |st.table.rows| && st.table.rows[i].username == username ::
      h.verify(password, st.table.rows[i].pwHash) == Some(false)
    ensures LogIn(st, h, username, password) == Step(Err(InvalidLogin), st)
  {
  }

  /** The signup that succeeds: given that bcrypt verifies a password
      against its own hash, a new normalised name yields `Ok`, the table
      gains exactly the row (next id, normalised name, hash of the password),
      and the session user becomes that row. */
  lemma SignUpAddsOneRowAndLogsIn(st: State, h: Hasher, username: string, password: string)
    requires st.session.None?
    requires FindByName(st.table.rows, Text.Normalize(username)).None?
    requires VerifiesOwnHash(h, password)
    ensures var row := User(st.table.nextId, Text.Normalize(username), h.hash(password));
      && SignUp(st, h, true, username, password)
        == Step(Ok(()), State(UserTable(st.table.rows + [row], st.table.nextId + 1), Some(row)))
      && GetUsername(SignUp(st, h, true, username, password).next) == Ok(Some(Text.Normalize(username)))
  {
    var row := User(st.table.nextId, Text.Normalize(username), h.hash(password));
    FindInserted(st.table.rows, row);
  }

  /** The auto-login after a signup panics exactly when bcrypt does not
      verify the password against its own fresh hash; the row is written
      either way. */
  lemma SignUpPanicsIffOwnHashFails(st: State, h: Hasher, username: string, password: string)
    requires st.session.None?
    requires FindByName(st.table.rows, Text.Normalize(username)).None?
    ensures var s := SignUp(st, h, true, username, password);
      && (s.reply.Panic? <==> !VerifiesOwnHash(h, password))
      && s.next.table == InsertUser(st.table, Text.Normalize(username), h.hash(password))
      && (s.reply.Panic? ==> s.next.session.None?)
  {
    var row := User(st.table.nextId, Text.Normalize(username), h.hash(password));
    FindInserted(st.table.rows, row);
  }

  // ---------------------------------------------------------------------
  // The invariant

  lemma LogOutKeepsInv(st: State)
    requires Inv(st)
    ensures Inv(LogOut(st).next)
  {
  }

  lemma LogInKeepsInv(st: State, h: Hasher, username: string, password: string)
    requires Inv(st)
    ensures Inv(LogIn(st, h, username, password).next)
  {
  }

  /** Every signup outcome, the panic included, leaves a valid table whose
      rows contain the session user. */
  lemma SignUpKeepsInv(st: State, h: Hasher, haveAppState: bool, username: string, password: string)
    requires Inv(st)
    ensures Inv(SignUp(st, h, haveAppState, username, password).next)
  {
    var s := SignUp(st, h, haveAppState, username, password);
    if s.next.table != st.table {
      var name := Text.Normalize(username);
      InsertKeepsValid(st.table, name, h.hash(password));
      if s.next.session.Some? {
        assert s.next.session.value == s.next.table.rows[|st.table.rows|];
      }
    }
  }

  // ---------------------------------------------------------------------
  // Sequences of calls

  /** Logging out twice is logging out once, and afterwards nobody is
      logged in. */
  lemma LogOutIdempotent(st: State)
    ensures LogOut(LogOut(st).next) == LogOut(st)
    ensures GetUsername(LogOut(st).next) == Ok(None)
  {
  }

  /** Once a signup has written a name, whether its auto-login succeeded or
      panicked, any case or white-space variant of the name is refused to
      another logged-out client and writes nothing. */
  lemma SignUpVariantRejected(st: State, h: Hasher, a: string, b: string, pa: string, pb: string)
    requires st.session.None?
    requires FindByName(st.table.rows, Text.Normalize(a)).None?
    requires Text.Normalize(b) == Text.Normalize(a)
    ensures var st1 := SignUp(st, h, true, a, pa).next.(session := None);
      SignUp(st1, h, true, b, pb) == Step(Err(UserExists), st1)
  {
    SignUpPanicsIffOwnHashFails(st, h, a, pa);
    var st1 := SignUp(st, h, true, a, pa).next.(session := None);
    assert st1.table.rows[|st.table.rows|].username == Text.Normalize(a);
  }

  /** The corrected login accepts the freshly signed-up user under any
      spelling that normalises to the stored name. */
  lemma SignUpThenLogInAnySpelling(st: State, h: Hasher, a: string, b: string, password: string)
    requires st.session.None? && Valid(st.table)
    requires FindByName(st.table.rows, Text.Normalize(a)).None?
    requires VerifiesOwnHash(h, password)
    requires Text.Normalize(b) == Text.Normalize(a)
    ensures var st1 := LogOut(SignUp(st, h, true, a, password).next).next;
      var row := User(st.table.nextId, Text.Normalize(a), h.hash(password));
      LogInNormalised(st1, h, b, password) == Step(Ok(()), st1.(session := Some(row)))
  {
    SignUpAddsOneRowAndLogsIn(st, h, a, password);
    var row := User(st.table.nextId, Text.Normalize(a), h.hash(password));
    InsertKeepsValid(st.table, Text.Normalize(a), h.hash(password));
    var st1 := LogOut(SignUp(st, h, true, a, password).next).next;
    assert st1.table.rows[|st.table.rows|] == row;
  }

  /** The login as written refuses a user who types the very name they signed
      up with, whenever that name is not already in normal form.  The refusal
      depends neither on bcrypt nor on the table's invariant: no row carries
      the name as typed, so the password is never even checked. */
  lemma SignUpThenLogInSameSpellingRejected(st: State, h: Hasher, a: string, password: string)
    requires st.session.None?
    requires FindByName(st.table.rows, Text.Normalize(a)).None?
    requires FindByName(st.table.rows, a).None?
    requires Text.Normalize(a) != a
    ensures var st1 := LogOut(SignUp(st, h, true, a, password).next).next;
      LogIn(st1, h, a, password) == Step(Err(InvalidLogin), st1)
  {
    SignUpPanicsIffOwnHashFails(st, h, a, password);
    var row := User(st.table.nextId, Text.Normalize(a), h.hash(password));
    var st1 := LogOut(SignUp(st, h, true, a, password).next).next;
    forall i | 0 <= i < |st1.table.rows| ensures st1.table.rows[i].username != a {
      if i < |st.table.rows| { assert st1.table.rows[i] == st.table.rows[i]; }
      else { assert st1.table.rows[i] == row; }
    }
  }

  /** "Alice" is stored as "alice". */
  lemma NormalizeAlice()
    ensures Text.Normalize("Alice") == "alice"
  {
    Text.TrimOfTrimmed("Alice");
    assert Text.Lower("Alice") == "alice";
  }

  /** " alice" is stored as "alice". */
  lemma NormalizeSpacedAlice()
    ensures Text.Normalize(" alice") == "alice"
  {
    Text.TrimUnique(" alice", " ", "alice", "");
    assert Text.Lower("alice") == "alice";
  }

  /** A concrete case: " alice", with a leading space, signs up on an empty
      table, logs out, and is refused when logging in again as " alice". */
  lemma SpacedAliceCannotLogIn(h: Hasher, password: string)
    requires VerifiesOwnHash(h, password)
    ensures var st0 := State(UserTable([], 1), None);
      var st1 := LogOut(SignUp(st0, h, true, " alice", password).next).next;
      && st1.table.rows == [User(1, "alice", h.hash(password))]
      && LogIn(st1, h, " alice", password) == Step(Err(InvalidLogin), st1)
  {
    var st0 := State(UserTable([], 1), None);
    NormalizeSpacedAlice();
    SignUpThenLogInSameSpellingRejected(st0, h, " alice", password);
    SignUpAddsOneRowAndLogsIn(st0, h, " alice", password);
  }

  /** A concrete case: "Alice" signs up on an empty table, logs out, and is
      refused when logging in again as "Alice". */
  lemma AliceCannotLogIn(h: Hasher, password: string)
    requires VerifiesOwnHash(h, password)
    ensures var st0 := State(UserTable([], 1), None);
      var st1 := LogOut(SignUp(st0, h, true, "Alice", password).next).next;
      && st1.table.rows == [User(1, "alice", h.hash(password))]
      && LogIn(st1, h, "Alice", password) == Step(Err(InvalidLogin), st1)
  {
    var st0 := State(UserTable([], 1), None);
    NormalizeAlice();
    SignUpThenLogInSameSpellingRejected(st0, h, "Alice", password);
    SignUpAddsOneRowAndLogsIn(st0, h, "Alice", password);
  }
}
