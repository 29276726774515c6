/**
 * The user store of the authentication service: db.py's DB over the users
 * table. The table is held in memory as a sequence of records in insertion
 * order; SQLAlchemy's engine, session and commit are not modelled, only what
 * add_user, find_user_by and update_user do to the table and what they
 * return or raise. The User class (user.py) is not part of this model: its
 * columns are taken to be id, email, hashed_password and session_id.
 */
module Db {
  import opened Wrappers
  import Utf8

  /** A column value: an SQL integer, text, a byte string (bcrypt's hash) or NULL. */
  datatype Value = Int(n: int) | Text(s: string) | Blob(b: seq<Utf8.Byte>) | Null

  /** The attributes of a stored user. */
  datatype Column = Id | Email | HashedPassword | SessionId

  /** The attribute name Python code uses for a column. */
  function ColumnName(c: Column): string
  {
    match c
    case Id => "id"
    case Email => "email"
    case HashedPassword => "hashed_password"
    case SessionId => "session_id"
  }

  /** The column a keyword names (hasattr, filter_by); None for any other name. */
  function ColumnNamed(key: string): (c: Option<Column>)
    ensures c.Some? ==> ColumnName(c.value) == key
  {
    if key == "id" then Some(Id)
    else if key == "email" then Some(Email)
    else if key == "hashed_password" then Some(HashedPassword)
    else if key == "session_id" then Some(SessionId)
    else None
  }

  /** Every column is found again under its name, and only the four names are columns. */
  lemma ColumnNamedSpec(c: Column, key: string)
    ensures ColumnNamed(ColumnName(c)) == Some(c)
    ensures ColumnNamed(key).None? <==> key != "id" && key != "email" && key != "hashed_password" && key != "session_id"
  {
  }

  /** One stored user. */
  datatype UserRow = UserRow(id: Value, email: Value, hashedPassword: Value, sessionId: Value)

  function Get(row: UserRow, c: Column): Value
  {
    match c
    case Id => row.id
    case Email => row.email
    case HashedPassword => row.hashedPassword
    case SessionId => row.sessionId
  }

  /** setattr(row, name, v) for a column: that attribute changes, no other does. */
  function Set(row: UserRow, c: Column, v: Value): (r: UserRow)
    ensures Get(r, c) == v
    ensures forall d :: d != c ==> Get(r, d) == Get(row, d)
  {
    match c
    case Id => row.(id := v)
    case Email => row.(email := v)
    case HashedPassword => row.(hashedPassword := v)
    case SessionId => row.(sessionId := v)
  }

  /** Keyword arguments, in argument order. */
  type Kwargs = seq<(string, Value)>

  /** What the store raises: SQLAlchemy's NoResultFound and InvalidRequestError, and ValueError, each with its message. */
  datatype DbError = NoResultFound(message: string) | InvalidRequestError(message: string) | ValueError(message: string)

  /** The two lookup errors as find_user_by re-raises them, with its own texts. */
  const NO_USER_FOUND: DbError := NoResultFound("No user found")
  const INVALID_QUERY: DbError := InvalidRequestError("Invalid query arguments")

  /** Every keyword names a column. */
  predicate KnownKeys(query: Kwargs)
  {
    forall i :: 0 <= i < |query| ==> ColumnNamed(query[i].0).Some?
  }

  /** filter_by's test of one record: every named column holds the given value. */
  predicate RowMatches(row: UserRow, query: Kwargs)
    requires KnownKeys(query)
  {
    forall i :: 0 <= i < |query| ==> Get(row, ColumnNamed(query[i].0).value) == query[i].1
  }

  /** The positions of the matching records, in table order. */
  function Matching(rows: seq<UserRow>, query: Kwargs): (ix: seq<nat>)
    requires KnownKeys(query)
    ensures forall k :: 0 <= k < |ix| ==> ix[k] < |rows| && RowMatches(rows[ix[k]], query)
    ensures forall i :: 0 <= i < |rows| && RowMatches(rows[i], query) ==> i in ix
    ensures forall k, l :: 0 <= k < l < |ix| ==> ix[k] < ix[l]
    decreases |rows|
  {
    if rows == [] then []
    else
      var n := |rows| - 1;
      Matching(rows[..n], query) + (if RowMatches(rows[n], query) then [n] else [])
  }

  /**
   * filter_by(**query).one() inside find_user_by: the position of the only
   * matching record; InvalidRequestError for an unknown keyword or for
   * several matches (MultipleResultsFound is one), NoResultFound for none,
   * each as find_user_by re-raises it.
   */
  function FindIndex(rows: seq<UserRow>, query: Kwargs): (r: Result<nat, DbError>)
    ensures r.Success? ==> r.value < |rows|
    ensures r.Failure? ==> r.error == NO_USER_FOUND || r.error == INVALID_QUERY
  {
    if !KnownKeys(query) then Failure(INVALID_QUERY)
    else
      var ix := Matching(rows, query);
      if |ix| == 0 then Failure(NO_USER_FOUND)
      else if |ix| > 1 then Failure(INVALID_QUERY)
      else Success(ix[0])
  }

  /** A found record matches the query and is the only one that does. */
  lemma FindIndexFound(rows: seq<UserRow>, query: Kwargs)
    requires FindIndex(rows, query).Success?
    ensures KnownKeys(query)
    ensures RowMatches(rows[FindIndex(rows, query).value], query)
    ensures forall j :: 0 <= j < |rows| && j != FindIndex(rows, query).value ==> !RowMatches(rows[j], query)
  {
    var ix := Matching(rows, query);
    forall j | 0 <= j < |rows| && RowMatches(rows[j], query) ensures j == ix[0] {
      assert j in ix;
    }
  }

  /** With known keywords, a record that matches alone is found. */
  lemma FindIndexUnique(rows: seq<UserRow>, query: Kwargs, i: nat)
    requires KnownKeys(query) && i < |rows| && RowMatches(rows[i], query)
    requires forall j :: 0 <= j < |rows| && j != i ==> !RowMatches(rows[j], query)
    ensures FindIndex(rows, query) == Success(i)
  {
    var ix := Matching(rows, query);
    assert i in ix;
    forall k | 0 <= k < |ix| ensures ix[k] == i { }
    if |ix| > 1 {
      assert ix[0] == i == ix[1];
    }
  }

  /** NoResultFound exactly when the keywords are known and no record matches. */
  lemma FindIndexNone(rows: seq<UserRow>, query: Kwargs)
    ensures FindIndex(rows, query) == Failure(NO_USER_FOUND)
        <==> KnownKeys(query) && forall i :: 0 <= i < |rows| ==> !RowMatches(rows[i], query)
  {
    if KnownKeys(query) {
      var ix := Matching(rows, query);
      if |ix| > 0 {
        assert RowMatches(rows[ix[0]], query);
      }
    }
  }

  /** InvalidRequestError exactly for an unknown keyword or two matching records. */
  lemma FindIndexInvalid(rows: seq<UserRow>, query: Kwargs)
    ensures FindIndex(rows, query) == Failure(INVALID_QUERY)
        <==> !KnownKeys(query)
             || exists i, j :: 0 <= i < j < |rows| && RowMatches(rows[i], query) && RowMatches(rows[j], query)
  {
    if KnownKeys(query) {
      MatchingMany(rows, query, Matching(rows, query));
    }
  }

  /** More than one position matches exactly when two records match. */
  lemma MatchingMany(rows: seq<UserRow>, query: Kwargs, ix: seq<nat>)
    requires KnownKeys(query) && ix == Matching(rows, query)
    ensures |ix| > 1 <==> exists i, j :: 0 <= i < j < |rows| && RowMatches(rows[i], query) && RowMatches(rows[j], query)
  {
    if |ix| > 1 {
      assert RowMatches(rows[ix[0]], query) && RowMatches(rows[ix[1]], query) && ix[0] < ix[1];
    }
    if exists i, j :: 0 <= i < j < |rows| && RowMatches(rows[i], query) && RowMatches(rows[j], query) {
      var i, j :| 0 <= i < j < |rows| && RowMatches(rows[i], query) && RowMatches(rows[j], query);
      DistinctMembers(ix, i, j);
    }
  }

  /** Two different members make a sequence longer than one. */
  lemma DistinctMembers(ix: seq<nat>, i: nat, j: nat)
    requires i in ix && j in ix && i != j
    ensures |ix| > 1
  {
  }

  /** The largest integer id in the table, None when no record has one. */
  function MaxId(rows: seq<UserRow>): (m: Option<int>)
    ensures m.Some? ==> exists i :: 0 <= i < |rows| && rows[i].id == Int(m.value)
    ensures m.Some? ==> forall i :: 0 <= i < |rows| && rows[i].id.Int? ==> rows[i].id.n <= m.value
    ensures m.None? <==> forall i :: 0 <= i < |rows| ==> !rows[i].id.Int?
    decreases |rows|
  {
    if rows == [] then None
    else
      var n := |rows| - 1;
      var last := rows[n].id;
      match MaxId(rows[..n])
      case None => if last.Int? then Some(last.n) else None
      case Some(m) => if last.Int? && last.n > m then Some(last.n) else Some(m)
  }

  /** The id the table gives a new record: one more than the largest integer id, 1 in a table without one. */
  function NextId(rows: seq<UserRow>): (id: int)
    ensures forall i :: 0 <= i < |rows| && rows[i].id.Int? ==> rows[i].id.n < id
  {
    match MaxId(rows)
    case None => 1
    case Some(m) => m + 1
  }

  /** User(email=email, hashed_password=hashed_password) once stored. */
  function NewRow(rows: seq<UserRow>, email: string, hashedPassword: Value): UserRow
  {
    UserRow(Int(NextId(rows)), Text(email), hashedPassword, Null)
  }

  /** A new record's id differs from every stored record's id. */
  lemma NewRowFreshId(rows: seq<UserRow>, email: string, hashedPassword: Value)
    ensures forall i :: 0 <= i < |rows| ==> rows[i].id != NewRow(rows, email, hashedPassword).id
  {
  }

  /**
   * update_user's loop on the found record: the changes applied in order,
   * stopping at the first key that is not a column, which is returned.
   */
  function ApplyChanges(row: UserRow, changes: Kwargs): (UserRow, Option<string>)
    decreases |changes|
  {
    if changes == [] then (row, None)
    else match ColumnNamed(changes[0].0)
      case None => (row, Some(changes[0].0))
      case Some(c) => ApplyChanges(Set(row, c, changes[0].1), changes[1..])
  }

  /** The value the last change to column c sets, or d when no change names c. */
  function LastSet(changes: Kwargs, c: Column, d: Value): Value
    decreases |changes|
  {
    if changes == [] then d
    else LastSet(changes[1..], c, if ColumnNamed(changes[0].0) == Some(c) then changes[0].1 else d)
  }

  /** LastSet is the value of the last change naming c. */
  lemma LastSetSpec(changes: Kwargs, c: Column, d: Value)
    ensures (forall k :: 0 <= k < |changes| ==> ColumnNamed(changes[k].0) != Some(c)) ==> LastSet(changes, c, d) == d
    ensures forall k :: 0 <= k < |changes| && ColumnNamed(changes[k].0) == Some(c)
                        && (forall l :: k < l < |changes| ==> ColumnNamed(changes[l].0) != Some(c))
                        ==> LastSet(changes, c, d) == changes[k].1
  {
    if forall k :: 0 <= k < |changes| ==> ColumnNamed(changes[k].0) != Some(c) {
      LastSetUntouched(changes, c, d);
    }
    forall k | 0 <= k < |changes| && ColumnNamed(changes[k].0) == Some(c)
               && (forall l :: k < l < |changes| ==> ColumnNamed(changes[l].0) != Some(c))
      ensures LastSet(changes, c, d) == changes[k].1
    {
      LastSetLast(changes, c, d, k);
    }
  }

  /** No change names c: LastSet keeps d. */
  lemma {:induction false} LastSetUntouched(changes: Kwargs, c: Column, d: Value)
    requires forall k :: 0 <= k < |changes| ==> ColumnNamed(changes[k].0) != Some(c)
    ensures LastSet(changes, c, d) == d
    decreases |changes|
  {
    if changes != [] {
      assert forall k :: 0 <= k < |changes[1..]| ==> changes[1..][k] == changes[k + 1];
      LastSetUntouched(changes[1..], c, d);
    }
  }

  /** The change at k names c and no later one does: LastSet is its value. */
  lemma {:induction false} LastSetLast(changes: Kwargs, c: Column, d: Value, k: nat)
    requires k < |changes| && ColumnNamed(changes[k].0) == Some(c)
    requires forall l :: k < l < |changes| ==> ColumnNamed(changes[l].0) != Some(c)
    ensures LastSet(changes, c, d) == changes[k].1
    decreases k
  {
    assert forall j :: 0 <= j < |changes[1..]| ==> changes[1..][j] == changes[j + 1];
    var d' := if ColumnNamed(changes[0].0) == Some(c) then changes[0].1 else d;
    if k == 0 {
      LastSetUntouched(changes[1..], c, d');
    } else {
      LastSetLast(changes[1..], c, d', k - 1);
    }
  }

  /** With known keys every change is applied: each column ends up with its last assigned value. */
  lemma {:induction false} ApplyKnown(row: UserRow, changes: Kwargs)
    ensures ApplyChanges(row, changes).1.None? <==> KnownKeys(changes)
    ensures KnownKeys(changes) ==>
      forall c :: Get(ApplyChanges(row, changes).0, c) == LastSet(changes, c, Get(row, c))
    decreases |changes|
  {
    if changes != [] {
      assert forall k :: 0 < k < |changes| ==> changes[1..][k - 1] == changes[k];
      match ColumnNamed(changes[0].0)
      case None =>
      case Some(c0) =>
        ApplyKnown(Set(row, c0, changes[0].1), changes[1..]);
        assert KnownKeys(changes) <==> KnownKeys(changes[1..]);
    }
  }

  lemma KnownKeysTail(query: Kwargs)
    requires KnownKeys(query) && query != []
    ensures KnownKeys(query[1..])
  {
    assert forall k :: 0 <= k < |query| - 1 ==> query[1..][k] == query[k + 1];
  }

  /**
   * With an unknown key the loop stops there: the record carries exactly the
   * changes before it (no rollback) and the error names that key.
   */
  lemma {:induction false} ApplyStopsAtUnknown(row: UserRow, changes: Kwargs, f: nat)
    requires f < |changes| && ColumnNamed(changes[f].0).None? && KnownKeys(changes[..f])
    ensures ApplyChanges(row, changes) == (ApplyChanges(row, changes[..f]).0, Some(changes[f].0))
    decreases f
  {
    if f > 0 {
      var c0 := ColumnNamed(changes[0].0).value;
      assert changes[..f][0] == changes[0];
      assert changes[1..][..f - 1] == changes[..f][1..];
      assert changes[1..][f - 1] == changes[f];
      KnownKeysTail(changes[..f]);
      ApplyStopsAtUnknown(Set(row, c0, changes[0].1), changes[1..], f - 1);
    }
  }

  /** The users table. */
  class DB {
    var rows: seq<UserRow>

    /** drop_all then create_all: an empty table. */
    constructor()
      ensures rows == []
    {
      rows := [];
    }

    /** add_user: one new record at the end, returned; the stored ones stay as they were. */
    method AddUser(email: string, hashedPassword: Value) returns (user: UserRow)
      modifies this
      ensures user == NewRow(old(rows), email, hashedPassword)
      ensures rows == old(rows) + [user]
    {
      user := NewRow(rows, email, hashedPassword);
      rows := rows + [user];
    }

    /** find_user_by(**query): the only matching record, or the error filter_by/one raises. */
    function FindUserBy(query: Kwargs): (r: Result<UserRow, DbError>)
      reads this
      ensures r.Success? ==> KnownKeys(query) && r.value in rows && RowMatches(r.value, query)
      ensures r.Failure? <==> FindIndex(rows, query).Failure?
      ensures r.Failure? ==> r.error == FindIndex(rows, query).error
    {
      match FindIndex(rows, query)
      case Failure(e) => Failure(e)
      case Success(i) =>
        FindIndexFound(rows, query);
        Success(rows[i])
    }

    /**
     * update_user(user_id, **changes): the record with that id gets the
     * changes in order. A failed lookup changes nothing; an unknown key
     * raises ValueError after the changes before it were made.
     */
    method UpdateUser(userId: Value, changes: Kwargs) returns (r: Result<(), DbError>)
      modifies this
      ensures FindIndex(old(rows), [("id", userId)]).Failure? ==>
        rows == old(rows) && r == Failure(FindIndex(old(rows), [("id", userId)]).error)
      ensures FindIndex(old(rows), [("id", userId)]).Success? ==>
        var i := FindIndex(old(rows), [("id", userId)]).value;
        var applied := ApplyChanges(old(rows)[i], changes);
        && rows == old(rows)[i := applied.0]
        && r == (if applied.1.None? then Success(()) else Failure(ValueError("Invalid attribute: " + applied.1.value)))
    {
      var found := FindIndex(rows, [("id", userId)]);
      if found.Failure? {
        return Failure(found.error);
      }
      var i := found.value;
      var k := 0;
      while k < |changes|
        invariant 0 <= k <= |changes| && |rows| == |old(rows)|
        invariant rows == old(rows)[i := rows[i]]
        invariant ApplyChanges(rows[i], changes[k..]) == ApplyChanges(old(rows)[i], changes)
      {
        assert changes[k..][1..] == changes[k + 1..];
        var key := changes[k].0;
        var col := ColumnNamed(key);
        if col.None? {
          return Failure(ValueError("Invalid attribute: " + key));
        }
        rows := rows[i := Set(rows[i], col.value, changes[k].1)];
        k := k + 1;
      }
      return Success(());
    }
  }
}
