/**
 * Registration in the authentication service: Auth in the 0x03 project's
 * auth.py, which owns a DB and registers users in it. bcrypt is not part of
 * this model: hashpw is a parameter, and the salt gensalt draws at random is
 * an argument of the calls that hash.
 */
module AuthService {
  import opened Wrappers
  import Utf8
  import opened Db

  /** bcrypt.hashpw: bytes of the password and a salt to the hash, left uninterpreted. */
  type HashFn = (seq<Utf8.Byte>, seq<Utf8.Byte>) -> seq<Utf8.Byte>

  /** _hash_password(password) with the salt gensalt returned: hashpw of the UTF-8 bytes and that salt. */
  function HashPassword(hashpw: HashFn, salt: seq<Utf8.Byte>, password: string): (h: Value)
    ensures h.Blob? && h.b == hashpw(Utf8.EncodeUtf8(password), salt)
  {
    Blob(hashpw(Utf8.EncodeUtf8(password), salt))
  }

  /** The number of stored records with that email. */
  function EmailCount(rows: seq<UserRow>, email: string): nat
    decreases |rows|
  {
    if rows == [] then 0
    else EmailCount(rows[..|rows| - 1], email) + (if rows[|rows| - 1].email == Text(email) then 1 else 0)
  }

  /** EmailCount is zero exactly when no record has the email. */
  lemma {:induction false} EmailCountSpec(rows: seq<UserRow>, email: string)
    ensures EmailCount(rows, email) == 0 <==> forall i :: 0 <= i < |rows| ==> rows[i].email != Text(email)
    decreases |rows|
  {
    if rows != [] {
      var n := |rows| - 1;
      EmailCountSpec(rows[..n], email);
      assert forall i :: 0 <= i < n ==> rows[..n][i] == rows[i];
    }
  }

  /** A record appended adds one to the count of its own email only. */
  lemma EmailCountAppend(rows: seq<UserRow>, row: UserRow, email: string)
    ensures EmailCount(rows + [row], email) == EmailCount(rows, email) + (if row.email == Text(email) then 1 else 0)
  {
    assert (rows + [row])[..|rows|] == rows;
  }

  /** No two records share an email. */
  predicate UniqueEmails(rows: seq<UserRow>)
  {
    forall i, j :: 0 <= i < j < |rows| && rows[i].email.Text? ==> rows[i].email != rows[j].email
  }

  /** The lookup register_user makes: find_user_by(email=email). */
  function EmailQuery(email: string): Kwargs
  {
    [("email", Text(email))]
  }

  /** filter_by(email=e) finds a record exactly when exactly one record has that email. */
  lemma EmailLookup(rows: seq<UserRow>, email: string)
    ensures KnownKeys(EmailQuery(email))
    ensures forall i :: 0 <= i < |rows| ==> (RowMatches(rows[i], EmailQuery(email)) <==> rows[i].email == Text(email))
  {
    assert "email" != "id";
    assert ColumnNamed("email") == Some(Email);
    assert EmailQuery(email)[0].0 == "email";
  }

  class Auth {
    const db: DB

    /** Auth(): a fresh, empty store. */
    constructor()
      ensures fresh(db) && db.rows == []
    {
      db := new DB();
    }

    /**
     * register_user as written: the lookup's outcome is ignored, since the
     * bare except also catches the ValueError raised for an existing user,
     * so a record is always added.
     */
    method RegisterUser(hashpw: HashFn, salt: seq<Utf8.Byte>, email: string, password: string) returns (user: UserRow)
      modifies db
      ensures user == NewRow(old(db.rows), email, HashPassword(hashpw, salt, password))
      ensures db.rows == old(db.rows) + [user]
      ensures db.rows == RegisteredAsWritten(old(db.rows), email, HashPassword(hashpw, salt, password))
    {
      var existing := db.FindUserBy(EmailQuery(email));
      var hashed := HashPassword(hashpw, salt, password);
      user := db.AddUser(email, hashed);
    }

    /**
     * register_user as its comment intends: only NoResultFound means the
     * email is free; an existing user is reported as a ValueError and any
     * other lookup error is passed on, with the store unchanged.
     */
    method RegisterUserRejectingDuplicates(hashpw: HashFn, salt: seq<Utf8.Byte>, email: string, password: string)
      returns (r: Result<UserRow, DbError>)
      modifies db
      ensures FindIndex(old(db.rows), EmailQuery(email)) == Failure(NO_USER_FOUND) ==>
        r == Success(NewRow(old(db.rows), email, HashPassword(hashpw, salt, password)))
        && db.rows == old(db.rows) + [r.value]
      ensures FindIndex(old(db.rows), EmailQuery(email)) != Failure(NO_USER_FOUND) ==>
        db.rows == old(db.rows) && r.Failure?
      ensures FindIndex(old(db.rows), EmailQuery(email)).Success? ==>
        r == Failure(ValueError("User " + email + " already exists"))
      ensures db.rows == RegisteredRejecting(old(db.rows), email, HashPassword(hashpw, salt, password))
    {
      var existing := db.FindUserBy(EmailQuery(email));
      match existing
      case Success(_) =>
        return Failure(ValueError("User " + email + " already exists"));
      case Failure(e) =>
        if !e.NoResultFound? {
          return Failure(e);
        }
        var hashed := HashPassword(hashpw, salt, password);
        var user := db.AddUser(email, hashed);
        return Success(user);
    }
  }

  /** The store register_user leaves behind, as written: always one more record. */
  function RegisteredAsWritten(rows: seq<UserRow>, email: string, hashed: Value): seq<UserRow>
  {
    rows + [NewRow(rows, email, hashed)]
  }

  /** As written, registering an email that is already stored adds a second record with it. */
  lemma DuplicateEmailAccepted(rows: seq<UserRow>, email: string, hashed: Value)
    requires exists i :: 0 <= i < |rows| && rows[i].email == Text(email)
    ensures EmailCount(RegisteredAsWritten(rows, email, hashed), email) == EmailCount(rows, email) + 1 >= 2
    ensures !UniqueEmails(RegisteredAsWritten(rows, email, hashed))
  {
    EmailCountSpec(rows, email);
    EmailCountAppend(rows, NewRow(rows, email, hashed), email);
    var i :| 0 <= i < |rows| && rows[i].email == Text(email);
    assert RegisteredAsWritten(rows, email, hashed)[i] == rows[i];
    assert RegisteredAsWritten(rows, email, hashed)[|rows|] == NewRow(rows, email, hashed);
  }

  /** The store the corrected register_user leaves behind. */
  function RegisteredRejecting(rows: seq<UserRow>, email: string, hashed: Value): seq<UserRow>
  {
    if FindIndex(rows, EmailQuery(email)) == Failure(NO_USER_FOUND) then rows + [NewRow(rows, email, hashed)]
    else rows
  }

  /** The corrected register_user keeps emails unique and adds a record only for a new email. */
  lemma RejectingKeepsEmailsUnique(rows: seq<UserRow>, email: string, hashed: Value)
    requires UniqueEmails(rows)
    ensures UniqueEmails(RegisteredRejecting(rows, email, hashed))
    ensures |RegisteredRejecting(rows, email, hashed)| == |rows| + (if EmailCount(rows, email) == 0 then 1 else 0)
  {
    EmailLookup(rows, email);
    FindIndexNone(rows, EmailQuery(email));
    EmailCountSpec(rows, email);
    if FindIndex(rows, EmailQuery(email)) == Failure(NO_USER_FOUND) {
      var out := rows + [NewRow(rows, email, hashed)];
      forall i, j | 0 <= i < j < |out| && out[i].email.Text? ensures out[i].email != out[j].email {
        if j == |rows| {
          assert out[i] == rows[i];
        } else {
          assert out[i] == rows[i] && out[j] == rows[j];
        }
      }
    }
  }
}
