/** The credential store of auth/user.go: the length policy for usernames
    and passwords, the password hash, the user record, and the users table
    (users.csv) as an ordered sequence of four-column rows whose first row is
    a header. */
module Users {
  import opened Errors
  import Hex

  const UsersFilePath := "users.csv"
  const UsernameLenMin := 8
  const UsernameLenMax := 40
  const PasswordLenMin := 8
  const PasswordLenMax := 40

  /** A SHA-256 sum: 32 bytes. */
  type Digest = d: seq<Hex.byte> | |d| == 32 witness seq(32, _ => 0)

  /** SHA-256 of the password's bytes. The hash function itself is not modelled:
      every operation that needs it takes it as a parameter. */
  type Sha256 = string -> Digest

  /** utf8.RuneCountInString. A string of the model is a sequence of code
      points, so the count is its length. */
  function RuneCount(s: string): nat { |s| }

  predicate ValidUsername(s: string) {
    UsernameLenMin <= RuneCount(s) <= UsernameLenMax
  }

  predicate ValidPassword(s: string) {
    PasswordLenMin <= RuneCount(s) <= PasswordLenMax
  }

  /** generatePasswordHash: the hex-encoded SHA-256 sum of the password,
      always 64 lowercase hex digits. */
  function PasswordHash(hash: Sha256, password: string): (h: string)
    ensures |h| == 64 && Hex.IsLowerHex(h)
  {
    Hex.Encode(hash(password))
  }

  /** Two passwords have the same stored hash exactly when their SHA-256 sums
      agree: the hex step adds no collisions of its own. */
  lemma PasswordHashMatchesDigest(hash: Sha256, p: string, q: string)
    ensures PasswordHash(hash, p) == PasswordHash(hash, q) <==> hash(p) == hash(q)
  {
    Hex.EncodeInjective(hash(p), hash(q));
  }

  /** The stored hash of a password the policy admits is never the password
      itself: it is 64 characters long, the password at most 40. */
  lemma HashIsNotPlaintext(hash: Sha256, password: string)
    requires ValidPassword(password)
    ensures PasswordHash(hash, password) != password
  {
  }

  /** One record of users.csv: username, passwordHash, FirstName, LastName. */
  datatype Row = Row(username: string, passwordHash: string, firstName: string, lastName: string)

  /** The first row InitUsers writes: the column names. */
  const Header := Row("username", "passwordHash", "FirstName", "LastName")

  /** Column 0 holds no value twice. */
  ghost predicate UniqueUsernames(rows: seq<Row>) {
    forall i, j :: 0 <= i < j < |rows| ==> rows[i].username != rows[j].username
  }

  /** The position of the first row whose column 0 is `name`, or |rows| when
      there is none. */
  function FirstMatch(rows: seq<Row>, name: string): (k: nat)
    ensures k <= |rows|
    ensures forall j :: 0 <= j < k ==> rows[j].username != name
    ensures k < |rows| ==> rows[k].username == name
  {
    if rows == [] then 0
    else if rows[0].username == name then 0
    else 1 + FirstMatch(rows[1..], name)
  }

  /** The row FetchUser finds for `name`: the first whose column 0 equals it,
      compared exactly. */
  function Lookup(rows: seq<Row>, name: string): (r: Option<Row>)
    ensures r.None? <==> forall i :: 0 <= i < |rows| ==> rows[i].username != name
    ensures r.Some? ==> r.value.username == name && r.value in rows
  {
    var k := FirstMatch(rows, name);
    if k < |rows| then Some(rows[k]) else None
  }

  /** Lookup finds nothing exactly when no row carries the name, and what it
      finds carries the name and is preceded by no row that does. */
  lemma LookupSpec(rows: seq<Row>, name: string)
    ensures Lookup(rows, name).None? <==> forall i :: 0 <= i < |rows| ==> rows[i].username != name
    ensures Lookup(rows, name).Some? ==>
      exists i :: 0 <= i < |rows| && rows[i] == Lookup(rows, name).value && rows[i].username == name &&
        forall j :: 0 <= j < i ==> rows[j].username != name
  {
    var k := FirstMatch(rows, name);
    if k < |rows| {
      assert rows[k] == Lookup(rows, name).value;
    }
  }

  /** With unique usernames, looking up a row's name gives that row back. */
  lemma LookupUnique(rows: seq<Row>, i: nat)
    requires UniqueUsernames(rows) && i < |rows|
    ensures Lookup(rows, rows[i].username) == Some(rows[i])
  {
    var k := FirstMatch(rows, rows[i].username);
    assert k == i;
  }

  /** Appending a row changes the lookup of no name found before, and makes
      the new row's name find the new row when it was absent. */
  lemma {:induction false} LookupAppend(rows: seq<Row>, row: Row, name: string)
    ensures Lookup(rows + [row], name) ==
      if Lookup(rows, name).Some? then Lookup(rows, name)
      else if row.username == name then Some(row)
      else None
  {
    var k := FirstMatch(rows, name);
    var k' := FirstMatch(rows + [row], name);
    var all := rows + [row];
    if k < |rows| {
      assert all[k] == rows[k];
      assert k' == k;
    } else {
      forall j | 0 <= j < |rows| ensures all[j].username != name {
        assert all[j] == rows[j];
      }
      assert all[|rows|] == row;
    }
  }

  /** Appending a row whose name is absent keeps column 0 unique. */
  lemma AppendKeepsUnique(rows: seq<Row>, row: Row)
    requires UniqueUsernames(rows)
    requires Lookup(rows, row.username).None?
    ensures UniqueUsernames(rows + [row])
  {
    LookupSpec(rows, row.username);
    var all := rows + [row];
    forall i, j | 0 <= i < j < |all| ensures all[i].username != all[j].username {
      if j == |rows| {
        assert all[i] == rows[i];
      } else {
        assert all[i] == rows[i] && all[j] == rows[j];
      }
    }
  }

  /** The header row that InitUsers writes is scanned like any other row, so
      in every table that starts with it the name "username" (one the policy
      admits) is taken, and User.Write of that name fails; and its hash column
      can never match a password: no password logs in as the header. */
  lemma HeaderNeverAuthenticates(rows: seq<Row>, hash: Sha256, password: string)
    requires |rows| > 0 && rows[0] == Header
    ensures Lookup(rows, "username") == Some(Header)
    ensures ValidUsername(Header.username)
    ensures Header.passwordHash != PasswordHash(hash, password)
  {
  }

  /** A user record. Only SetUsername and SetPassword put values in the
      username and passwordHash fields; the name fields are set by callers. */
  class User {
    var username: string
    var passwordHash: string
    var firstName: string
    var lastName: string

    /** `&user{}`: all four fields empty. */
    constructor ()
      ensures username == "" && passwordHash == "" && firstName == "" && lastName == ""
    {
      username, passwordHash, firstName, lastName := "", "", "", "";
    }

    /** The record built from row `r`, as FetchUser builds it. */
    constructor FromRow(r: Row)
      ensures Record() == r
    {
      username, passwordHash, firstName, lastName := r.username, r.passwordHash, r.firstName, r.lastName;
    }

    /** The row user.Write appends for this user. */
    function Record(): Row
      reads this
    {
      Row(username, passwordHash, firstName, lastName)
    }

    /** Whether `password` hashes to the stored hash. Only a user whose
        stored hash is 64 lowercase hex digits can pass. */
    predicate CheckPassword(hash: Sha256, password: string): (ok: bool)
      reads this
      ensures ok ==> |passwordHash| == 64 && Hex.IsLowerHex(passwordHash)
    {
      passwordHash == PasswordHash(hash, password)
    }

    /** Accepts `name` exactly when its code-point count is within [8, 40];
        there is no character-set check. On refusal nothing changes. */
    method SetUsername(name: string) returns (err: Outcome)
      modifies this`username
      ensures err == (if ValidUsername(name) then Success else Failure(UsernameLength))
      ensures username == if ValidUsername(name) then name else old(username)
    {
      var length := RuneCount(name);
      if length < UsernameLenMin || length > UsernameLenMax {
        return Failure(UsernameLength);
      }
      username := name;
      return Success;
    }

    /** Accepts `password` exactly when its code-point count is within [8, 40],
        and then stores its hash, never the password; afterwards the password
        checks. On refusal nothing changes. */
    method SetPassword(hash: Sha256, password: string) returns (err: Outcome)
      modifies this`passwordHash
      ensures err == (if ValidPassword(password) then Success else Failure(PasswordLength))
      ensures passwordHash == if ValidPassword(password) then PasswordHash(hash, password) else old(passwordHash)
      ensures err.Success? ==> CheckPassword(hash, password) && passwordHash != password
    {
      var length := RuneCount(password);
      if length < PasswordLenMin || length > PasswordLenMax {
        return Failure(PasswordLength);
      }
      passwordHash := PasswordHash(hash, password);
      HashIsNotPlaintext(hash, password);
      return Success;
    }

    /** Appends this user's row to the table unless the username is already
        there (the header's "username" included) or the table is missing. */
    method Write(file: UsersFile) returns (err: Outcome)
      requires file.Valid()
      modifies file
      ensures file.Valid() && file.present == old(file.present)
      ensures !old(file.present) ==> err == Failure(FileNotFound(UsersFilePath)) && file.rows == old(file.rows)
      ensures old(file.present) && Lookup(old(file.rows), username).Some? ==>
        err == Failure(UserExists(username)) && file.rows == old(file.rows)
      ensures old(file.present) && Lookup(old(file.rows), username).None? ==>
        err == Success && file.rows == old(file.rows) + [Record()]
      ensures err.Success? ==> Lookup(file.rows, username) == Some(Record())
    {
      var existing, fetchErr := file.FetchUser(username);
      if existing != null {
        return Failure(UserExists(username));
      } else if fetchErr.Failure? {
        return fetchErr;
      }
      AppendKeepsUnique(file.rows, Record());
      LookupAppend(file.rows, Record(), username);
      file.rows := file.rows + [Record()];
      return Success;
    }
  }

  /** NewUser: a fresh user with the given username and the hash of the given
      password, both name fields empty. The username is checked first. */
  method NewUser(hash: Sha256, username: string, password: string) returns (u: User?, err: Outcome)
    ensures !ValidUsername(username) ==> err == Failure(UsernameLength)
    ensures ValidUsername(username) && !ValidPassword(password) ==> err == Failure(PasswordLength)
    ensures err.Success? <==> ValidUsername(username) && ValidPassword(password)
    ensures err.Failure? <==> u == null
    ensures u != null ==> fresh(u) && u.Record() == Row(username, PasswordHash(hash, password), "", "")
  {
    var v := new User();
    err := v.SetUsername(username);
    if err.Failure? {
      return null, err;
    }
    err := v.SetPassword(hash, password);
    if err.Failure? {
      return null, err;
    }
    return v, Success;
  }

  /** users.csv: whether the file exists and the rows it holds. */
  class UsersFile {
    var present: bool
    var rows: seq<Row>

    /** A missing file holds nothing; an existing one starts with the header
        and holds each username at most once. */
    ghost predicate Valid()
      reads this
    {
      && (!present ==> rows == [])
      && (present ==> |rows| >= 1 && rows[0] == Header && UniqueUsernames(rows))
    }

    /** The state before InitUsers has run: no file. */
    constructor ()
      ensures Valid() && !present && rows == []
    {
      present, rows := false, [];
    }

    /** InitUsers: creates the file with only the header row, or fails,
        changing nothing, when it already exists. */
    method InitUsers() returns (err: Outcome)
      requires Valid()
      modifies this
      ensures Valid() && present
      ensures old(present) ==> err == Failure(FileExists(UsersFilePath)) && rows == old(rows)
      ensures !old(present) ==> err == Success && rows == [Header]
    {
      if present {
        return Failure(FileExists(UsersFilePath));
      }
      present, rows := true, [Header];
      return Success;
    }

    /** FetchUser: a fresh user built from the first row whose column 0 is
        `name`, null with no error when no row matches, an error when the file
        is missing. */
    method FetchUser(name: string) returns (u: User?, err: Outcome)
      ensures !present ==> u == null && err == Failure(FileNotFound(UsersFilePath))
      ensures present ==> err == Success
      ensures present ==> (u == null <==> Lookup(rows, name).None?)
      ensures u != null ==> fresh(u) && Lookup(rows, name) == Some(u.Record())
    {
      if !present {
        return null, Failure(FileNotFound(UsersFilePath));
      }
      var i := 0;
      while i < |rows|
        invariant 0 <= i <= |rows|
        invariant forall j :: 0 <= j < i ==> rows[j].username != name
      {
        if rows[i].username == name {
          u := new User.FromRow(rows[i]);
          return u, Success;
        }
        i := i + 1;
      }
      return null, Success;
    }
  }
}
