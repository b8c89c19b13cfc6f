/** The session store and cookie protocol of auth/session.go. The session
    directory is a map from session id to the content of the file named after
    it; a session file holds the username followed by a newline, and is read
    back line by line the way bufio.ScanLines splits it. The HTTP response is
    the list of cookies set on it. */
module Sessions {
  import opened Errors
  import Hex
  import opened Users

  const IdByteLen := 16
  const SessionStoragePath := "./_temp_sessions"
  const SessionIdCookieName := "session_id"
  const SessionIdCookieMaxAge := 86400
  const SessionIdCookieDelete := "deleted"

  /** The path of the file that stores session `id`. */
  function SessionPath(id: string): string {
    SessionStoragePath + "/" + id
  }

  /** The shape of every id generateRandomId produces: 16 bytes as 32
      lowercase hex digits. */
  predicate IsSessionId(s: string) {
    |s| == 2 * IdByteLen && Hex.IsLowerHex(s)
  }

  /** generateRandomId: fills a 16-byte buffer from the random source and
      hex-encodes it. The random source is the stream `entropy`; a stream
      shorter than the buffer is a failed read. */
  method GenerateRandomId(entropy: seq<Hex.byte>) returns (r: Result<string>)
    ensures |entropy| < IdByteLen ==> r == Err(RandomSourceFailed)
    ensures |entropy| >= IdByteLen ==> r == Ok(Hex.Encode(entropy[..IdByteLen]))
    ensures r.Ok? ==> IsSessionId(r.value) && Hex.Decode(r.value) == Some(entropy[..IdByteLen])
  {
    if |entropy| < IdByteLen {
      return Err(RandomSourceFailed);
    }
    var b := new Hex.byte[IdByteLen];
    var i := 0;
    while i < IdByteLen
      invariant 0 <= i <= IdByteLen
      invariant b[..i] == entropy[..i]
    {
      b[i] := entropy[i];
      i := i + 1;
    }
    assert b[..] == entropy[..IdByteLen];
    Hex.DecodeEncode(b[..]);
    return Ok(Hex.Encode(b[..]));
  }

  // ---------------------------------------------------------------------------
  // Reading a session file back

  /** The position of the first newline of `s`, or |s| when there is none. */
  function NewlineIndex(s: string): (k: nat)
    ensures k <= |s|
    ensures forall j :: 0 <= j < k ==> s[j] != '\n'
    ensures k < |s| ==> s[k] == '\n'
  {
    if s == [] then 0
    else if s[0] == '\n' then 0
    else 1 + NewlineIndex(s[1..])
  }

  /** bufio.ScanLines drops one carriage return at the end of each line. */
  function DropCR(line: string): (r: string)
    ensures |r| <= |line| && r == line[..|r|]
    ensures |r| == |line| <==> |line| == 0 || line[|line| - 1] != '\r'
    ensures |line| - 1 <= |r|
  {
    if |line| > 0 && line[|line| - 1] == '\r' then line[..|line| - 1] else line
  }

  /** `lines[0]` of ScanFileByLines: the text before the first newline, less a
      trailing carriage return. A file with no content has no first line. */
  function FirstLine(content: string): (line: string)
    requires content != ""
    ensures |line| <= |content| && line == content[..|line|]
    ensures forall i :: 0 <= i < |line| ==> line[i] != '\n'
    ensures |line| < |content| ==> content[|line|] == '\n' || content[|line|] == '\r'
    ensures |line| < |content| && content[|line|] == '\r' ==> |line| + 1 == NewlineIndex(content)
    ensures |line| == NewlineIndex(content) ==> |line| == 0 || line[|line| - 1] != '\r'
  {
    DropCR(content[..NewlineIndex(content)])
  }

  /** A name comes back unchanged from a session file exactly when the line
      scanner does not cut it: no newline in it, no carriage return at its end. */
  predicate SurvivesLineScan(name: string) {
    && (forall i :: 0 <= i < |name| ==> name[i] != '\n')
    && (|name| == 0 || name[|name| - 1] != '\r')
  }

  /** The content session.Write puts in the file. */
  function SessionFileContent(username: string): (c: string)
    ensures c != "" && c[|c| - 1] == '\n'
    ensures c[..|c| - 1] == username
  {
    username + "\n"
  }

  /** Writing a name and reading back the first line is the identity exactly
      for the names the line scanner does not cut. */
  lemma FirstLineOfSessionFile(name: string)
    ensures FirstLine(SessionFileContent(name)) == name <==> SurvivesLineScan(name)
  {
    var c := SessionFileContent(name);
    var k := NewlineIndex(c);
    if SurvivesLineScan(name) {
      assert c[|name|] == '\n';
      assert k == |name|;
      assert c[..k] == name;
    } else if exists i :: 0 <= i < |name| && name[i] == '\n' {
      var i :| 0 <= i < |name| && name[i] == '\n';
      assert c[i] == '\n';
      assert |FirstLine(c)| <= k <= i < |name|;
    } else {
      assert c[|name|] == '\n';
      assert k == |name|;
      assert c[..k] == name;
    }
  }

  /** A username the length policy admits can still hold a newline; its session
      file then reads back as a different, shorter name. */
  lemma NewlineUsernameReadsBackTruncated()
    ensures ValidUsername("victim01\nx")
    ensures FirstLine(SessionFileContent("victim01\nx")) == "victim01"
  {
    var c := SessionFileContent("victim01\nx");
    assert c[8] == '\n';
    assert NewlineIndex(c) == 8;
    assert c[..8] == "victim01";
  }

  /** What sessionFromFile yields for `id`, given the session files and the
      users table: the user's row, or the first error on the way to it. */
  function Resolve(files: map<string, string>, usersPresent: bool, rows: seq<Row>, id: string): (r: Result<Row>)
    requires id in files ==> files[id] != ""
    ensures r.Ok? <==> id in files && usersPresent && Lookup(rows, FirstLine(files[id])).Some?
    ensures r.Ok? ==> r.value in rows && r.value.username == FirstLine(files[id])
    ensures id !in files ==> r == Err(FileNotFound(SessionPath(id)))
    ensures id in files && !usersPresent ==> r == Err(FileNotFound(UsersFilePath))
    ensures id in files && usersPresent && Lookup(rows, FirstLine(files[id])).None? ==> r == Err(SessionUserMissing)
  {
    if id !in files then Err(FileNotFound(SessionPath(id)))
    else if !usersPresent then Err(FileNotFound(UsersFilePath))
    else match Lookup(rows, FirstLine(files[id]))
      case None => Err(SessionUserMissing)
      case Some(row) => Ok(row)
  }

  /** A session written for a user the table holds resolves to that user's
      row, provided the name survives the line scanner. */
  lemma ResolveAfterWrite(files: map<string, string>, rows: seq<Row>, id: string, name: string)
    requires id !in files
    requires SurvivesLineScan(name)
    requires Lookup(rows, name).Some?
    ensures Resolve(files[id := SessionFileContent(name)], true, rows, id) == Ok(Lookup(rows, name).value)
    ensures Lookup(rows, name).value.username == name
  {
    FirstLineOfSessionFile(name);
    LookupSpec(rows, name);
  }

  /** A session whose user has left the table reports the missing user, not a
      missing session. */
  lemma ResolveOrphan(files: map<string, string>, rows: seq<Row>, id: string, name: string)
    requires id !in files
    requires SurvivesLineScan(name)
    requires forall i :: 0 <= i < |rows| ==> rows[i].username != name
    ensures Resolve(files[id := SessionFileContent(name)], true, rows, id) == Err(SessionUserMissing)
  {
    FirstLineOfSessionFile(name);
    LookupSpec(rows, name);
  }

  /** absent -> active -> absent: writing a fresh id and deleting it again
      gives back the directory it started from, and the id no longer
      resolves. */
  lemma WriteThenDelete(files: map<string, string>, id: string, content: string, usersPresent: bool, rows: seq<Row>)
    requires id !in files
    ensures (files[id := content]) - {id} == files
    ensures Resolve(files[id := content] - {id}, usersPresent, rows, id) == Err(FileNotFound(SessionPath(id)))
  {
    assert (files[id := content] - {id}).Keys == files.Keys;
  }

  // ---------------------------------------------------------------------------
  // Cookies

  /** The fields of net/http's Cookie that the session cookies set. */
  datatype Cookie = Cookie(
    name: string,
    value: string,
    maxAge: int,
    secure: bool,
    httpOnly: bool,
    raw: string,
    unparsed: seq<string>)

  /** Both session cookies: the well-known name, Secure and HttpOnly set, and
      the raw text "session_id=<value>". */
  predicate IsSessionCookie(c: Cookie) {
    && c.name == SessionIdCookieName
    && c.secure && c.httpOnly
    && c.raw == c.name + "=" + c.value
    && c.unparsed == [c.raw]
  }

  /** GetSessionDeleteCookie: the session cookie with the sentinel value and a
      negative max-age, which tells the client to drop it at once. */
  function DeleteCookie(): (c: Cookie)
    ensures IsSessionCookie(c)
    ensures c.value == SessionIdCookieDelete && c.maxAge == -1
  {
    var raw := SessionIdCookieName + "=" + SessionIdCookieDelete;
    Cookie(SessionIdCookieName, SessionIdCookieDelete, -1, true, true, raw, [raw])
  }

  /** The name guard of SessionFromCookie: the session id a cookie carries, or
      an error naming the cookie when it is not the session cookie. */
  function CookieSessionId(c: Cookie): (r: Result<string>)
    ensures r.Ok? <==> c.name == SessionIdCookieName
    ensures r.Ok? ==> r.value == c.value
    ensures r.Err? ==> r.error == InvalidCookieName(c.name)
  {
    if c.name != SessionIdCookieName then Err(InvalidCookieName(c.name)) else Ok(c.value)
  }

  /** The delete cookie passes the name guard, but its value is not shaped
      like any id generateRandomId produces, so it never names a session
      that InitSession issued. */
  lemma DeleteCookieNamesNoSession()
    ensures CookieSessionId(DeleteCookie()) == Ok(SessionIdCookieDelete)
    ensures !IsSessionId(CookieSessionId(DeleteCookie()).value)
  {
  }

  /** The HTTP response, seen as the cookies set on it in order. */
  class ResponseWriter {
    var cookies: seq<Cookie>

    constructor ()
      ensures cookies == []
    {
      cookies := [];
    }

    /** http.SetCookie. */
    method SetCookie(c: Cookie)
      modifies this
      ensures cookies == old(cookies) + [c]
    {
      cookies := cookies + [c];
    }
  }

  // ---------------------------------------------------------------------------
  // The session directory and session records

  /** The session directory: one file per session, named after its id. */
  class SessionDir {
    var files: map<string, string>

    /** Every file was written by session.Write, so it ends with a newline
        and has a first line. */
    ghost predicate Valid()
      reads this
    {
      forall id :: id in files ==> files[id] != "" && files[id][|files[id]| - 1] == '\n'
    }

    /** An empty directory. */
    constructor ()
      ensures Valid() && files == map[]
    {
      files := map[];
    }
  }

  /** A session: its id and the user it authenticates. */
  class Session {
    const id: string
    const user: User

    constructor (id: string, user: User)
      ensures this.id == id && this.user == user
    {
      this.id := id;
      this.user := user;
    }

    /** CreateCookie: the session cookie carrying this session's id, kept for
        one day. */
    function CreateCookie(): (c: Cookie)
      ensures IsSessionCookie(c)
      ensures c.value == id && c.maxAge == SessionIdCookieMaxAge
    {
      var raw := SessionIdCookieName + "=" + id;
      Cookie(SessionIdCookieName, id, SessionIdCookieMaxAge, true, true, raw, [raw])
    }

    /** Creates the file for this session exclusively: fails, changing
        nothing, when a file of that id exists; otherwise adds exactly that
        one file, holding the username and a newline. */
    method Write(dir: SessionDir) returns (err: Outcome)
      requires dir.Valid()
      modifies dir
      ensures dir.Valid()
      ensures id in old(dir.files) ==> err == Failure(FileExists(SessionPath(id))) && dir.files == old(dir.files)
      ensures id !in old(dir.files) ==>
        err == Success && dir.files == old(dir.files)[id := SessionFileContent(user.username)]
    {
      if id in dir.files {
        return Failure(FileExists(SessionPath(id)));
      }
      dir.files := dir.files[id := SessionFileContent(user.username)];
      return Success;
    }

    /** Removes the file of this session: fails, changing nothing, when there
        is none; otherwise removes that one file only. */
    method Delete(dir: SessionDir) returns (err: Outcome)
      requires dir.Valid()
      modifies dir
      ensures dir.Valid()
      ensures id !in old(dir.files) ==> err == Failure(FileNotFound(SessionPath(id))) && dir.files == old(dir.files)
      ensures id in old(dir.files) ==> err == Success && dir.files == old(dir.files) - {id}
    {
      if id !in dir.files {
        return Failure(FileNotFound(SessionPath(id)));
      }
      dir.files := dir.files - {id};
      return Success;
    }

    /** Terminate: sets the delete cookie first, whatever happens next, and
        then deletes the session file. */
    method Terminate(dir: SessionDir, w: ResponseWriter) returns (err: Outcome)
      requires dir.Valid()
      modifies dir, w
      ensures dir.Valid()
      ensures w.cookies == old(w.cookies) + [DeleteCookie()]
      ensures id !in old(dir.files) ==> err == Failure(FileNotFound(SessionPath(id))) && dir.files == old(dir.files)
      ensures id in old(dir.files) ==> err == Success && dir.files == old(dir.files) - {id}
    {
      w.SetCookie(DeleteCookie());
      err := Delete(dir);
    }
  }

  /** NewSession: a fresh session for `u` under a newly generated id; nothing
      is stored. */
  method NewSession(u: User, entropy: seq<Hex.byte>) returns (s: Session?, err: Outcome)
    ensures |entropy| < IdByteLen ==> s == null && err == Failure(RandomSourceFailed)
    ensures |entropy| >= IdByteLen ==>
      err == Success && s != null && fresh(s) && s.user == u && s.id == Hex.Encode(entropy[..IdByteLen])
    ensures s != null ==> IsSessionId(s.id)
  {
    var r := GenerateRandomId(entropy);
    if r.Err? {
      return null, Failure(r.error);
    }
    s := new Session(r.value, u);
    return s, Success;
  }

  /** InitSession: stores a new session for `u`, then sets its cookie. When
      the id cannot be generated or its file already exists, it reports the
      error, stores nothing and sets no cookie. */
  method InitSession(u: User, entropy: seq<Hex.byte>, dir: SessionDir, w: ResponseWriter)
    returns (s: Session?, err: Outcome)
    requires dir.Valid()
    modifies dir, w
    ensures dir.Valid()
    ensures |entropy| < IdByteLen ==>
      s == null && err == Failure(RandomSourceFailed) && dir.files == old(dir.files) && w.cookies == old(w.cookies)
    ensures |entropy| >= IdByteLen && Hex.Encode(entropy[..IdByteLen]) in old(dir.files) ==>
      s == null && err == Failure(FileExists(SessionPath(Hex.Encode(entropy[..IdByteLen]))))
      && dir.files == old(dir.files) && w.cookies == old(w.cookies)
    ensures |entropy| >= IdByteLen && Hex.Encode(entropy[..IdByteLen]) !in old(dir.files) ==>
      err == Success && s != null && fresh(s) && s.user == u && s.id == Hex.Encode(entropy[..IdByteLen])
      && dir.files == old(dir.files)[s.id := SessionFileContent(u.username)]
      && w.cookies == old(w.cookies) + [s.CreateCookie()]
    ensures s != null ==> IsSessionId(s.id)
  {
    var session, newErr := NewSession(u, entropy);
    if newErr.Failure? {
      return null, newErr;
    }
    var writeErr := session.Write(dir);
    if writeErr.Failure? {
      return null, writeErr;
    }
    w.SetCookie(session.CreateCookie());
    return session, Success;
  }

  /** sessionFromFile: reads the username from the session file of `id` and
      fetches that user; the session it returns carries `id` and a fresh user
      built from the user's row. */
  method SessionFromFile(id: string, dir: SessionDir, users: UsersFile) returns (s: Session?, err: Outcome)
    requires dir.Valid()
    ensures Resolve(dir.files, users.present, users.rows, id).Err? ==>
      s == null && err == Failure(Resolve(dir.files, users.present, users.rows, id).error)
    ensures Resolve(dir.files, users.present, users.rows, id).Ok? ==>
      err == Success && s != null && fresh(s) && s.id == id
      && s.user.Record() == Resolve(dir.files, users.present, users.rows, id).value
  {
    if id !in dir.files {
      return null, Failure(FileNotFound(SessionPath(id)));
    }
    var username := FirstLine(dir.files[id]);
    var u, fetchErr := users.FetchUser(username);
    if fetchErr.Failure? {
      return null, fetchErr;
    } else if u == null {
      return null, Failure(SessionUserMissing);
    }
    s := new Session(id, u);
    return s, Success;
  }

  /** SessionFromCookie: refuses a cookie of any other name without looking
      at the store, and otherwise resolves the id the cookie carries. */
  method SessionFromCookie(cookie: Cookie, dir: SessionDir, users: UsersFile) returns (s: Session?, err: Outcome)
    requires dir.Valid()
    ensures CookieSessionId(cookie).Err? ==> s == null && err == Failure(InvalidCookieName(cookie.name))
    ensures CookieSessionId(cookie).Ok? && Resolve(dir.files, users.present, users.rows, cookie.value).Err? ==>
      s == null && err == Failure(Resolve(dir.files, users.present, users.rows, cookie.value).error)
    ensures CookieSessionId(cookie).Ok? && Resolve(dir.files, users.present, users.rows, cookie.value).Ok? ==>
      err == Success && s != null && fresh(s) && s.id == cookie.value
      && s.user.Record() == Resolve(dir.files, users.present, users.rows, cookie.value).value
  {
    var idOrErr := CookieSessionId(cookie);
    if idOrErr.Err? {
      return null, Failure(idOrErr.error);
    }
    s, err := SessionFromFile(idOrErr.value, dir, users);
  }

  /** A session's own cookie passes the name guard and hands back exactly the
      session's id. */
  lemma CookieRoundTrip(s: Session)
    ensures CookieSessionId(s.CreateCookie()) == Ok(s.id)
  {
  }
}
