/** The route handlers that only read: the isLoggedIn guard, `/`,
    `/dashboard`, `GET /files` and `GET /files/:id`, and the responses every
    handler can give. A handler receives the tables and the requesting
    client's session slot (`req.session.userId`, absent or a user id). */
module Routes {
  import opened Schema

  /** One row of `GET /files`: id, name, type, OCTET_LENGTH(data) AS size,
      uploaded_at, users.username AS uploaded_by. */
  datatype ListRow = ListRow(id: int, name: string, mediaType: string, size: nat,
                             uploadedAt: Timestamp, uploadedBy: string)

  datatype Response =
    | Redirect(location: string)
    | Text(status: int, body: string)                  // res.send / res.status(..).send of a string
    | Page(file: string)                                // res.sendFile of a page under public/
    | JsonSuccess                                       // res.json({ success: true })
    | JsonError(status: int)                            // res.status(500).json({ error: err.message })
    | FileList(rows: seq<ListRow>)                      // res.json(result.rows)
    | Attachment(contentType: string, disposition: string, bytes: seq<byte>)

  const LoginPath := "/login"
  const DashboardPath := "/dashboard"
  const DashboardPage := "dashboard.html"
  const UsernameTakenText := "Username already taken."
  const InvalidCredentialsText := "Invalid credentials"
  const LoginFailedText := "Login failed."
  const FileNotFoundText := "File not found"
  const DownloadErrorText := "Error downloading file"

  const NotFound := Text(404, FileNotFoundText)
  const DownloadError := Text(500, DownloadErrorText)

  // ---------------------------------------------------------------------------
  // The guard
  // ---------------------------------------------------------------------------

  /** `if (req.session.userId)`: JavaScript truthiness of the stored id, so an
      absent slot and the id 0 both fail. */
  predicate IsLoggedIn(userId: Option<int>): (r: bool)
    ensures userId.None? ==> !r
    ensures userId == Some(0) ==> !r
    ensures userId.Some? && userId.value > 0 ==> r
  {
    userId.Some? && userId.value != 0
  }

  /** Every id a SERIAL column hands out passes the guard. */
  lemma DrawnIdPassesGuard(users: seq<User>, last: int, id: int)
    requires UserIdsDrawn(users, last)
    requires HasUser(users, id)
    ensures IsLoggedIn(Some(id))
  {
    var u :| u in users && u.id == id;
    var i :| 0 <= i < |users| && users[i] == u;
  }

  /** `GET /`: the dashboard for a logged-in client, the login page otherwise. */
  function Home(userId: Option<int>): (r: Response)
    ensures r.Redirect?
    ensures !IsLoggedIn(userId) ==> r == Redirect(LoginPath)
  {
    if IsLoggedIn(userId) then Redirect(DashboardPath) else Redirect(LoginPath)
  }

  /** `GET /dashboard`, behind the guard. */
  function Dashboard(userId: Option<int>): (r: Response)
    ensures !IsLoggedIn(userId) ==> r == Redirect(LoginPath)
    ensures r == Page(DashboardPage) <==> IsLoggedIn(userId)
  {
    if !IsLoggedIn(userId) then Redirect(LoginPath) else Page(DashboardPage)
  }

  // ---------------------------------------------------------------------------
  // GET /files
  // ---------------------------------------------------------------------------

  function RowOf(f: FileRow, uploadedBy: string): ListRow {
    ListRow(f.id, f.name, f.mediaType, |f.data|, f.uploadedAt, uploadedBy)
  }

  /** `FROM files JOIN users ON files.user_id = users.id` for one file row:
      one output row per matching user. */
  function JoinUsers(f: FileRow, users: seq<User>): (r: seq<ListRow>)
    ensures forall row :: row in r ==>
              exists u :: u in users && u.id == f.owner && row == RowOf(f, u.username)
  {
    if |users| == 0 then []
    else
      assert users == [users[0]] + users[1..];
      (if users[0].id == f.owner then [RowOf(f, users[0].username)] else [])
        + JoinUsers(f, users[1..])
  }

  function JoinAll(fs: seq<FileRow>, users: seq<User>): (r: seq<ListRow>)
    ensures forall row :: row in r ==>
              exists f, u :: f in fs && u in users && u.id == f.owner && row == RowOf(f, u.username)
  {
    if |fs| == 0 then []
    else
      assert fs == [fs[0]] + fs[1..];
      JoinUsers(fs[0], users) + JoinAll(fs[1..], users)
  }

  /** The rows of the `/files` query for `owner`, in table order (the query
      has no ORDER BY, so no order is part of the contract). */
  function ListRows(users: seq<User>, files: seq<FileRow>, owner: int): (r: seq<ListRow>)
    ensures forall row :: row in r ==>
              exists f, u :: f in files && f.owner == owner && u in users && u.id == owner
                && row == RowOf(f, u.username)
  {
    JoinAll(OwnedBy(files, owner), users)
  }

  /** `GET /files`, behind the guard. Whatever it lists is a file of the
      session's user, with its byte length and its owner's username. */
  function ListFiles(users: seq<User>, files: seq<FileRow>, userId: Option<int>, dbFault: bool)
    : (r: Response)
    ensures !IsLoggedIn(userId) ==> r == Redirect(LoginPath)
    ensures IsLoggedIn(userId) && dbFault ==> r == JsonError(500)
    ensures r.FileList? <==> IsLoggedIn(userId) && !dbFault
    ensures r.FileList? ==> forall row :: row in r.rows ==>
              exists f, u :: f in files && f.owner == userId.value && u in users && u.id == f.owner
                && row.id == f.id && row.name == f.name && row.mediaType == f.mediaType
                && row.size == |f.data| && row.uploadedAt == f.uploadedAt && row.uploadedBy == u.username
  {
    if !IsLoggedIn(userId) then Redirect(LoginPath)
    else if dbFault then JsonError(500)
    else FileList(ListRows(users, files, userId.value))
  }

  lemma {:induction false} JoinMissingUser(f: FileRow, users: seq<User>)
    requires !HasUser(users, f.owner)
    ensures JoinUsers(f, users) == []
  {
    if |users| != 0 {
      assert users[0] in users;
      assert !HasUser(users[1..], f.owner) by {
        forall u | u in users[1..] ensures u.id != f.owner {
          assert u in users;
        }
      }
      JoinMissingUser(f, users[1..]);
    }
  }

  /** users.id is a key, so the join gives each file exactly one row. */
  lemma {:induction false} JoinOnKey(f: FileRow, users: seq<User>, u: User)
    requires UserIdsAscending(users)
    requires u in users && u.id == f.owner
    ensures JoinUsers(f, users) == [RowOf(f, u.username)]
  {
    assert users == [users[0]] + users[1..];
    assert UserIdsAscending(users[1..]) by {
      forall i, j | 0 <= i < j < |users| - 1 ensures users[1..][i].id < users[1..][j].id {
        assert users[1..][i] == users[i + 1] && users[1..][j] == users[j + 1];
      }
    }
    if users[0] == u {
      assert !HasUser(users[1..], f.owner) by {
        forall v | v in users[1..] ensures v.id != f.owner {
          var j :| 0 <= j < |users[1..]| && users[1..][j] == v;
          assert users[j + 1] == v;
        }
      }
      JoinMissingUser(f, users[1..]);
    } else {
      var k :| 0 <= k < |users| && users[k] == u;
      assert k != 0 && users[0].id < users[k].id;
      assert u in users[1..];
      JoinOnKey(f, users[1..], u);
    }
  }

  /** Joining files of one owner who is a user: row i describes file i. */
  lemma {:induction false} JoinAllOneOwner(fs: seq<FileRow>, users: seq<User>, u: User)
    requires UserIdsAscending(users)
    requires u in users
    requires forall f :: f in fs ==> f.owner == u.id
    ensures |JoinAll(fs, users)| == |fs|
    ensures forall i :: 0 <= i < |fs| ==> JoinAll(fs, users)[i] == RowOf(fs[i], u.username)
  {
    if |fs| != 0 {
      assert fs[0] in fs;
      JoinOnKey(fs[0], users, u);
      assert forall f :: f in fs[1..] ==> f in fs;
      JoinAllOneOwner(fs[1..], users, u);
    }
  }

  /** The `/files` listing of user `u` holds one row per file `u` owns and
      no other row; for each, the byte length and `u`'s username. */
  lemma ListedExactlyOwnFiles(users: seq<User>, files: seq<FileRow>, u: User)
    requires UserIdsAscending(users)
    requires u in users
    ensures forall row :: row in ListRows(users, files, u.id) <==>
              exists f :: f in files && f.owner == u.id && row == RowOf(f, u.username)
  {
    var owned := OwnedBy(files, u.id);
    var rows := ListRows(users, files, u.id);
    JoinAllOneOwner(owned, users, u);
    forall row ensures row in rows <==> exists f :: f in files && f.owner == u.id && row == RowOf(f, u.username) {
      if row in rows {
        var i :| 0 <= i < |rows| && rows[i] == row;
        assert owned[i] in owned;
      }
      if f :| f in files && f.owner == u.id && row == RowOf(f, u.username) {
        assert f in owned;
        var i :| 0 <= i < |owned| && owned[i] == f;
        assert rows[i] == row;
      }
    }
  }

  /** A file of another owner never shows in a user's listing. */
  lemma ListIsolation(users: seq<User>, files: seq<FileRow>, owner: int, g: FileRow)
    requires FileIdsAscending(files)
    requires g in files && g.owner != owner
    ensures forall row :: row in ListRows(users, files, owner) ==> row.id != g.id
  {
    forall row | row in ListRows(users, files, owner) ensures row.id != g.id {
      var f, u :| f in OwnedBy(files, owner) && u in users && u.id == f.owner && row == RowOf(f, u.username);
      if f.id == g.id {
        FileIdsDistinct(files, f, g);
      }
    }
  }

  // ---------------------------------------------------------------------------
  // GET /files/:id
  // ---------------------------------------------------------------------------

  /** The range of PostgreSQL's INTEGER type, the type of `files.id`; a
      `:id` outside it makes the query fail. */
  predicate InIntegerRange(n: int) {
    -0x8000_0000 <= n < 0x8000_0000
  }

  /** What Node's `setHeader` accepts in a header value: tab, 0x20-0x7E and
      0x80-0xFF. Any other character makes it throw. */
  predicate HeaderChar(c: char) {
    c == '\t' || (32 <= c as int <= 126) || (128 <= c as int <= 255)
  }

  predicate HeaderValueOk(s: string) {
    forall i :: 0 <= i < |s| ==> HeaderChar(s[i])
  }

  /** The Content-Disposition value, with the name inserted unescaped. */
  function Disposition(name: string): string {
    "attachment; filename=\"" + name + "\""
  }

  /** The fixed text around the name is accepted, so the header is accepted
      exactly when the uploaded name is. */
  lemma DispositionAccepted(name: string)
    ensures HeaderValueOk(Disposition(name)) <==> HeaderValueOk(name)
  {
    var pre := "attachment; filename=\"";
    var d := Disposition(name);
    assert d == pre + name + "\"";
    if HeaderValueOk(name) {
      forall i | 0 <= i < |d| ensures HeaderChar(d[i]) {
        if i < |pre| { assert d[i] == pre[i]; }
        else if i < |pre| + |name| { assert d[i] == name[i - |pre|]; }
      }
    }
    if HeaderValueOk(d) {
      forall i | 0 <= i < |name| ensures HeaderChar(name[i]) {
        assert d[|pre| + i] == name[i];
      }
    }
  }

  /** `GET /files/:id`, behind the guard. A file is sent only to its owner;
      a file of someone else gives the same 404 as a missing id. A fault, an
      id outside the INTEGER range and a header value Node refuses all end
      in the catch's 500. */
  function DownloadFile(files: seq<FileRow>, userId: Option<int>, id: int, dbFault: bool)
    : (r: Response)
    ensures !IsLoggedIn(userId) ==> r == Redirect(LoginPath)
    ensures IsLoggedIn(userId) && (dbFault || !InIntegerRange(id)) ==> r == DownloadError
    ensures r.Attachment? ==>
              && IsLoggedIn(userId) && !dbFault
              && exists f :: f in files && f.id == id && f.owner == userId.value
                   && HeaderValueOk(f.mediaType) && HeaderValueOk(Disposition(f.name))
                   && r == Attachment(f.mediaType, Disposition(f.name), f.data)
    ensures r == NotFound <==>
              && IsLoggedIn(userId) && !dbFault && InIntegerRange(id)
              && forall f :: f in files ==> !(f.id == id && f.owner == userId.value)
  {
    if !IsLoggedIn(userId) then Redirect(LoginPath)
    else if dbFault || !InIntegerRange(id) then DownloadError
    else match FetchFile(files, id, userId.value)
      case None => NotFound
      case Some(f) =>
        if HeaderValueOk(f.mediaType) && HeaderValueOk(Disposition(f.name))
        then Attachment(f.mediaType, Disposition(f.name), f.data)
        else DownloadError
  }

  /** Asking for another owner's file is indistinguishable from asking for
      an id that does not exist. */
  lemma ForeignFileLooksMissing(files: seq<FileRow>, userId: Option<int>, g: FileRow,
                                missing: int, dbFault: bool)
    requires FileIdsAscending(files) && FileIdsDrawn(files, MaxSerial)
    requires g in files && userId.Some? && g.owner != userId.value
    requires forall f :: f in files ==> f.id != missing
    requires InIntegerRange(missing)
    ensures DownloadFile(files, userId, g.id, dbFault) == DownloadFile(files, userId, missing, dbFault)
  {
    forall f | f in files ensures !(f.id == g.id && f.owner == userId.value) {
      if f.id == g.id { FileIdsDistinct(files, f, g); }
    }
  }

  /** Every stored file downloads for its owner with its stored type, its
      name in the header and its bytes unchanged, provided Node accepts the
      type and the name as header values. */
  lemma DownloadOwned(files: seq<FileRow>, f: FileRow)
    requires FileIdsAscending(files) && FileIdsDrawn(files, MaxSerial)
    requires f in files && f.owner != 0
    requires HeaderValueOk(f.mediaType) && HeaderValueOk(f.name)
    ensures DownloadFile(files, Some(f.owner), f.id, false)
         == Attachment(f.mediaType, Disposition(f.name), f.data)
  {
    FileIdsDistinct(files, FetchFile(files, f.id, f.owner).value, f);
    DispositionAccepted(f.name);
  }

  /** Round trip: a row inserted with a fresh id is downloaded by its owner
      with the stored type and the stored bytes unchanged, provided Node
      accepts the type and the name as header values. */
  lemma DownloadInserted(files: seq<FileRow>, last: int, f: FileRow)
    requires FileIdsDrawn(files, last) && 0 <= last < MaxSerial
    requires f.id == last + 1 && f.owner != 0
    requires HeaderValueOk(f.mediaType) && HeaderValueOk(f.name)
    ensures DownloadFile(files + [f], Some(f.owner), f.id, false)
         == Attachment(f.mediaType, Disposition(f.name), f.data)
  {
    FetchInserted(files, last, f);
    DispositionAccepted(f.name);
  }

  /** A stored type or name that Node refuses as a header value turns its
      owner's download of the file into the handler's 500 response. */
  lemma RefusedHeaderIsServerError(files: seq<FileRow>, f: FileRow)
    requires FileIdsAscending(files) && FileIdsDrawn(files, MaxSerial)
    requires f in files && f.owner != 0
    requires !HeaderValueOk(f.mediaType) || !HeaderValueOk(f.name)
    ensures DownloadFile(files, Some(f.owner), f.id, false) == DownloadError
  {
    FileIdsDistinct(files, FetchFile(files, f.id, f.owner).value, f);
    DispositionAccepted(f.name);
  }

  /** `/` sends a client to the dashboard, and the guarded routes reach
      their handler, exactly when the session holds a truthy user id; none of
      the handlers redirects to the login page itself. */
  lemma GuardedRoutes(users: seq<User>, files: seq<FileRow>, userId: Option<int>, id: int, dbFault: bool)
    ensures Home(userId) == Redirect(DashboardPath) <==> IsLoggedIn(userId)
    ensures Dashboard(userId) == Page(DashboardPage) <==> IsLoggedIn(userId)
    ensures ListFiles(users, files, userId, dbFault) != Redirect(LoginPath) <==> IsLoggedIn(userId)
    ensures DownloadFile(files, userId, id, dbFault) != Redirect(LoginPath) <==> IsLoggedIn(userId)
  {
  }
}
