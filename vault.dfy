/** The vault as the server keeps it between requests: the users and files
    tables, the last value of each table's SERIAL sequence, and the session
    store, which gives each client (each session cookie) at most one user
    id. The handlers that change this state are the methods of `Vault`;
    the handlers that only read it are the functions of module Routes,
    applied to the tables and to `SessionOf(client)`. Requests run one at a
    time, each to completion. */
module FileVault {
  import opened Schema
  import opened Routes

  /** The session cookie a request carries. */
  type ClientId = nat

  /** `req.file` as multer hands it over: originalname, mimetype, buffer. */
  datatype UploadedFile = UploadedFile(originalName: string, mimeType: string, buffer: seq<byte>)

  class Vault {
    var users: seq<User>
    var files: seq<FileRow>
    /** `req.session.userId` of every client that has one. */
    var sessions: map<ClientId, int>
    /** Last values handed out by the users and files id sequences (0: none yet). */
    var userSeq: int
    var fileSeq: int

    /** What the schema's constraints and the handlers keep true: keys and
        UNIQUE hold, every id was drawn from its sequence, every file's
        owner and every session's user is a registered user. */
    ghost predicate Valid()
      reads this
    {
      && 0 <= userSeq <= MaxSerial && 0 <= fileSeq <= MaxSerial
      && UsersWellFormed(users, userSeq)
      && FilesWellFormed(users, files, fileSeq)
      && forall c :: c in sessions ==> HasUser(users, sessions[c])
    }

    /** The session slot the request of `client` sees. */
    function SessionOf(client: ClientId): Option<int>
      reads this
    {
      if client in sessions then Some(sessions[client]) else None
    }

    /** The state right after the tables were created on an empty database. */
    constructor ()
      ensures Valid()
      ensures users == [] && files == [] && sessions == map[]
      ensures userSeq == 0 && fileSeq == 0
    {
      users, files, sessions := [], [], map[];
      userSeq, fileSeq := 0, 0;
    }

    /** `POST /register`. The INSERT draws a new id from the sequence before
        the UNIQUE check, so a duplicate username uses up one id; every
        failure of the INSERT (a fault, an exhausted sequence, a taken name)
        answers "Username already taken." and leaves the tables and the
        session as they were. */
    method Register(client: ClientId, username: string, password: string, dbFault: bool)
      returns (resp: Response)
      requires Valid()
      modifies this
      ensures Valid()
      ensures files == old(files) && fileSeq == old(fileSeq)
      ensures dbFault || old(userSeq) == MaxSerial ==>
                && resp == Text(200, UsernameTakenText)
                && users == old(users) && sessions == old(sessions) && userSeq == old(userSeq)
      ensures !dbFault && old(userSeq) < MaxSerial && UsernameTaken(old(users), username) ==>
                && resp == Text(200, UsernameTakenText)
                && users == old(users) && sessions == old(sessions) && userSeq == old(userSeq) + 1
      ensures !dbFault && old(userSeq) < MaxSerial && !UsernameTaken(old(users), username) ==>
                && resp == Redirect(LoginPath)
                && userSeq == old(userSeq) + 1
                && users == old(users) + [User(userSeq, username, password)]
                && sessions == old(sessions)[client := userSeq]
      ensures resp == Redirect(LoginPath) ==>
                forall u :: u in old(users) ==> u.id < userSeq && u.username != username
    {
      if dbFault || userSeq == MaxSerial {
        resp := Text(200, UsernameTakenText);
        return;
      }
      userSeq := userSeq + 1;
      if UsernameTaken(users, username) {
        resp := Text(200, UsernameTakenText);
        return;
      }
      ghost var before := users;
      var user := User(userSeq, username, password);
      users := users + [user];
      sessions := sessions[client := user.id];
      resp := Redirect(LoginPath);

      forall u | u in before ensures u.id < userSeq && u.username != username {
        var i :| 0 <= i < |before| && before[i] == u;
      }
      forall c | c in sessions ensures HasUser(users, sessions[c]) {
        if c != client {
          var u :| u in before && u.id == sessions[c];
          assert u in users;
        }
        assert user in users;
      }
    }

    /** `POST /login`. Looks the name up; succeeds exactly when some user has
        that username and a password strictly equal to the one supplied, and
        then puts that user's id in the client's session. */
    method Login(client: ClientId, username: string, password: string, dbFault: bool)
      returns (resp: Response)
      requires Valid()
      modifies this
      ensures Valid()
      ensures users == old(users) && files == old(files)
      ensures userSeq == old(userSeq) && fileSeq == old(fileSeq)
      ensures dbFault ==> resp == Text(200, LoginFailedText) && sessions == old(sessions)
      ensures !dbFault ==>
                (resp == Redirect(DashboardPath) <==>
                 exists u :: u in users && u.username == username && u.password == password)
      ensures !dbFault && resp != Redirect(DashboardPath) ==>
                resp == Text(200, InvalidCredentialsText) && sessions == old(sessions)
      ensures !dbFault ==>
                forall u :: u in users && u.username == username && u.password == password ==>
                  sessions == old(sessions)[client := u.id]
    {
      if dbFault {
        resp := Text(200, LoginFailedText);
        return;
      }
      if u :| u in users && u.username == username && u.password == password {
        FindUserIsTheNamedUser(users, u);
      }
      var user := FindUser(users, username);
      if user.None? || user.value.password != password {
        resp := Text(200, InvalidCredentialsText);
        return;
      }
      sessions := sessions[client := user.value.id];
      resp := Redirect(DashboardPath);
      forall u | u in users && u.username == username && u.password == password
        ensures u == user.value
      {
        FindUserIsTheNamedUser(users, u);
      }
    }

    /** `GET /logout`: the session is destroyed, so the client's next request
        carries no user id. The tables are untouched. */
    method Logout(client: ClientId) returns (resp: Response)
      requires Valid()
      modifies this
      ensures Valid()
      ensures users == old(users) && files == old(files)
      ensures userSeq == old(userSeq) && fileSeq == old(fileSeq)
      ensures sessions == old(sessions) - {client}
      ensures !IsLoggedIn(SessionOf(client))
      ensures resp == Redirect(LoginPath)
    {
      sessions := sessions - {client};
      resp := Redirect(LoginPath);
    }

    /** `POST /upload`, behind the guard. A logged-in client's file is
        appended with a fresh id, the session's user as owner and name, type
        and bytes exactly as uploaded; nothing else changes. A fault or an
        exhausted id sequence answers 500 and changes nothing. */
    method Upload(client: ClientId, file: UploadedFile, now: Timestamp, dbFault: bool)
      returns (resp: Response)
      requires Valid()
      modifies this
      ensures Valid()
      ensures users == old(users) && sessions == old(sessions) && userSeq == old(userSeq)
      ensures !IsLoggedIn(SessionOf(client)) ==>
                resp == Redirect(LoginPath) && files == old(files) && fileSeq == old(fileSeq)
      ensures IsLoggedIn(SessionOf(client)) && (dbFault || old(fileSeq) == MaxSerial) ==>
                resp == JsonError(500) && files == old(files) && fileSeq == old(fileSeq)
      ensures IsLoggedIn(SessionOf(client)) && !dbFault && old(fileSeq) < MaxSerial ==>
                && resp == JsonSuccess
                && fileSeq == old(fileSeq) + 1
                && files == old(files) + [FileRow(fileSeq, sessions[client], file.originalName,
                                                  file.mimeType, file.buffer, now)]
      ensures resp == JsonSuccess && HeaderValueOk(file.mimeType) && HeaderValueOk(file.originalName) ==>
                DownloadFile(files, SessionOf(client), fileSeq, false)
                  == Attachment(file.mimeType, Disposition(file.originalName), file.buffer)
    {
      if !IsLoggedIn(SessionOf(client)) {
        resp := Redirect(LoginPath);
        return;
      }
      if dbFault || fileSeq == MaxSerial {
        resp := JsonError(500);
        return;
      }
      ghost var before := files;
      var row := FileRow(fileSeq + 1, sessions[client], file.originalName, file.mimeType, file.buffer, now);
      files := files + [row];
      fileSeq := fileSeq + 1;
      resp := JsonSuccess;

      assert HasUser(users, row.owner);
      forall f | f in files ensures HasUser(users, f.owner) {
        if f != row { assert f in before; }
      }
      if HeaderValueOk(file.mimeType) && HeaderValueOk(file.originalName) {
        DownloadInserted(before, fileSeq - 1, row);
      }
    }
  }

  /** Every client holding a session passes the guard. */
  lemma SessionPassesGuard(v: Vault, client: ClientId)
    requires v.Valid()
    ensures IsLoggedIn(v.SessionOf(client)) <==> client in v.sessions
  {
    if client in v.sessions {
      DrawnIdPassesGuard(v.users, v.userSeq, v.sessions[client]);
    }
  }

  /** `GET /files` for a client with a session lists exactly the files its
      user owns: a file appears iff its owner is the session's user. */
  lemma SessionListing(v: Vault, client: ClientId)
    requires v.Valid()
    requires client in v.sessions
    ensures ListFiles(v.users, v.files, v.SessionOf(client), false)
         == FileList(ListRows(v.users, v.files, v.sessions[client]))
    ensures forall f :: f in v.files ==>
              (f.owner == v.sessions[client] <==>
               exists row :: row in ListRows(v.users, v.files, v.sessions[client]) && row.id == f.id)
  {
    var owner := v.sessions[client];
    SessionPassesGuard(v, client);
    var u :| u in v.users && u.id == owner;
    ListedExactlyOwnFiles(v.users, v.files, u);
    forall f | f in v.files
      ensures f.owner == owner <==> exists row :: row in ListRows(v.users, v.files, owner) && row.id == f.id
    {
      if f.owner == owner {
        assert RowOf(f, u.username) in ListRows(v.users, v.files, owner);
      } else {
        ListIsolation(v.users, v.files, owner, f);
      }
    }
  }

  /** A user who owns the only file sees exactly that file. */
  lemma ListingOfOneFile(u: User, f: FileRow)
    requires f.owner == u.id
    ensures ListRows([u], [f], u.id) == [RowOf(f, u.username)]
  {
    assert OwnedBy([f], u.id) == [f];
    JoinAllOneOwner([f], [u], u);
  }

  /** A browser's first visit: register and log in; `ExampleUpload` uploads
      a file and `ExampleQueries` lists it, downloads it and asks for a
      missing id. */
  method ExampleRoundTrip() {
    var v := new Vault();
    var alice := 1;
    var hello: seq<byte> := [104, 101, 108, 108, 111];

    var r := v.Register(alice, "alice", "pw1", false);
    assert r == Redirect(LoginPath) && v.userSeq == 1 && v.sessions == map[alice := 1];
    r := v.Login(alice, "alice", "pw1", false);
    assert v.users == [User(1, "alice", "pw1")];
    assert r == Redirect(DashboardPath);
    ExampleUpload(v, alice, hello);
  }

  /** The upload of the first visit. */
  method ExampleUpload(v: Vault, alice: ClientId, hello: seq<byte>)
    requires v.Valid() && v.sessions == map[alice := 1] && hello == [104, 101, 108, 108, 111]
    requires v.users == [User(1, "alice", "pw1")] && v.files == [] && v.fileSeq == 0
    modifies v
  {
    var r := v.Upload(alice, UploadedFile("notes.txt", "text/plain", hello), 0, false);
    assert r == JsonSuccess && v.fileSeq == 1;
    ExampleQueries(v, alice, hello);
  }

  /** The reads of the first visit, on the state it left. */
  method ExampleQueries(v: Vault, alice: ClientId, hello: seq<byte>)
    requires v.Valid() && v.sessions == map[alice := 1] && hello == [104, 101, 108, 108, 111]
    requires v.users == [User(1, "alice", "pw1")]
    requires v.files == [FileRow(1, 1, "notes.txt", "text/plain", hello, 0)]
  {
    SessionListing(v, alice);
    ListingOfOneFile(v.users[0], v.files[0]);
    assert ListFiles(v.users, v.files, v.SessionOf(alice), false)
        == FileList([ListRow(1, "notes.txt", "text/plain", 5, 0, "alice")]);

    assert HeaderValueOk("text/plain") && HeaderValueOk("notes.txt");
    DownloadOwned(v.files, v.files[0]);
    var got := DownloadFile(v.files, v.SessionOf(alice), 1, false);
    assert got == Attachment("text/plain", Disposition("notes.txt"), hello);
    assert Disposition("notes.txt") == "attachment; filename=\"notes.txt\"";
    got := DownloadFile(v.files, v.SessionOf(alice), 999, false);
    assert got == NotFound;
  }

  /** A wrong password is refused and changes nothing; `ExampleTakenName`
      goes on from there. */
  method ExampleRefusedCredentials() {
    var v := new Vault();
    var alice, bob := 1, 2;

    var r := v.Register(alice, "alice", "pw1", false);
    assert v.userSeq == 1 && v.users == [User(1, "alice", "pw1")];
    r := v.Login(bob, "alice", "wrong", false);
    assert r == Text(200, InvalidCredentialsText) && !IsLoggedIn(v.SessionOf(bob));
    ExampleTakenName(v, bob);
  }

  /** A taken name is refused and changes nothing, except that the refused
      INSERT uses up an id. */
  method ExampleTakenName(v: Vault, bob: ClientId)
    requires v.Valid() && v.userSeq == 1 && v.users == [User(1, "alice", "pw1")]
    requires bob !in v.sessions
    modifies v
  {
    var r := v.Register(bob, "alice", "other", false);
    assert UsernameTaken([User(1, "alice", "pw1")], "alice");
    assert r == Text(200, UsernameTakenText) && v.users == [User(1, "alice", "pw1")];
    assert v.SessionOf(bob) == None && v.userSeq == 2;

    r := v.Register(bob, "bob", "pw2", false);
    assert v.SessionOf(bob) == Some(3);
  }

  /** Two users register; `ExampleForeignFileAndLogout` goes on from there. */
  method ExampleIsolationAndLogout() {
    var v := new Vault();
    var alice, bob := 1, 2;

    var r := v.Register(alice, "alice", "pw1", false);
    assert v.userSeq == 1 && v.sessions == map[alice := 1];
    r := v.Register(bob, "bob", "pw2", false);
    assert v.userSeq == 2 && v.sessions == map[alice := 1, bob := 2];
    ExampleForeignFileAndLogout(v, alice, bob);
  }

  /** Another user's file is not found, and after a logout every guarded
      request is redirected to the login page. */
  method ExampleForeignFileAndLogout(v: Vault, alice: ClientId, bob: ClientId)
    requires v.Valid() && v.files == [] && v.fileSeq == 0
    requires alice != bob && v.sessions == map[alice := 1, bob := 2]
    modifies v
  {
    var r := v.Upload(alice, UploadedFile("a.txt", "text/plain", []), 0, false);
    assert v.files == [FileRow(1, 1, "a.txt", "text/plain", [], 0)];
    var got := DownloadFile(v.files, v.SessionOf(bob), 1, false);
    assert got == NotFound;

    r := v.Logout(alice);
    assert ListFiles(v.users, v.files, v.SessionOf(alice), false) == Redirect(LoginPath);
    r := v.Upload(alice, UploadedFile("b.txt", "text/plain", []), 1, false);
    assert r == Redirect(LoginPath) && |v.files| == 1;
  }
}
