/** The two tables of the vault and the queries the route handlers issue
    against them, with the SQL read as operations on sequences of rows.

    users(id SERIAL PRIMARY KEY, username TEXT UNIQUE, password TEXT)
    files(id SERIAL PRIMARY KEY, user_id INTEGER REFERENCES users(id),
          name TEXT, type TEXT, data BYTEA, uploaded_at TIMESTAMP)

    A table is a sequence in insertion order. SERIAL ids are positive, grow
    with every insert and need not be contiguous. */
module Schema {

  datatype Option<T> = None | Some(value: T)

  newtype byte = b: int | 0 <= b < 256

  /** The largest value a SERIAL sequence hands out (the INTEGER maximum);
      once reached, every further INSERT that needs an id fails. */
  const MaxSerial := 0x7FFF_FFFF

  /** The value CURRENT_TIMESTAMP had when a row was inserted; only ever
      stored and returned. */
  type Timestamp = int

  datatype User = User(id: int, username: string, password: string)

  datatype FileRow = FileRow(id: int, owner: int, name: string, mediaType: string,
                             data: seq<byte>, uploadedAt: Timestamp)

  // ---------------------------------------------------------------------------
  // Table invariants kept by the schema's constraints
  // ---------------------------------------------------------------------------

  /** Every user id was drawn from the users sequence, whose last value is `last`. */
  ghost predicate UserIdsDrawn(users: seq<User>, last: int) {
    forall i :: 0 <= i < |users| ==> 1 <= users[i].id <= last
  }

  /** Later rows carry larger ids, so ids are distinct (PRIMARY KEY). */
  ghost predicate UserIdsAscending(users: seq<User>) {
    forall i, j :: 0 <= i < j < |users| ==> users[i].id < users[j].id
  }

  /** username TEXT UNIQUE */
  ghost predicate UniqueUsernames(users: seq<User>) {
    forall i, j :: 0 <= i < j < |users| ==> users[i].username != users[j].username
  }

  ghost predicate FileIdsDrawn(files: seq<FileRow>, last: int) {
    forall i :: 0 <= i < |files| ==> 1 <= files[i].id <= last
  }

  ghost predicate FileIdsAscending(files: seq<FileRow>) {
    forall i, j :: 0 <= i < j < |files| ==> files[i].id < files[j].id
  }

  predicate HasUser(users: seq<User>, id: int) {
    exists u :: u in users && u.id == id
  }

  /** user_id INTEGER REFERENCES users(id) */
  ghost predicate OwnersExist(users: seq<User>, files: seq<FileRow>) {
    forall f :: f in files ==> HasUser(users, f.owner)
  }

  /** The users table as the constraints keep it, `last` being the last
      value the users sequence handed out. */
  ghost predicate UsersWellFormed(users: seq<User>, last: int) {
    UserIdsDrawn(users, last) && UserIdsAscending(users) && UniqueUsernames(users)
  }

  /** The files table as the constraints keep it. */
  ghost predicate FilesWellFormed(users: seq<User>, files: seq<FileRow>, last: int) {
    FileIdsDrawn(files, last) && FileIdsAscending(files) && OwnersExist(users, files)
  }

  // ---------------------------------------------------------------------------
  // Queries
  // ---------------------------------------------------------------------------

  /** Whether an INSERT of `name` would violate the UNIQUE constraint. */
  predicate UsernameTaken(users: seq<User>, name: string) {
    exists u :: u in users && u.username == name
  }

  /** `SELECT * FROM users WHERE username = $1`, first row. */
  function FindUser(users: seq<User>, name: string): (r: Option<User>)
    ensures r.Some? ==> r.value in users && r.value.username == name
    ensures r.None? <==> !UsernameTaken(users, name)
  {
    if |users| == 0 then None
    else if users[0].username == name then Some(users[0])
    else
      assert users == [users[0]] + users[1..];
      FindUser(users[1..], name)
  }

  /** `FROM files WHERE files.user_id = $1`: the files one user owns. */
  function OwnedBy(files: seq<FileRow>, owner: int): (r: seq<FileRow>)
    ensures forall f :: f in r <==> f in files && f.owner == owner
    ensures |r| <= |files|
  {
    if |files| == 0 then []
    else
      assert files == [files[0]] + files[1..];
      (if files[0].owner == owner then [files[0]] else []) + OwnedBy(files[1..], owner)
  }

  /** `SELECT * FROM files WHERE id = $1 AND user_id = $2`, first row. */
  function FetchFile(files: seq<FileRow>, id: int, owner: int): (r: Option<FileRow>)
    ensures r.Some? ==> r.value in files && r.value.id == id && r.value.owner == owner
    ensures r.None? <==> forall f :: f in files ==> !(f.id == id && f.owner == owner)
  {
    if |files| == 0 then None
    else if files[0].id == id && files[0].owner == owner then Some(files[0])
    else
      assert files == [files[0]] + files[1..];
      FetchFile(files[1..], id, owner)
  }

  // ---------------------------------------------------------------------------
  // Facts about the queries under the table invariants
  // ---------------------------------------------------------------------------

  /** With usernames unique, the login query returns the one user who has
      that name, whoever else is in the table. */
  lemma {:induction false} FindUserIsTheNamedUser(users: seq<User>, u: User)
    requires UniqueUsernames(users)
    requires u in users
    ensures FindUser(users, u.username) == Some(u)
  {
    var k :| 0 <= k < |users| && users[k] == u;
    if k != 0 {
      assert users[0].username != u.username;
      assert UniqueUsernames(users[1..]) by {
        forall i, j | 0 <= i < j < |users| - 1
          ensures users[1..][i].username != users[1..][j].username
        {
          assert users[1..][i] == users[i + 1] && users[1..][j] == users[j + 1];
        }
      }
      assert users[1..][k - 1] == u;
      FindUserIsTheNamedUser(users[1..], u);
    }
  }

  /** Ascending ids are distinct ids: the PRIMARY KEY holds. */
  lemma FileIdsDistinct(files: seq<FileRow>, f: FileRow, g: FileRow)
    requires FileIdsAscending(files)
    requires f in files && g in files && f.id == g.id
    ensures f == g
  {
    var i :| 0 <= i < |files| && files[i] == f;
    var j :| 0 <= j < |files| && files[j] == g;
    if i < j {
      assert files[i].id < files[j].id;
    } else if j < i {
      assert files[j].id < files[i].id;
    }
  }

  /** A row inserted with a fresh id is what the download query returns for
      that id and its owner. */
  lemma {:induction false} FetchInserted(files: seq<FileRow>, last: int, f: FileRow)
    requires FileIdsDrawn(files, last)
    requires f.id == last + 1
    ensures FetchFile(files + [f], f.id, f.owner) == Some(f)
  {
    if |files| != 0 {
      assert (files + [f])[0] == files[0];
      assert files[0].id <= last;
      assert (files + [f])[1..] == files[1..] + [f];
      FetchInserted(files[1..], last, f);
    }
  }

  /** Appending a row leaves the result for every other owner as it was. */
  lemma {:induction false} OwnedByAppend(files: seq<FileRow>, f: FileRow, owner: int)
    ensures OwnedBy(files + [f], owner)
         == OwnedBy(files, owner) + (if f.owner == owner then [f] else [])
  {
    if |files| == 0 {
      assert [f][1..] == [];
    } else {
      assert (files + [f])[0] == files[0];
      assert (files + [f])[1..] == files[1..] + [f];
      OwnedByAppend(files[1..], f, owner);
    }
  }
}
