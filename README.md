# Per-user file vault

A model of the file vault served by `server.js`. Users register and log in
with a username and a password. The server then records their user id in the
session that their session cookie names.
Logged-in users upload files, list the files they own and download them by
id. The server keeps two PostgreSQL tables: `users(id SERIAL, username UNIQUE,
password)` and `files(id SERIAL, user_id REFERENCES users, name, type, data,
uploaded_at)`. It also keeps a session store that maps each client's cookie to
at most one user id.

The model has three modules.

- `Schema` (`schema.dfy`) holds the rows and the table invariants that the
  constraints keep: SERIAL ids that are positive and ascending, a unique
  username, and a file owner that must exist. It also holds the three SQL
  lookups the handlers issue, each as a recursive function on sequences:
  the user for a name, the files of one owner, and a file by id and owner.
- `Routes` (`routes.dfy`) holds the handlers that only read: the
  `isLoggedIn` guard (JavaScript truthiness of `req.session.userId`), `/`,
  `/dashboard`, `GET /files` (a filter plus a join on `users`) and
  `GET /files/:id`. It also holds the responses every handler can give. The
  lemmas here prove listing isolation and completeness, that a foreign file
  looks the same as a missing one, and the upload/download round trip.
- `FileVault` (`vault.dfy`) holds the class `Vault`. Its fields are the two
  tables, the last value of each id sequence and the session store. Its
  methods are the handlers that change state: `Register`, `Login`, `Logout`
  and `Upload`. Each method states the whole new state for every branch of
  the handler. Three scenarios, split over seven example methods, replay a
  browser's exchanges with the server.

Requests are sequential and each one runs to completion. Database faults are
a `dbFault` flag passed to each handler that has a `try`. On a fault the
handler gives its catch response and the state does not change. The time
`CURRENT_TIMESTAMP` gives on insert is a `now` parameter.

Five behaviours of the code a reader might not expect:

- The code has no ORDER BY on the listing, so no order is promised.
- The code maps every failed user INSERT, not only a duplicate name, to
  "Username already taken.".
- A successful registration itself puts the new id in the session, then
  redirects to `/login`.
- Node rejects some characters in header values, so a download can end in
  the handler's 500 response.
- The ids are PostgreSQL INTEGERs. A `:id` outside the INTEGER range makes
  the download query fail with a 500. Once a SERIAL sequence reaches
  2147483647, every further registration or upload fails.

## Model

| member | source | states |
|---|---|---|
| `Schema.FindUser` | server.js:95-99 | the login lookup returns a row of the table that has the given username, and returns nothing exactly when no row has that name |
| `Schema.OwnedBy` | server.js:139-141 | `WHERE files.user_id = $1` keeps exactly the files whose owner is the given user |
| `Schema.FetchFile` | server.js:152-156 | the download lookup returns a row only when both its id and its owner match, and returns nothing exactly when no row matches both |
| `Schema.FindUserIsTheNamedUser` | server.js:32 | with usernames UNIQUE, the lookup of a user's name returns that user |
| `Schema.FileIdsDistinct` | server.js:39 | ascending SERIAL ids are a primary key: two rows with one id are the same row |
| `Schema.FetchInserted` | server.js:119 | a row inserted with a fresh id is what the id-and-owner lookup returns for that id and its owner |
| `Schema.OwnedByAppend` | server.js:119-120 | inserting a file adds it to its owner's files and changes no other owner's files |
| `Routes.IsLoggedIn` | server.js:50-53 | the guard reads `req.session.userId` with JavaScript truthiness: an absent id and the id 0 fail, and every positive id passes |
| `Routes.DrawnIdPassesGuard` | server.js:50-53 | every id a SERIAL column hands out passes the guard's truthiness test |
| `Routes.Home` | server.js:56-62 | `/` always answers with a redirect, and without a session it redirects to `/login` |
| `Routes.Dashboard` | server.js:72-74 | `/dashboard` sends the dashboard page exactly when the guard passes, and otherwise redirects to `/login` |
| `Routes.JoinUsers` | server.js:140 | every joined row carries the file's fields and the username of a user whose id is the file's owner |
| `Routes.JoinAll` | server.js:131-142 | every row of the join comes from one of the joined files and from that file's owner |
| `Routes.ListRows` | server.js:131-142 | every row of the `/files` query describes a file owned by the given user, with the username of the user whose id is that owner |
| `Routes.ListFiles` | server.js:129-147 | without a session the answer is a redirect to `/login`; with a session, a fault gives the 500 JSON error; a listing is given exactly when there is a session and no fault; each listed row is a file of the session's user, with `size` equal to the byte length and `uploaded_by` equal to the owner's username |
| `Routes.JoinMissingUser` | server.js:140 | the inner join drops a file whose owner is not a user |
| `Routes.JoinOnKey` | server.js:31 | since `users.id` is a key, the join gives a file exactly one row, carrying its owner's username |
| `Routes.JoinAllOneOwner` | server.js:131-142 | joining the files of one registered owner gives one row per file, in the same positions |
| `Routes.ListedExactlyOwnFiles` | server.js:131-143 | a user's listing holds a row exactly for each file that user owns, carrying its byte length and the user's name |
| `Routes.ListIsolation` | server.js:141 | a file owned by someone else never appears in a user's listing |
| `Routes.DispositionAccepted` | server.js:159 | the unescaped `attachment; filename="…"` header is accepted exactly when the name is accepted as a header value |
| `Routes.DownloadFile` | server.js:150-164 | without a session the answer is a redirect; with a session, a fault or an id outside the INTEGER range gives the 500 "Error downloading file"; an attachment is sent only without a fault, only for a file with that id owned by the session's user, and only when Node accepts its type and its Content-Disposition as header values, with its stored type, its name in the header and its stored bytes; the answer is 404 "File not found" exactly when there is no fault, the id is in range and no file has that id and owner |
| `Routes.DownloadOwned` | server.js:152-160 | every stored file downloads for its owner with the stored type, the unescaped name in the header and the stored bytes, when Node accepts the type and the name as header values |
| `Routes.ForeignFileLooksMissing` | server.js:152-157 | asking for another owner's file gives the same response as asking for an id that does not exist, for an id within the INTEGER range |
| `Routes.DownloadInserted` | server.js:158-160 | round trip: the owner downloads an inserted file with the stored type and the original bytes when Node accepts its type and name as header values |
| `Routes.RefusedHeaderIsServerError` | server.js:158-162 | every stored file whose type or name Node refuses as a header value gives its owner the 500 "Error downloading file" response |
| `Routes.GuardedRoutes` | server.js:50-53 | `/` goes to the dashboard, and `/dashboard`, `/files` and `/files/:id` reach their handler, exactly when the session holds a truthy user id; no handler redirects to `/login` itself |
| `FileVault.Vault.constructor` | server.js:30-45 | the empty tables: no users, no files, no sessions, both sequences unused |
| `FileVault.Vault.Register` | server.js:77-89 | a fault, an exhausted id sequence or a taken name answers "Username already taken." and leaves the users, the files and the sessions unchanged; a taken name still uses up one id; otherwise exactly one user is appended, with an id above every existing id, the client's session gets that id, and the answer is a redirect to `/login` |
| `FileVault.Vault.Login` | server.js:92-108 | without a fault, login succeeds exactly when some user has the supplied username and a strictly equal password; success puts that user's id in the client's session; failure answers "Invalid credentials" and leaves the session unchanged; a fault answers "Login failed."; the tables never change |
| `FileVault.Vault.Logout` | server.js:110-112 | the client's session loses its user id, so the guard refuses it; the tables are unchanged; the answer is a redirect to `/login` |
| `FileVault.Vault.Upload` | server.js:115-126 | without a session the answer is a redirect and nothing changes; on a fault or with the id sequence exhausted the answer is a 500 and nothing changes; otherwise exactly one file is appended, with a fresh id, the session's user as owner, and the name, type and bytes as uploaded; users and sessions are unchanged; when Node accepts its type and name as header values, the new file then downloads as uploaded |
| `FileVault.SessionPassesGuard` | server.js:50-53 | in a valid vault, a client passes the guard exactly when it holds a session |
| `FileVault.SessionListing` | server.js:129-143 | for a client with a session, a file of the vault appears in the listing exactly when its owner is the session's user |

## Left out

- The Express app setup, static files, body parsing and the page routes that only send a file (`/login`, `/ns`) are not modelled. The dashboard page is the constant `Page("dashboard.html")`. `app.listen` is not modelled either.
- The pg connection pool, the SSL settings and the start-up table creation are not modelled. Only their schema facts are kept: SERIAL ids, UNIQUE username, and the `user_id` reference.
- Session cookies, their signing secret, session saving and expiry are not modelled. The session store is a map from client to user id, and destroying a session removes the client's entry.
- Multipart parsing is left out: the uploaded file arrives as its name, type and bytes. A request without a file throws before the `try` of the upload handler, and that is not modelled.
- Absent or non-string form fields are not modelled: usernames and passwords are strings. An absent field would be stored as NULL, and UNIQUE allows many NULLs.
- A `:id` that is not an integer makes the query fail. In the model the id is an integer, so this failure is one case of `dbFault`. An integer `:id` outside the INTEGER range is modelled: it gives the 500.
- A string in the model is any sequence of Unicode scalar values. PostgreSQL TEXT refuses U+0000, so a username, password, file name or type holding it makes the INSERT or SELECT fail; that failure is one case of `dbFault`. Strings that are not sequences of Unicode scalar values (a lone surrogate in a JSON body) are not modelled.
- The text of `err.message` in the 500 JSON answers is not modelled. For a faulted INSERT, the model keeps the id sequence unchanged.
- Real clock values are not modelled (see `now`), and neither are concurrent requests or the database's own concurrency control.
- `res.send` can answer a conditional GET with 304, and that is not modelled. After `setHeader` throws, any headers already set stay on the 500 response; that is not modelled either.
- `Routes.ListFiles`: the model lists rows in table order. The query promises no order, so the contracts state only which rows appear.
- The header-value rule (tab, 0x20–0x7E, 0x80–0xFF) comes from Node's http module. That module is not part of this model.
- The browser script `public/script.js` is not part of this model.
