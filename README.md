# Navigation portal backend: a Dafny model of `server.js`

`server.js` is a small Express server for a navigation portal. It serves
settings, navigation buttons and announcements. It guards writes behind an
admin login that issues a JWT. Every midnight it rotates a shared "daily
password" and posts it to a QQ group. This project models the logic the file
has of its own, with the tables held as in-memory state:

- `password.dfy`, module `DailyPassword`: `generateDailyPassword`. It builds
  8 characters from a fixed 55-character alphabet. The random source is the
  sequence of indices it drew. `IndexOf` and `Decode` read a password back into
  those indices.
- `auth.dfy`, module `Auth`: the `authenticateToken` middleware and the login
  handler. `split(' ')` is modelled with `Split` and its inverse `Join`.
  `jwt.verify`, `jwt.sign` and `bcrypt.compare` are function parameters.
- `tables.dfy`, module `Tables`: the rows of `system_settings`, `nav_buttons`
  and `announcements`, and the queries run on them, as functions on rows. These
  are the fold into a settings map, `UPDATE ... WHERE name = ?`, the rows built
  for a nav-button insert, `ORDER BY order` and the latest announcement.
- `server.dfy`, module `Server`: class `Database` holds the three mutable
  tables. Its methods are the HTTP handlers and the scheduled rotation job.
  Each query's outcome is a parameter: `None` for success, `Some(message)` for
  an engine error, which the handlers answer with 500.
- `common.dfy`, module `Common`: `Option`, the `Response` of a handler, and the
  status codes.

The admin table is never written by the server. `Auth.Login` takes its rows as
a value.

Some behaviour of `server.js` that the model keeps:

- Replacing the navigation buttons stores each button's index as its `order`
  and ignores any `order` the client sends (server.js:126). Listing after a
  replace gives back the client's sequence (`Tables.ListAfterReplace`).
- No handler checks that the body fields it reads are present.
- The token gate accepts any scheme word before the space: `Basic abc` yields
  the token `abc`, which then goes to `jwt.verify` (server.js:155).
- The settings read builds a plain JavaScript object. A row named `__proto__`
  goes through the prototype setter, which ignores a string value, so that
  row never appears in the reply (`Tables.FoldSettings`, `Tables.PROTO_KEY`).

## Model

| member | source | states |
|---|---|---|
| `DailyPassword.GenerateDailyPassword` | server.js:23-30 | the password has 8 characters; character i is the alphabet character drawn by the i-th index, so every character is in the alphabet |
| `DailyPassword.AlphabetDecodes` | server.js:24 | each position of the 55-character alphabet decodes back to its own index |
| `DailyPassword.IndexOfIsInverse` | server.js:24 | a character decodes to index k exactly when it is the alphabet's k-th character (both directions) |
| `DailyPassword.AlphabetDistinct` | server.js:24 | the alphabet has 55 characters and no character appears twice |
| `DailyPassword.IndexOfInjective` | server.js:24 | no two characters decode to the same index |
| `DailyPassword.NoLookalikes` | server.js:24 | none of 0, 1, I, O, i, l, o is in the alphabet |
| `DailyPassword.DecodeSpelled` | server.js:23-30 | decoding a generated password gives back the draws that produced it |
| `DailyPassword.DecodeSound` | server.js:24-28 | whatever decodes is spelled from the alphabet, one in-range index per character |
| `DailyPassword.PossiblePasswords` | server.js:23-30 | the possible passwords are exactly the 8-character strings over the alphabet |
| `DailyPassword.DistinctDrawsDistinctPasswords` | server.js:26-28 | different draws give different passwords, so each of the 55^8 outcomes yields its own password |
| `Auth.Split` | server.js:155 | `split(' ')` always returns at least one field |
| `Auth.JoinSplit` | server.js:155 | joining the fields of a split with single spaces gives the header back |
| `Auth.SplitFieldsHaveNoSpace` | server.js:155 | no field of a split contains a space |
| `Auth.SplitJoin` | server.js:155 | splitting the join of space-free fields gives those fields back |
| `Auth.SplitAfterField` | server.js:155 | a space-free word followed by a space is the first field, and the rest splits on its own |
| `Auth.BearerToken` | server.js:154-157 | a missing or empty header gives no token; a found token is non-empty and has no space |
| `Auth.BearerTokenIsSecondField` | server.js:154-157 | a token is found exactly when the header is a space-free word, a space, a non-empty space-free token, then nothing or text starting with a space; a missing header, no space or an empty second field gives no token |
| `Auth.TokenHasSecondFieldShape` | server.js:155-157 | a found token is non-empty, space-free, and sits between a space-free scheme word and nothing or a space |
| `Auth.SecondFieldShapeGivesToken` | server.js:155-157 | a header of that shape yields that token |
| `Auth.BearerHeaderYieldsToken` | server.js:154-157 | the header `Bearer <token>` yields that token |
| `Auth.Authenticate` | server.js:153-164 | 401 exactly when no token is found; 403 exactly when a found token fails verification; otherwise the handler runs with the decoded payload as the user |
| `Auth.Select` | server.js:76 | the query returns exactly the admin rows with that username, and its first result is the table's first row with that username |
| `Auth.Login` | server.js:76-88 | 500 on a query error; 401 "user not found" when no admin has the username; for the first row with the username, 401 "wrong password" when `compare` rejects its hash, otherwise a token signed over that row's id and username, and that username |
| `Auth.LoginSucceeded` | server.js:78-87 | a successful login was for the first row with the username, whose hash matched, and returns its signed claims and username |
| `Auth.LoginUniqueAdmin` | server.js:78-87 | with unique usernames, login succeeds exactly when the password matches that admin's hash |
| `Auth.LoginThenAuthenticate` | server.js:85-162 | the token login issues, sent as `Bearer <token>`, passes the gate as that admin's id and username, when verification accepts what signing produced |
| `Tables.FoldSettings` | server.js:64-67 | the settings object never has the key `__proto__`; every key it has is a row's name, mapped to the value of a row with that name |
| `Tables.FoldSettingsKeys` | server.js:64-67 | the settings object's keys are exactly the row names other than `__proto__` |
| `Tables.FoldSettingsLastWins` | server.js:64-67 | a name other than `__proto__` maps to the value of the last row with that name |
| `Tables.FoldSettingsIsLastWins` | server.js:64-67 | both of the above for every row |
| `Tables.UpdateWhere` | server.js:51 | the UPDATE adds, removes and renames no row; every row with the name takes the value; every other row is untouched |
| `Tables.ApplyUpdates` | server.js:95-102 | the UPDATEs add, remove and rename no row; a row takes its requested value unless its name was not requested or its UPDATE failed, in which case it is untouched |
| `Tables.ApplyOneMore` | server.js:95-102 | one more successful per-name UPDATE extends the applied request by that name |
| `Tables.ApplyOneFailed` | server.js:95-102 | a failing UPDATE changes no row |
| `Tables.UpdateWhereIsSingleUpdate` | server.js:51 | the rotation's single UPDATE is the one-name case of the settings update |
| `Tables.FoldAfterUpdates` | server.js:92-106 | after the updates the settings read shows the new value for every requested name that has a row and whose UPDATE succeeded; names without a row are not created; other names keep their values |
| `Tables.RotationChangesOnlyDailyPassword` | server.js:51 | the rotation sets `daily_password` to the new password if that row exists, and changes no other setting |
| `Tables.ToRows` | server.js:126 | one row per client button, showing that button, with `order` equal to its index |
| `Tables.Insert` | server.js:111 | inserting into a sorted list adds exactly that row |
| `Tables.InsertSorted` | server.js:111 | inserting into a list sorted by `order` keeps it sorted |
| `Tables.SortByOrder` | server.js:111 | the listing is sorted by `order` and is a permutation of the table |
| `Tables.SortSortedIsIdentity` | server.js:111 | a table already in `order` order is listed as it is |
| `Tables.ListAfterReplace` | server.js:111-126 | after a replace, listing by `order` returns the client's buttons in the client's sequence, with `order` 0..n-1 |
| `Tables.Latest` | server.js:146-148 | the result is null exactly for an empty table; otherwise it is a row of the table with the greatest `created_at` |
| `Tables.LatestAfterPublish` | server.js:138-148 | an announcement published no earlier than every stored one is the latest afterwards; when its time ties with a stored one this rests on the model's tie rule (later row wins), which the engine does not promise |
| `Server.PublishPasswordToQQ` | server.js:33-44 | the post goes to the configured group and carries the password and the date; a relay failure is reported as not delivered and does not propagate |
| `Server.Database.GetSettings` | server.js:60-69 | 500 with the error on a query failure; otherwise the row-by-row fold of the table |
| `Server.Database.UpdateSettings` | server.js:92-107 | a rejected gate changes nothing and returns its 401/403; otherwise each requested name that has rows takes its value unless its UPDATE failed; success exactly when no UPDATE failed, else 500 with one failure's error; other tables unchanged |
| `Server.Database.ListNavButtons` | server.js:110-115 | 500 on a query failure; otherwise the table's rows, sorted by `order`, each exactly as often as in the table |
| `Server.Database.UpdateNavButtons` | server.js:118-132 | a rejected gate changes nothing; a failed DELETE changes nothing and returns 500; a failed INSERT leaves the table empty and returns 500; otherwise the table is exactly the request's buttons with `order` = index |
| `Server.Database.PublishAnnouncement` | server.js:135-142 | a rejected gate or a failed INSERT changes nothing; otherwise one row with the title, content and current time is appended |
| `Server.Database.LatestAnnouncement` | server.js:145-150 | 500 on a query failure; otherwise null exactly for an empty table, else a stored announcement with the greatest `created_at` |
| `Server.Database.RotateDailyPassword` | server.js:47-57 | the new password is spelled from the draws; only the `daily_password` rows change, to that password, whatever the relay does; other tables unchanged; the relay is sent that password |
| `Server.ExampleLoginPasses` | server.js:73-88 | the seeded admin's login succeeds and its `Bearer` token passes the gate as that admin |
| `Server.ExampleSettingsAfterUpdate` | server.js:92-102 | updating `site_title` in a two-row table changes that setting and keeps the daily password |
| `Server.PortalExample` | server.js:60-106 | the seeded admin logs in; an update without a header gets 401; with the issued token it succeeds; the settings read then shows the new title |

## Left out

- HTTP plumbing: Express routing, CORS, JSON body parsing and `app.listen`.
  Handlers are methods whose arguments are the parsed request.
- Malformed bodies are not modelled. The request always has its fields, with a
  `settings` object, a `buttons` array and strings for title, content,
  username and password. In the source a missing `settings` throws a
  `TypeError` before any UPDATE. A missing `buttons` throws inside the DELETE
  callback (server.js:126), after the table has already been emptied: the
  buttons are lost, the exception escapes the query callback, and no reply is
  sent.
- The MySQL engine and query text. Each table is a sequence of rows. Matching
  in `WHERE username = ?` (server.js:76) and `WHERE name = ?` (server.js:51,
  :97) is exact equality, with no collation for case or trailing spaces.
  Under a case-insensitive collation a request key `SITE_TITLE` would update
  the row `site_title`. `Tables.FoldAfterUpdates`'s "other names keep their
  values" holds only with exact matching. The engine's answer to an empty
  `VALUES ?` is an abstract insert outcome.
- Row order without `ORDER BY` is taken as storage order. Ties are resolved
  one fixed way: `SortByOrder` keeps storage order for equal `order`, and
  `Latest` takes the later of equal `created_at`. The engine leaves both
  unspecified.
- bcrypt hashing and comparison, and JWT signing, verification and the 24-hour
  expiry. These are the parameters `compare`, `sign` and `verify`, so expiry is
  whatever `verify` decides.
- The axios POST to the QQ relay and all `console` logging. The relay's reply
  is the parameter `relayError`.
- node-schedule's cron timing, the local-midnight and timezone question,
  `toLocaleDateString()` and SQL `NOW()`. The date string and the time are
  parameters.
- `Math.random()` and `Math.floor(Math.random() * chars.length)`. They are
  replaced by supplied indices in [0, 55).
- `Server.Database.RotateDailyPassword`: the rotation's UPDATE is issued
  without a callback, so the source never sees its outcome. The model treats
  that write as always succeeding.
- `Server.Database.UpdateSettings`: `Promise.all` may answer before the
  remaining UPDATEs finish. The model gives the table after all of them
  complete. Over the single connection (server.js:15) the UPDATEs run in
  issue order, so the source reports the error of the first failing key in
  `Object.keys(settings)` order. The model's request is a map, which has no
  key order, so the contract only promises one failed name's error.
- Interleaving of the rotation job with concurrent requests, and the
  asynchronous callback ordering: each handler runs to completion.
- `DailyPassword.ALPHABET` is written as its capital letters, small letters
  and digits, each the concatenation of its runs of consecutive characters.
  It is the same string as the literal on server.js:24.
