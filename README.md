# CroabBoard button store, modelled in Dafny

CroabBoard is a soundboard. Each user has a personal, ordered board of
buttons. A button (an `Uploaded` row) pairs an image file with a sound file
and may carry a category. A user's board is that user's `Linked` rows. Each
row holds a position `tri`, and the board is listed in ascending `tri`.
Deleting a button from a board writes a `DeleteHistory` row. The row can
later be restored. Users can also mark favorites, and the store counts plays.

Two back ends implement the same store:

- the Flask application `Backend/main.py`, over SQLAlchemy;
- the Express application `Backend/server.js`, over the MySQL data-access
  layer `Backend/models/mysql-models.js`, with the administration routes in
  `Backend/routes/admin.js` and the audit-log queries in `Backend/models/AuditLog.js`.

This project models both over one store and proves what each endpoint does
to it.

- `rows.dfy` (module `Rows`) holds the rows of every table, the HTTP status
  codes, and the JavaScript truthiness of an optional request field.
- `database.dfy` (module `Store`) holds the store: class `Store.Database` has
  one field per table. Users, files, buttons, categories and history rows
  are maps from id to row. The Linked table is a sequence in table order,
  so "the first matching row" and "every matching row" mean what the SQL
  means. Favorites are a set of pairs, play statistics a map, and the asset
  store a set of stored paths. One fresh-id counter serves every table. The
  methods of `Database` are the data-access primitives. Each states the
  store's complete new state through `View()`.
- `linked.dfy` (`LinkTable`) holds the Linked-table primitives as functions:
  upsert, set position, remove, maximum position, list by user sorted by
  position. It also proves the uniqueness of a (user, button) pair and the
  append-at-end rule.
- `records.dfy` holds favorites (`Favorites`), play counts (`PlayStatsTable`)
  and the history state machine (`HistoryTable`).
- `catalog.dfy` (`Catalog`) holds the first-match lookups: a category by
  name, a user by name, a button by image.
- `search.dfy` (`Search`) holds search by category with SQL `LIKE '%q%'`,
  shared by both back ends.
- `filenames.dfy` (`FileUtils`) holds both stored-name sanitisers, extension
  extraction, the upload folders, the file URL, the MIME table and the
  storage-deletion result.
- `limits.dfy` (`Limits`) holds JavaScript `parseInt` (with and without a
  radix), the `|| default` idiom, and the limit and offset clamps.
- `flask.dfy` (`FlaskApp`), `express.dfy` (`ExpressApp`) and `admin.dfy`
  (`AdminRoutes`) hold the endpoints.

Each endpoint is written twice:

- an outcome function from the request fields and the tables to a status
  code and the new tables; its contract gives the status for every input
  and the new state for each status;
- a method on `Store.Database` that performs the handler's writes in the
  handler's order; its `ensures` ties the result to the outcome function.
  The two exceptions are `ExpressApp.PostButtons` and `ExpressApp.Upload`.
  They perform the corrected outcomes under "## Findings", and the code
  as written is modelled only by its outcome function.

Several things are passed in as parameters instead of being computed:

- fresh names (`uuid`, `uuid4().hex`)
- the clock
- the bcrypt password check and hash
- Python's `str.isalnum`
- whether a storage delete fails

## Model

| member | source | states |
|---|---|---|
| Store.Database.InsertUser | Backend/models/mysql-models.js:38-45 | The new user takes a fresh id that no user had. Only that entry and the counter change. |
| Store.Database.InsertFile | Backend/models/mysql-models.js:172-179 | A File row is added under a fresh id. Nothing else changes. |
| Store.Database.InsertButton | Backend/models/mysql-models.js:215-222 | An Uploaded row is added under a fresh id. Nothing else changes. |
| Store.Database.InsertCategory | Backend/models/mysql-models.js:118-125 | A Category row is added under a fresh id. Nothing else changes. |
| Store.Database.InsertHistory | Backend/models/mysql-models.js:424-433 | A DeleteHistory row is added under a fresh id. Nothing else changes. |
| Store.Database.SetUser | Backend/models/mysql-models.js:47-62 | Only that user's row is replaced. |
| Store.Database.DeleteUser | Backend/models/mysql-models.js:105-108 | Only that user's row is removed. |
| Store.Database.SetFile | Backend/main.py:432-433 | Only that File row is replaced. |
| Store.Database.DeleteFile | Backend/models/mysql-models.js:181-183 | Only that File row is removed. |
| Store.Database.SetButton | Backend/models/mysql-models.js:224-231 | Only that Uploaded row is replaced. |
| Store.Database.DeleteButton | Backend/models/mysql-models.js:233-235 | Only that Uploaded row is removed. |
| Store.Database.SetHistory | Backend/main.py:401-402 | Only that history row is replaced. |
| Store.Database.SetLinks | Backend/main.py:743-744 | The staged Linked table is committed as a whole. |
| Store.Database.LinkUpsert | Backend/models/mysql-models.js:323-345 | The Linked table becomes `LinkTable.Upsert` of the old one. The upsert keeps the table free of duplicate pairs. |
| Store.Database.LinkInsert | Backend/main.py:682-684 | A plain Linked insert appends one row at the end of the table. |
| Store.Database.LinkSetTri | Backend/models/mysql-models.js:347-352 | The UPDATE changes every row of the pair and nothing else, as `LinkTable.SetTri` says. |
| Store.Database.LinkRemove | Backend/models/mysql-models.js:354-359 | The DELETE removes every row of the pair, as `LinkTable.Remove` says. |
| Store.Database.LinkRemoveAt | Backend/main.py:191-195 | `db.session.delete` of the row found removes exactly that row. |
| Store.Database.GetMaxTri | Backend/models/mysql-models.js:389-395 | Returns `LinkTable.MaxTri`: 0 for a user with no links, otherwise that user's highest position. |
| Store.Database.AddFavorite | Backend/models/mysql-models.js:521-535 | The pair joins the favorite set. The result is true exactly when the pair was not in the set before. |
| Store.Database.RemoveFavorite | Backend/models/mysql-models.js:537-543 | The pair leaves the favorite set. The result is true exactly when the pair was in the set. |
| Store.Database.IsFavorite | Backend/models/mysql-models.js:513-519 | The result is the current membership of the pair. |
| Store.Database.IncrementPlayCount | Backend/models/mysql-models.js:601-618 | Only this button's statistics change, as `PlayStatsTable.Increment` says. |
| Store.Database.RestoreHistory | Backend/models/mysql-models.js:450-467 | An absent id changes nothing and reports none. Otherwise the method returns the row as read before the update and marks it restored. |
| Store.Database.SaveToDisk | Backend/main.py:49-62 | The stored path joins the asset store. Nothing else changes. |
| Store.Database.RemoveFromDisk | Backend/main.py:64-74 | The stored path leaves the asset store. Nothing else changes. |
| Store.FindOrCreateCategory | Backend/main.py:661-668 | The name is looked up exactly. An existing category leaves the tables unchanged and is returned. Otherwise exactly one category with that name and no color is created under a fresh id. Unique category names stay unique. |
| Store.RecordFiles | Backend/main.py:655-659 | Adds the image File row under the next id and the sound File row under the one after it. Nothing else changes. |
| Store.AssignCategory | Backend/main.py:661-668 | With no category name, no category is assigned and the tables are unchanged. Otherwise the category is one of exactly that name, and an existing name leaves the tables unchanged. Links, buttons and files are never touched. |
| Store.InsertFiles | Backend/main.py:655-659 | Performs `RecordFiles` and returns the two fresh ids. |
| Store.SetCategory | Backend/main.py:661-668 | Performs `AssignCategory`. |
| Store.FindOrCreate | Backend/main.py:661-668 | Performs `FindOrCreateCategory`. |
| LinkTable.Count | Backend/models/mysql-models.js:397-417 | The number of rows of a pair. It is 0 exactly when the pair has no row. |
| LinkTable.SetTri | Backend/models/mysql-models.js:347-352 | The length is unchanged. Every row of the pair gets the new position. Every other row is unchanged. |
| LinkTable.Remove | Backend/models/mysql-models.js:354-359 | No row of the pair remains. A row stays exactly when it belongs to another pair. The length drops by the pair's count. |
| LinkTable.MaxOf | Backend/models/mysql-models.js:389-395 | `MAX(tri)`: none exactly when the user has no row. Otherwise it is some row's position and no row of the user is higher. |
| LinkTable.UserRows | Backend/models/mysql-models.js:306-321 | Exactly the user's rows whose button exists. This is the inner join. |
| LinkTable.InsertByTri | Backend/models/mysql-models.js:306-321 | Inserting a row into a sorted sequence keeps it sorted and adds exactly that row. |
| LinkTable.SortByTri | Backend/models/mysql-models.js:306-321 | `ORDER BY tri ASC`: the result is sorted and is a permutation of the input. |
| LinkTable.InsertKeepsTies | Backend/models/mysql-models.js:306-321 | An inserted row goes in front of the rows of its own position, and no row passes another of equal position. |
| LinkTable.SortKeepsTies | Backend/models/mysql-models.js:306-321 | The sort is stable: for every position, the rows holding it come out in table order. |
| LinkTable.FirstOfPair | Backend/main.py:729-734 | `.first()` on a pair: the lowest index holding the pair. It is none exactly when no row holds the pair. |
| LinkTable.SamePairsFirst | Backend/main.py:729-737 | Moving positions does not change which row `.first()` finds for a pair. |
| LinkTable.FirstOfButton | Backend/main.py:324-325 | `.first()` filtered by button only: the lowest index whose button matches. It is none exactly when no row has that button. |
| LinkTable.RemoveAt | Backend/main.py:760-765 | Deleting one row keeps the rows before it in place and shifts the rows after it down by one. |
| LinkTable.RemoveFirst | Backend/main.py:760-765 | Deleting the first row of a pair lowers its count by one when the pair has a row. Every row of another pair stays, and no row is invented. |
| LinkTable.RemoveAtCount | Backend/main.py:760-765 | Removing one row lowers its pair's count by exactly one. Every other pair's count is unchanged. |
| LinkTable.RemoveAtKeeps | Backend/main.py:760-765 | Removing one row keeps every other row. |
| LinkTable.UpsertUnique | Backend/models/mysql-models.js:397-417 | After an upsert on a table without duplicate pairs, the table still has none. The pair has exactly one row, at the given position. The rows of every other pair are unchanged. |
| LinkTable.UpdateUnique | Backend/models/mysql-models.js:347-352 | Updating a pair that already has its one row leaves one row at the new position. Every other pair is unchanged. |
| LinkTable.SetTriKeepsOthers | Backend/models/mysql-models.js:347-352 | `updatePosition` leaves the rows of every other pair as they were. |
| LinkTable.SetTriWithoutRow | Backend/models/mysql-models.js:347-352 | `updatePosition` on a missing pair changes nothing. |
| LinkTable.AppendUnique | Backend/models/mysql-models.js:337-344 | Inserting a pair that had no row leaves exactly one row for it and no duplicate pairs. |
| LinkTable.AppendAfterAll | Backend/main.py:670 | `max(tri) + 1` is above every position the user already has. It is 1 for a user without links. |
| LinkTable.MaxAfterAppend | Backend/main.py:670-684 | After the append, the new row's position is the user's maximum. |
| LinkTable.FindByUserExact | Backend/models/mysql-models.js:306-321 | `findByUser` returns the user's joined rows, exactly, sorted by position. |
| LinkTable.RemoveThenUpsert | Backend/models/mysql-models.js:323-345 | Linking a pair that was just removed appends a single fresh row for it. |
| Favorites.Add | Backend/models/mysql-models.js:521-535 | The set gains the pair. The result is true exactly when the pair was new, so a duplicate leaves a set. |
| Favorites.Remove | Backend/models/mysql-models.js:537-543 | The set loses the pair. The result is true exactly when a row was removed. |
| Favorites.ToggleFlips | Backend/server.js:974-982 | The toggle flips the pair's membership. It reports the new membership and touches no other pair. |
| Favorites.ToggleTwice | Backend/server.js:974-982 | Toggling twice restores the set. |
| PlayStatsTable.Get | Backend/models/mysql-models.js:620-626 | A button without statistics reads as play count 0 and no last-played time. |
| PlayStatsTable.Increment | Backend/models/mysql-models.js:601-618 | The count becomes 1 on the first play and goes up by 1 on each later play. The last-played time is recorded. No other button changes. |
| PlayStatsTable.CountsPlays | Backend/models/mysql-models.js:601-618 | After a sequence of plays, each button's count has risen by the number of times it was played. |
| HistoryTable.Restore | Backend/models/mysql-models.js:450-467 | An absent id is an error. Otherwise the result is the row as read before, and the row becomes restored whatever its status was. No other row changes. |
| HistoryTable.RestoreTwice | Backend/models/mysql-models.js:450-467 | A second restore still succeeds, changes nothing, and returns a restored row. |
| Catalog.FirstKey | Backend/main.py:187-195 | `.first()` over an id-keyed table: the lowest matching id. Every lower id fails the filter. None means no id matches. |
| Catalog.FindCategory | Backend/models/mysql-models.js:156-162 | Finds a category of exactly that name. None exactly when there is no such category. |
| Catalog.FindUser | Backend/models/mysql-models.js:33-36 | Finds a user of exactly that name. None exactly when there is no such user. |
| Catalog.FindButtonByImage | Backend/main.py:187-195 | Finds the button with the lowest id that uses that image. None exactly when no button uses it. |
| Catalog.InsertUserKeepsUnique | Backend/main.py:209-215 | Adding a user after the taken-name check keeps usernames unique. |
| Search.ContainsPart | Backend/models/mysql-models.js:361-387 | A string contains each piece it is made of. |
| Search.MatchInside | Backend/models/mysql-models.js:374-376 | `LIKE '%q%'` matches every string that has q inside it, whatever q holds. |
| Search.PrefixOfMatch | Backend/models/mysql-models.js:374-376 | A pattern that starts with a part without wildcards matches only strings that start with that part. |
| Search.LikeIsContains | Backend/models/mysql-models.js:374-376 | For a q without `%` or `_`, `LIKE '%q%'` matches exactly the strings containing q. |
| Search.LikeLiteral | Backend/main.py:541 | For a query without `%` or `_`, the case-insensitive match is exactly a substring test on the lower-cased strings. |
| Search.WildcardMatchesMore | Backend/models/mysql-models.js:374-376 | The query is not escaped: `p_p` matches the category `pop`, which does not contain it. |
| Search.CategoryOf | Backend/models/mysql-models.js:361-387 | The outer join gives a name exactly when the button's category exists. |
| Search.Hits | Backend/main.py:528-544 | The hits are exactly the rows that pass the WHERE clause. |
| Search.Matching | Backend/main.py:528-544 | The caller's rows whose button's category name matches `'%q%'` ignoring case, sorted by position, with none missing and none extra. |
| Search.MatchingJoinable | Backend/main.py:549-561 | Every matching row joins with a button and a category, so the projection is defined. |
| Search.Project | Backend/main.py:549-561 | One row per match, in order: each carries its link's position and its button's name, image and category name. |
| Search.SearchRowsMatch | Backend/main.py:528-561 | Every row of a 200 comes from one of the caller's links, in ascending position. It carries that button's name and image, and a category name that matches `'%q%'` ignoring case. |
| Search.SearchOutcome | Backend/main.py:520-563 | A missing or empty category is 400. No match is 404. Otherwise 200, with one row per match in position order. |
| Search.SearchFindsCategory | Backend/server.js:481-513 | A caller's button whose category name contains the query is found, in either letter case, whatever wildcards the query holds. |
| Search.LowerConcat | Backend/models/mysql-models.js:361-387 | Lower-casing distributes over concatenation. |
| FileUtils.JsReplaceChar | Backend/utils/fileUtils.js:18 | `/[^a-zA-Z0-9\s\-_]/g` keeps safe characters and white space. Any other code point becomes `_`, and a code point outside the Basic Multilingual Plane, being two UTF-16 units, becomes `__`. |
| FileUtils.JsReplace | Backend/utils/fileUtils.js:18 | After the replacement, only safe characters and white space remain. |
| FileUtils.JsReplaceAppend | Backend/utils/fileUtils.js:18 | The replacement works character by character, so it distributes over concatenation. |
| FileUtils.JsReplaceKeeps | Backend/utils/fileUtils.js:18 | A name of safe characters and white space is unchanged by the replacement. |
| FileUtils.JsReplaceNoSpace | Backend/utils/fileUtils.js:18 | The replacement introduces no white space. |
| FileUtils.TrimStart | Backend/utils/fileUtils.js:18 | Drops exactly the leading white space. |
| FileUtils.TrimEnd | Backend/utils/fileUtils.js:18 | Drops exactly the trailing white space. |
| FileUtils.Trim | Backend/utils/fileUtils.js:18 | `trim` leaves a string with no white space at either end. |
| FileUtils.TrimIsSlice | Backend/utils/fileUtils.js:18 | `trim` returns a slice of its input, and what it cut off is white space. |
| FileUtils.TrimStartSkip | Backend/utils/fileUtils.js:18 | Leading white space makes no difference to the trimmed start. |
| FileUtils.TrimEndSkip | Backend/utils/fileUtils.js:18 | Trailing white space makes no difference to the trimmed end. |
| FileUtils.TrimIgnoresEnds | Backend/utils/fileUtils.js:18 | White space added at either end does not change `trim`. |
| FileUtils.TrimSolid | Backend/utils/fileUtils.js:18 | Trailing white space does not survive trimming from both sides. |
| FileUtils.Collapse | Backend/utils/fileUtils.js:18 | `replace(/\s+/g, '_')` leaves no white space. |
| FileUtils.CollapsePlain | Backend/utils/fileUtils.js:18 | A string without white space is unchanged by `replace(/\s+/g, '_')`. |
| FileUtils.CollapseSafe | Backend/utils/fileUtils.js:18 | Collapsing a string of safe characters and white space leaves only safe characters. |
| FileUtils.CollapseRun | Backend/utils/fileUtils.js:18 | Each run of white space becomes exactly one `_`. |
| FileUtils.JsSanitiseSafe | Backend/utils/fileUtils.js:18 | The sanitised button name holds only ASCII letters, digits, `-` and `_`. |
| FileUtils.JsSanitiseKeepsSafe | Backend/utils/fileUtils.js:18 | A name that already holds only safe characters is unchanged. |
| FileUtils.JsSanitiseIgnoresEnds | Backend/utils/fileUtils.js:18 | Leading and trailing white space is dropped. |
| FileUtils.JsSanitiseRun | Backend/utils/fileUtils.js:18 | An interior run of white space becomes exactly one `_`. |
| FileUtils.PyReplace | Backend/main.py:51 | Works one for one: alphanumerics, space, `-` and `_` are kept, and every other character becomes `_`. |
| FileUtils.PyStripStart | Backend/main.py:51 | `str.strip` on the left: a suffix of the input that starts with no white space. |
| FileUtils.PyStripEnd | Backend/main.py:51 | `str.strip` on the right: a prefix of the input that ends with no white space. |
| FileUtils.PyStrip | Backend/main.py:51 | `str.strip` returns a slice of the input with no white space at either end. |
| FileUtils.SpacesToUnderscores | Backend/main.py:51 | `replace(' ', '_')` changes exactly the spaces. |
| FileUtils.PySanitiseSafe | Backend/main.py:51 | The Flask sanitised name has no space and holds only alphanumerics, `-` and `_`. |
| FileUtils.PySanitiseOneForOne | Backend/main.py:51 | The Flask sanitiser keeps the length. Space becomes `_`, a kept character stays, and anything else becomes `_`. Unlike the Express one, it does not collapse runs. |
| FileUtils.LastIndex | Backend/utils/fileUtils.js:17 | The last index of a character, or -1 when the character does not occur after that point. |
| FileUtils.DropTrailingSlashes | Backend/utils/fileUtils.js:17 | Drops exactly the trailing slashes that `path.extname` ignores. |
| FileUtils.JsExtname | Backend/utils/fileUtils.js:17 | `path.extname` is empty or a dot followed by neither a slash nor another dot. |
| FileUtils.PyExt | Backend/main.py:50 | `os.path.splitext(...)[1]` is empty or a dot followed by neither a slash nor another dot. |
| FileUtils.PlainNameIndexes | Backend/utils/fileUtils.js:17 | In `stem.e`, the last dot is at the end of the stem and there is no slash. |
| FileUtils.JsExtPlain | Backend/utils/fileUtils.js:17 | `path.extname("stem.e")` is `.e`. |
| FileUtils.PyExtPlain | Backend/main.py:50 | `splitext("stem.e")[1]` is `.e`. |
| FileUtils.ExtAgree | Backend/utils/fileUtils.js:17 | On an ordinary name the two extension functions agree. |
| FileUtils.LeadingDotsDiffer | Backend/main.py:50 | They differ on a name that is all leading dots: `..a` gives `.a` in Node and nothing in Python. |
| FileUtils.JsStoredFilenameIsPlain | Backend/utils/fileUtils.js:17-19 | `safeName_uuid.ext` contains no slash, so it stays inside its upload folder. |
| FileUtils.PyStoredFilenameIsPlain | Backend/main.py:50-52 | `safe_name_hex.ext` contains no slash. |
| FileUtils.FileUrlInUploadDir | Backend/utils/fileUtils.js:79-82 | The URL is `http://localhost:5000/uploads/<type>s/<filename>`. |
| FileUtils.FoldersCompared | Backend/main.py:53-58 | Images go to `uploads/images` in both back ends. Sounds go to `uploads/sounds` in Express but `uploads/audio` in Flask. |
| FileUtils.Lower | Backend/utils/fileUtils.js:91 | `toLowerCase` changes each character on its own and keeps the length. |
| FileUtils.LowerIdempotent | Backend/utils/fileUtils.js:91 | Lower-casing twice is lower-casing once. |
| FileUtils.ContentType | Backend/utils/fileUtils.js:90-117 | The MIME type comes from the lower-cased extension. An unknown image is `image/jpeg`, an unknown sound `audio/mpeg`, and any other file type `application/octet-stream`. |
| FileUtils.ContentTypeIgnoresCase | Backend/utils/fileUtils.js:91 | The extension's letter case does not matter. |
| FileUtils.ContentTypeFamily | Backend/utils/fileUtils.js:93-113 | An image always gets an `image/` type and a sound an `audio/` type. |
| FileUtils.ImageTypesFamily | Backend/utils/fileUtils.js:93-103 | Every image entry, and the default, lies in `image/`. |
| FileUtils.AudioTypesFamily | Backend/utils/fileUtils.js:104-113 | Every sound entry, and the default, lies in `audio/`. |
| FileUtils.DeleteFromStorage | Backend/utils/fileUtils.js:48-71 | True with the path gone exactly when there is no fault. A missing file counts as no fault. Any other fault is false and leaves the store unchanged. |
| FileUtils.DeleteIdempotent | Backend/utils/fileUtils.js:55-70 | Deleting again reports success and changes nothing. |
| Limits.DigitsPrefix | Backend/models/AuditLog.js:34 | The longest run of leading digits. The next character, if any, is not a digit. |
| Limits.ParseUnsigned | Backend/models/AuditLog.js:34 | `NaN` exactly when no digit leads. |
| Limits.NatDigits | Backend/models/AuditLog.js:34 | `String(n)` of a natural number is a non-empty run of digits. |
| Limits.NatDigitsValue | Backend/models/AuditLog.js:34 | The digits read back as the number. |
| Limits.ParseDigits | Backend/models/AuditLog.js:34 | `parseInt` stops at the first non-digit. |
| Limits.ParseNegated | Backend/models/AuditLog.js:34 | A minus sign negates what follows. |
| Limits.ParseDecimal | Backend/models/AuditLog.js:34 | `parseInt(String(n) + junk, 10)` is n, for every integer n and trailing junk that starts with a non-digit. |
| Limits.ParseSkipsSpace | Backend/models/AuditLog.js:34 | Leading white space does not change the result. |
| Limits.ParseIntNoRadix | Backend/server.js:384-391 | `parseInt(s)` without a radix agrees with the decimal parse unless the number is written with a `0x` prefix. |
| Limits.NoRadixDecimal | Backend/routes/admin.js:37-42 | A written number reads back as itself without a radix too. |
| Limits.NoRadixHex | Backend/server.js:384 | `"0x1f"` reads as 31 without a radix and as 0 with radix 10. |
| Limits.OrDefault | Backend/models/AuditLog.js:34 | `x \|\| d`: NaN and 0 give d, and any other value passes through. |
| Limits.ClampLimit | Backend/models/AuditLog.js:34 | `Math.max(1, Math.min(parseInt \|\| d, hi))` lies in [1, hi]. Unparseable or 0 gives d, a negative value gives 1, a value in range is kept, and a value above hi gives hi. |
| Limits.AuditAllLimit | Backend/models/AuditLog.js:34 | The `getAll` and `getByDateRange` limit lies in [1, 1000]. |
| Limits.AuditUserLimit | Backend/models/AuditLog.js:56 | The `getByUser`, `getByAction` and `getFailedLogins` limit lies in [1, 500]. |
| Limits.MostPlayedLimit | Backend/models/mysql-models.js:628-630 | The `getMostPlayed` limit lies in [1, 1000]. |
| Limits.AuditOffset | Backend/models/AuditLog.js:35 | The offset is never negative. It is 0 when unparseable and otherwise the parsed value bounded below by 0. |
| Limits.ClampDecimal | Backend/models/AuditLog.js:34-35 | For a written integer n, each clamp gives: its default for 0, 1 below 1, n in range, and its upper bound above it. For `getAll` (line 34) and `getByDateRange` (line 103) the default is 100 and the bound 1000. For `getByUser` (56), `getByAction` (79) and `getFailedLogins` (125) they are 50 and 500. For `getMostPlayed` they are 20 and 1000. The offset gives n, or 0 when n is negative. |
| Limits.SelectAuditQuery | Backend/routes/admin.js:107-121 | Query selection goes by priority: an action, then a user id, then both dates, then all logs. Each query's limit lies in its own clamp range. |
| Limits.AbsentLimitIsHundred | Backend/routes/admin.js:109-114 | The route's default of 100 replaces the query's own default of 50. |
| FlaskApp.StoreUploads | Backend/main.py:652-659 | The two File rows are added under fresh ids. The board and buttons are untouched. |
| FlaskApp.LinkNewButton | Backend/main.py:670-684 | The Uploaded row is added, and one Linked row is appended at `max(tri) + 1`. |
| FlaskApp.AddButtonOutcome | Backend/main.py:640-686 | A missing or empty image, sound or name is 400 with no change. Otherwise 201, with the files, the category, the button and its link written. |
| FlaskApp.AddButtonAppends | Backend/main.py:670-684 | A created button adds exactly one row at the end of the table for the caller. Its position is above every position the caller had, it points to a fresh button, and no other row changes. |
| FlaskApp.AddButtonCategory | Backend/main.py:661-668 | Without a category name, the button has none and no category is added. With one, the button's category is one of that exact name, and an existing name adds no category. |
| FlaskApp.AddButton | Backend/main.py:640-686 | Performs `AddButtonOutcome`. |
| FlaskApp.SaveButton | Backend/main.py:652-684 | Performs `CreateButton`: the files, the category, the button and the link. |
| FlaskApp.CreateLinkedButton | Backend/main.py:672-684 | Performs `LinkNewButton`. |
| FlaskApp.SaveUploads | Backend/main.py:652-659 | Performs `StoreUploads` and returns the fresh ids. |
| FlaskApp.LoadLinked | Backend/main.py:729-734 | The caller's Linked row for an id whose button exists. None exactly when the id is negative, has no button, or has no row for the caller. |
| FlaskApp.Step | Backend/main.py:721-741 | An item that fails is refused with 400 or 404. |
| FlaskApp.Reposition | Backend/main.py:715-744 | A refused batch is refused with 400 or 404. |
| FlaskApp.RepositionKeepsPairs | Backend/main.py:736-744 | A batch that passes only moves positions: the rows keep their pairs. |
| FlaskApp.RepositionAllOrNothing | Backend/main.py:715-744 | The batch is staged exactly when every item passes. |
| FlaskApp.RefusalSticks | Backend/main.py:721-741 | Once an item fails, the items after it are never looked at. |
| FlaskApp.RepositionOutcome | Backend/main.py:715-748 | For a list of JSON objects, the status is 200, 400 or 404. 200 comes exactly when every item passes. A refused batch commits nothing. After a 200, each row `.first()` finds for a named id holds the last position given for that id, and every other row is unchanged. |
| FlaskApp.RepositionPlaces | Backend/main.py:715-744 | A staged batch sets each row found for an item to the position of the last item that found it, and leaves every row no item found as it was. |
| FlaskApp.RepositionLastWins | Backend/main.py:736-744 | After a 200, the last item of the list names a row, and that row holds the item's `new_position`. |
| FlaskApp.LeadingObjects | Backend/main.py:717-719 | The number of elements the loop reaches before `item.get` raises: every earlier one is an object, and the one there is not. |
| FlaskApp.ItemsOf | Backend/main.py:717-719 | The items of a run of objects, one for one. |
| FlaskApp.PositionsOutcome | Backend/main.py:715-748 | The whole handler with its `except`. A `positions` that cannot be iterated is 500. An element that is not an object is 500 when the loop reaches it with every earlier item passing. A 500 rolls back. An earlier refusal answers 400 or 404, and a list of objects answers as `RepositionOutcome`. |
| FlaskApp.NumberItemFails | Backend/main.py:717-719 | `{"positions": [5]}` is 500 and changes nothing. |
| FlaskApp.StageNext | Backend/main.py:717-740 | One more object in the loop is one more staging step. |
| FlaskApp.OtherEntryFails | Backend/main.py:717-747 | Reaching a non-object with every earlier item staged is 500 with nothing changed. |
| FlaskApp.ObjectRefused | Backend/main.py:721-742 | A refused object ends the handler with that refusal, whatever follows it. |
| FlaskApp.AllStaged | Backend/main.py:744-745 | A loop that reaches the end commits the staged positions with 200. |
| FlaskApp.UpdatePositions | Backend/main.py:715-748 | The loop performs `PositionsOutcome`, committing once at the end: on 200 the named rows hold their last positions and nothing else changes, and on 500 nothing changes. |
| FlaskApp.CategoryOutcome | Backend/main.py:693-710 | An unknown button is 404, and a null name fails at commit with 500. Otherwise the button gets the found-or-created category. |
| FlaskApp.PutOutcome | Backend/main.py:688-713 | A body with `positions` repositions, whatever JSON value it holds, one with `button_id` and `category_name` sets the category, and anything else is 400. |
| FlaskApp.PutButtons | Backend/main.py:688-713 | Performs `PutOutcome`. |
| FlaskApp.SetButtonCategory | Backend/main.py:693-710 | Performs `CategoryOutcome`. |
| FlaskApp.DeleteImageOutcome | Backend/main.py:185-199 | An image with no button is 500, because `.id` of None raises. A button with no caller row is 404. Otherwise only the caller's first row for it goes. |
| FlaskApp.DeleteImage | Backend/main.py:185-199 | Performs `DeleteImageOutcome`. |
| FlaskApp.RegisterOutcome | Backend/main.py:202-216 | A missing password or a taken name is 400, and a null name is 500. Otherwise 201, with a user of button size 150 who is not an administrator. Usernames stay unique. |
| FlaskApp.Register | Backend/main.py:202-216 | Performs `RegisterOutcome`. |
| FlaskApp.PurgeButton | Backend/main.py:324-340 | Removes the button and both files, and the first Linked row of the button, whoever owns it. |
| FlaskApp.DeleteFromBddOutcome | Backend/main.py:309-357 | An image with no button is 500 with nothing changed. Otherwise the history row is written first, holding the name and filenames with status deleted, and users, categories, favorites and plays never change. With no sound row, the history row is the only change (500). With a sound row but no image row, the sound's stored path has also gone (500). With both rows, the answer is 200: the button, both File rows and both stored paths go, and so does the button's first Linked row, whoever owns it. |
| FlaskApp.DeleteFromBdd | Backend/main.py:309-357 | Performs `DeleteFromBddOutcome`. |
| FlaskApp.Purge | Backend/main.py:324-340 | Performs `PurgeButton`. |
| FlaskApp.RestoreOutcome | Backend/main.py:361-408 | A row not owned by the caller is 404, and an already restored row is 400. Otherwise new File and Uploaded rows are created under the original name and linked at `max(tri) + 1`, and the history row becomes restored. |
| FlaskApp.RestoreOnce | Backend/main.py:366-367 | A second restore of the same row is 400 and changes nothing. |
| FlaskApp.Restore | Backend/main.py:361-408 | Performs `RestoreOutcome`. |
| FlaskApp.RenameOutcome | Backend/main.py:470-489 | An empty name or a missing or zero id is 400. No button with that image is 404. Otherwise only that button's name changes. |
| FlaskApp.Rename | Backend/main.py:470-489 | Performs `RenameOutcome`. |
| FlaskApp.ReplaceFile | Backend/main.py:412-438 | Only the File row's filename and the stored paths change: the old path goes and the new one comes. |
| FlaskApp.ModifyFileOutcome | Backend/main.py:412-466 | A missing upload, id or name, or an empty upload name, is 400. An unknown file is 404. Otherwise the file is replaced; the button's name is not updated. |
| FlaskApp.ModifyFile | Backend/main.py:412-466 | Performs `ModifyFileOutcome`. |
| FlaskApp.DeleteButtonOutcome | Backend/main.py:750-770 | A missing or zero id is 400, and an unknown button 404. Otherwise the button goes, and so does at most one of the caller's rows for it; every other row stays. |
| FlaskApp.DeleteButton | Backend/main.py:750-770 | Performs `DeleteButtonOutcome`. |
| ExpressApp.LoginOutcome | Backend/server.js:138-163 | Missing credentials are 400. An unknown user or a wrong password is 401. Otherwise 200. |
| ExpressApp.LoginAccepts | Backend/server.js:149-163 | A login succeeds exactly when some user of that name has a matching password. |
| ExpressApp.Login | Backend/server.js:138-202 | Performs `LoginOutcome` and changes nothing. |
| ExpressApp.Utf16Length | Backend/server.js:252-264 | `.length` counts UTF-16 units: between one and two per character. |
| ExpressApp.RegisterCheck | Backend/server.js:239-274 | The 400 reasons, in the source's order: missing fields, mismatch, password under 6, username under 3, name taken. |
| ExpressApp.RegisterOutcome | Backend/server.js:234-304 | A failing check is 400 with no change. Otherwise 201, with one new user of button size 150. |
| ExpressApp.RegisterAccepts | Backend/server.js:239-287 | Well-formed credentials with a free name are accepted. |
| ExpressApp.RegisterCountsUnits | Backend/server.js:252-257 | Three emoji pass the 6-unit password rule, because each one counts as two units. |
| ExpressApp.ButtonSizeOutcome | Backend/server.js:382-413 | A size outside [50, 500] is 400, and an unknown session user 404. Otherwise only that user's size changes. |
| ExpressApp.ButtonSizeDecimal | Backend/server.js:384-400 | A written n is accepted exactly when 50 ≤ n ≤ 500, and is then stored. Otherwise the tables are unchanged. |
| ExpressApp.UpdateUserOutcome | Backend/server.js:668-684 | Another user's id is 403. Otherwise the size is stored; a missing size fails with 500. |
| ExpressApp.ProfileSkipsSizeRange | Backend/server.js:668-684 | The profile route stores a size of 10, which `/api/button_size` refuses. |
| ExpressApp.SetButtonSize | Backend/server.js:382-413 | Performs `ButtonSizeOutcome`. |
| ExpressApp.UpdateUser | Backend/server.js:668-684 | Performs `UpdateUserOutcome`. |
| ExpressApp.Register | Backend/server.js:234-304 | Performs `RegisterOutcome`. |
| ExpressApp.ApplyPositions | Backend/server.js:369-372 | Applying the updates in order only moves positions. It fails exactly when some item is malformed. |
| ExpressApp.LinkedOutcome | Backend/server.js:361-379 | A missing or non-array `positions` is 400. Otherwise the updates are applied in order with no rollback, and a malformed item gives 500 after the earlier updates were written. |
| ExpressApp.PositionsStopAt | Backend/server.js:369-378 | The first malformed item stops the loop and keeps the updates before it. |
| ExpressApp.PositionsLastWins | Backend/server.js:369-372 | The last update of a pair decides its position. |
| ExpressApp.PutLinked | Backend/server.js:361-379 | The loop performs `LinkedOutcome`. |
| ExpressApp.UploadAndLink | Backend/server.js:555-567 | The button is added and then upserted at `getMaxTri + 1`. |
| ExpressApp.LookupCategory | Backend/server.js:545-552 | With no name, no category. Otherwise an existing category is found, and a missing one calls for a create. |
| ExpressApp.PostButtonsOutcome | Backend/server.js:516-583 | Models the code as written. Missing pieces are 400. A new category name is 500 after the File rows are written. Otherwise 201. |
| ExpressApp.PostButtonsIntended | Backend/server.js:516-583 | The corrected endpoint: missing pieces are 400, and any other request is 201 with the button linked. |
| ExpressApp.AppendsAtEnd | Backend/server.js:555-567 | The new button's single row sits above every other row of the caller. No other row changes. |
| ExpressApp.NewCategoryFails | Backend/models/mysql-models.js:118-125 | A new category name fails with 500 and leaves no button or link. |
| ExpressApp.PostButtonsAgree | Backend/server.js:545-552 | With no new category, the code as written and the corrected endpoint agree. |
| ExpressApp.PostButtonsAppends | Backend/server.js:555-569 | A 201 adds a fresh button with exactly one link for the caller, at the end. |
| ExpressApp.PostButtons | Backend/server.js:516-583 | Performs `PostButtonsIntended`. |
| ExpressApp.UploadLinked | Backend/server.js:555-567 | Performs `UploadAndLink`. |
| ExpressApp.DeleteAll | Backend/server.js:598-603 | Bulk delete removes exactly the caller's rows for the listed ids. |
| ExpressApp.LinkAllPositions | Backend/server.js:605-611 | Bulk link puts the i-th listed id at `maxTri + i + 1`, each id with a single row. |
| ExpressApp.LinkAllKeeps | Backend/server.js:605-611 | Bulk link touches no other row. |
| ExpressApp.UpsertOthers | Backend/models/mysql-models.js:397-417 | An upsert touches no other pair. |
| ExpressApp.UpsertKeepsCount | Backend/models/mysql-models.js:397-417 | An upsert keeps the count of every other pair. |
| ExpressApp.SetTriKeepsCount | Backend/models/mysql-models.js:347-352 | `updatePosition` keeps every pair's count. |
| ExpressApp.BulkOutcome | Backend/server.js:586-632 | A missing operation, a non-array id list, or an unknown operation is 400. Otherwise 200, after the delete or the link. |
| ExpressApp.BulkLinkPositions | Backend/server.js:605-611 | Bulk link places the ids consecutively after the old maximum, in list order. |
| ExpressApp.BulkDeleteRemoves | Backend/server.js:598-603 | Bulk delete leaves no listed id on the caller's board and keeps every other row. |
| ExpressApp.BulkDelete | Backend/server.js:598-603 | The loop performs `DeleteAll`. |
| ExpressApp.BulkLink | Backend/server.js:605-611 | The loop performs `LinkAll` from the old maximum. |
| ExpressApp.BulkOperations | Backend/server.js:586-632 | Performs `BulkOutcome`. |
| ExpressApp.UnlinkTarget | Backend/server.js:822-827 | The button is found on the caller's board exactly when the parsed id has a row for the caller and a button. |
| ExpressApp.UnlinkOutcome | Backend/server.js:817-850 | A button not on the caller's board is 404 with no change. Otherwise a deleted history row is written, and then only that pair's link goes. |
| ExpressApp.UnlinkKeepsButton | Backend/server.js:830-843 | Unlinking keeps the button and its files. It records the button in history and leaves the pair without a row. |
| ExpressApp.Unlink | Backend/server.js:817-850 | Performs `UnlinkOutcome`. |
| ExpressApp.UploadName | Backend/server.js:741 | An empty name becomes `Unnamed Button`. |
| ExpressApp.UploadOutcome | Backend/server.js:709-758 | Models the code as written. No image is 400, and no sound is 500 with the image File row already written. Otherwise 200. The board is never touched. |
| ExpressApp.UploadIntended | Backend/server.js:709-758 | The corrected endpoint: no image is 400. No sound gives a button without a sound. The board is never touched. |
| ExpressApp.UploadWithoutSound | Backend/server.js:737-743 | As written, a missing sound leaves an image File row behind and no button. The corrected endpoint creates the button. |
| ExpressApp.Upload | Backend/server.js:709-758 | Performs `UploadIntended`. |
| ExpressApp.LinkOutcome | Backend/server.js:800-815 | A missing id is 500. Otherwise an upsert at `tri \|\| 0`. |
| ExpressApp.LinkIsUpsert | Backend/server.js:800-815 | Linking twice always gives 200. It leaves one row, at the second `tri || 0` (0 when that `tri` is absent or zero), and keeps pairs unique. |
| ExpressApp.PostLink | Backend/server.js:800-815 | Performs `LinkOutcome`. |
| ExpressApp.ToggleFavorite | Backend/server.js:971-987 | The toggle flips membership, and the result is the new membership. |
| AdminRoutes.TargetUser | Backend/routes/admin.js:44-47 | The path names a user exactly when its parsed id has a row. |
| AdminRoutes.ToggleAdminOutcome | Backend/routes/admin.js:32-68 | The caller's own id is 400 before any lookup, and a missing user 404. Otherwise only the target's flag is negated. |
| AdminRoutes.ToggleAdminSelf | Backend/routes/admin.js:37-42 | An administrator cannot toggle itself. |
| AdminRoutes.ToggleAdminTwice | Backend/routes/admin.js:49-50 | Toggling another user twice restores the table. |
| AdminRoutes.ToggleAdmin | Backend/routes/admin.js:32-68 | Performs `ToggleAdminOutcome`. |
| AdminRoutes.DeleteUserOutcome | Backend/routes/admin.js:71-104 | Self-deletion is 400 and a missing user 404. Otherwise only the target goes, and the caller stays. |
| AdminRoutes.DeleteUserOnce | Backend/routes/admin.js:83-88 | Deleting the same user again is 404. |
| AdminRoutes.DeleteUser | Backend/routes/admin.js:71-104 | Performs `DeleteUserOutcome`. |
| AdminRoutes.RestoreOutcome | Backend/routes/admin.js:200-229 | A missing history row is 500. Otherwise the row becomes restored whatever it was, and the owner's link is upserted at position 0. |
| AdminRoutes.SetTriTwice | Backend/models/mysql-models.js:347-352 | Setting the same position twice is setting it once. |
| AdminRoutes.UpsertTwice | Backend/models/mysql-models.js:323-345 | `Linked.create` is idempotent. |
| AdminRoutes.RestoreTwice | Backend/routes/admin.js:205-212 | A second restore succeeds and changes nothing more. |
| AdminRoutes.UnlinkThenRestore | Backend/routes/admin.js:205-212 | Unlinking a button and then restoring it gives the owner one row for it at position 0, after the other rows. The button is unchanged. |
| AdminRoutes.RestoreDeleted | Backend/routes/admin.js:200-229 | Performs `RestoreOutcome`. |

## Left out

- The frontend, routing, CORS, sessions, static files, multer storage and JSON envelopes are not modelled. An endpoint is a function from its request fields to a status and new tables.
- bcrypt is a parameter: the password check is a predicate and the hash is a given string.
- Fresh names (`uuid`, `uuid4().hex`) and the clock are parameters. Disk writes and deletes become the set of stored paths, and storage faults are a parameter.
- SQL execution, the connection pool, `AuditLog.createTable` and audit logging (`logAction`, the audit middleware) are left out. They do not change the tables modelled here.
- `requireAdmin` and the authentication middleware are preconditions of the admin routes: the caller is an authenticated administrator.
- The volume endpoints, `ButtonVolume`, `PlayHistory`, `getAllStats` and `routes/user.js` are not part of this model.
- Flask `login`, `logout`, `button_size` and `reset_password` are not part of this model. Neither are the Express `/api/restore_from_history` route (Backend/server.js:657-666) and `Uploaded.restoreFromHistory`.
- Ids are one global fresh counter instead of one counter per table. Only freshness is used.
- Foreign keys are not enforced, because the schema is not part of the source. Deleting an Uploaded row leaves other users' Linked rows dangling. Every join requires the button to exist, so the queries agree with SQLAlchemy's nulling of those rows.
- Column widths (`String(50)` and the like) and SQL collation are not modelled. SQL leaves the order of rows with equal `tri` open. The model fixes one such order: table order, as LinkTable.SortKeepsTies proves.
- Search.Like: the query is pasted into the pattern unescaped, and the model keeps that: its `%` and `_` are wildcards. MySQL's and PostgreSQL's backslash escape inside a pattern is not modelled (the Flask database is whatever `DATABASE_URI` names, Backend/main.py:42). Case is ignored by lower-casing both sides, in place of the database collation.
- `toLowerCase` is modelled on ASCII letters only, not all of Unicode. The `\s` class is modelled in full, as ECMAScript's WhiteSpace and LineTerminator sets. Python's `isalnum` is a parameter.
- MySQL's conversion of a string id in a bind parameter is not modelled: route ids are parsed with `parseInt`, and JSON body ids are integers.
- FlaskApp.ModifyFileOutcome: `image_id` and `sound_id` arrive as form strings and go straight to `db.session.get(File, …)` (Backend/main.py:417,424,447). The model takes the id already parsed as a number. A non-numeric form id is not modelled: whether it gives 404 or 500 depends on the database.
- JSON `null` is modelled like an absent field, as `None`. In Flask the two agree, since `item.get` returns `None` for both. In Express they differ, and the model keeps the absent case. An absent field binds `undefined`, which mysql2 refuses, so the model answers 500. A `null` binds SQL NULL and does not throw. What differs:
  - ExpressApp.ApplyPositions: an item whose `id` is `null` runs an UPDATE that matches no row, and the loop goes on to 200. The model stops there with 500.
  - ExpressApp.ApplyPositions: a `new_position` of `null` writes NULL into `tri`. The model answers 500.
  - ExpressApp.UpdateUserOutcome: a `btnSize` of `null` writes NULL into `btn_size`. The model answers 500.
  - ExpressApp.LinkOutcome: an `uploadedId` of `null` tries to insert a row with a NULL button. The model answers 500.
  - The last three depend on column constraints, and the schema is not part of the source.
- ExpressApp.PostButtons: performs `PostButtonsIntended`, the corrected outcome. The as-written 500 for a new category name is modelled only by `PostButtonsOutcome` and `NewCategoryFails`.
- ExpressApp.Upload: performs `UploadIntended`, the corrected outcome. The as-written 500 for an upload without a sound is modelled only by `UploadOutcome` and `UploadWithoutSound`.
- Limits.AuditOffset: the offset is an unbounded integer. In the source it is a JavaScript number pasted into the SQL text (Backend/models/AuditLog.js:35-40). Above 2^53 it rounds, so the query asks for a nearby offset. From 10^21 it prints in exponent notation (`1e+21`), or as `Infinity` past the double range, and the query fails with 500 in the route.
- FlaskApp.RepositionOutcome: a `new_position` that is not a number passes the `is None` guard. It is staged, then fails at the next flush or at the commit with 500. Positions are modelled as integers.
- FileUtils.ContentType: the argument is taken to be an extension as `path.extname` returns it, so it starts with a dot or is empty. A bare name of an inherited object property (`constructor`, `__proto__`) would read that property instead of a table entry. The model gives the default type there. No caller in the source passes such a name.
- FileUtils.ContentTypeFamily: holds of the source only for the extension arguments above, and not for a bare inherited property name.
- Flask users are never administrators: the Flask `User` has no `is_admin` column.
- Login's 500 paths (a failing session save or database error) are not modelled.
- AdminRoutes.RestoreOutcome: a history row with no button id restores the row and makes no link. The source would call `Linked.create` with a null id.
- `Backend/main.py:369` computes a prefixed name that is never used, so it has no effect here.
- `api_modify_image` and `api_modify_sound` never update the button's name, and are modelled as written.

## Findings

| source | as written | input that shows it | evidently intended | confidence | as-written member | corrected member |
|---|---|---|---|---|---|---|
| Backend/server.js:545-552 | A category name with no row calls `Category.create({ name })`, which binds `color` as `undefined` (Backend/models/mysql-models.js:118-125). mysql2 refuses an undefined bind parameter, so the request fails with 500 after both File rows were written. | `POST /api/buttons` with an image, a sound, a name and a category name not yet in the table | The category is created without a color and the button is linked at `getMaxTri + 1` with 201 | not executed | ExpressApp.NewCategoryFails | ExpressApp.PostButtonsIntended |
| Backend/server.js:737-743 | Without a sound file, `soundRecord?.id` is `undefined`, which `Uploaded.create` binds. The request fails with 500, leaving the image File row behind and no button. | `POST /api/upload` with an image and no sound | A button with no sound is created | not executed | ExpressApp.UploadWithoutSound | ExpressApp.UploadIntended |
