# Pengumuman Kelulusan SMK in Dafny

A school publishes its graduation results online. Each student looks up
their result by NIS (student number) and birth date. The lookup works only
while an administrator keeps the announcement gate open. Signed-in
administrators manage the student roster (create, edit, delete, CSV import
and export) and the gate.

This project models that system's server core and the client helpers that
feed it:

- the password hash format and its check (`Credentials`, on the Node hex
  codec in `Hex`);
- the login verify callback, the session binding, `requireAuth` and
  `/api/auth/me` (`Auth`);
- the three tables and their constraints (`Schema`), and the storage class
  as an in-memory store (`Storage.DatabaseStorage`);
- the HTTP handlers, including the gated result check, the import loop and
  the start-up seed (`Routes`);
- the shared path table and `buildUrl` (`Urls`);
- the countdown timer (`Countdown`);
- the roster page's CSV parser, search filter and CSV export
  (`StudentsPage`);
- the add/edit student dialog (`StudentForm`).

The JavaScript string built-ins these rely on are written out with their
JavaScript meaning in `Text`: `split`, `join`, `trim`, `includes`, `replace`
with a string pattern, `toLowerCase`, `String(n)` and `padStart`. The model
fixes some of the system's surroundings as parameters:

- The key-derivation function (scrypt) is a parameter `Kdf`: a
  deterministic function from password and salt text to 64 bytes.
- The random salt is an input.
- How the `date` column reads text is a parameter `DateParser`. It stores
  every ISO 8601 calendar date (`YYYY-MM-DD`) as given. It may accept other
  spellings and store something that is not ISO for them (`infinity`,
  `-infinity`, years past 9999, dates before the common era);
  `Schema.SpecialDateStorable` shows such a column is admitted.
- Clock readings enter as integers: milliseconds for the seed's `now`,
  whole seconds for the countdown's `diff`.
- The outcome of a client mutation is a boolean.
- A request body the route's schema rejects is `None`.

Two behaviours of the code are worth knowing before reading the model:

- Updating the gate always answers 500 (see Findings).
- The memory session store forgets a session that has been idle for a day.
  The model does not capture this: a binding lasts until logout (see Left
  out).

## Model

| member | source | states |
|---|---|---|
| Text.Trim | client/src/pages/admin/students.tsx:65 | the result is the input with only white space removed around it, and it neither starts nor ends with white space |
| Text.Split | client/src/pages/admin/students.tsx:60 | splitting yields at least one piece, and no piece contains the separator |
| Text.Join | client/src/pages/admin/students.tsx:99-104 | an empty list joins to the empty text, and a join ends with its last piece; JoinSplit and SplitJoin make it the inverse of `split` |
| Text.JoinSplit | client/src/pages/admin/students.tsx:60 | joining the pieces of a split with the separator gives the original text back |
| Text.SplitJoin | server/routes.ts:22 | splitting a join of separator-free pieces gives exactly those pieces |
| Text.IndexOfFrom | shared/routes.ts:120 | the result is the first occurrence of the pattern at or after the start position, or none if there is none |
| Text.ContainsIffOccurs | shared/routes.ts:120 | `includes` holds exactly when the pattern occurs at some position |
| Text.ExpandReplacement | shared/routes.ts:121 | `$&` inserts the matched text, `$$` a single '$', `` $` `` the text before the match and `$'` the text after it |
| Text.ReplaceFirst | shared/routes.ts:121 | with no occurrence the text is unchanged; otherwise the text before the first occurrence and the text after it are kept |
| Text.ExpandPlain | shared/routes.ts:121 | a replacement text without `$` is inserted literally |
| Text.ToLower | client/src/pages/admin/students.tsx:27 | lower-casing maps each character on its own, ASCII capitals to small letters |
| Text.NatString | client/src/components/countdown-timer.tsx:57 | `String(n)` of a natural number is digits only, reads back as n, and has a leading zero only for 0 |
| Text.PadStart | client/src/components/countdown-timer.tsx:57 | the result has the target length (or the input's, if longer), ends with the input, and is filled with the pad character |
| Hex.HexEncode | server/routes.ts:16-18 | hex text is two hex digits per byte |
| Hex.HexDecode | server/routes.ts:23 | decoding yields at most one byte per two characters, reading each character by the low byte of its code |
| Hex.HighCharReadsAsLowByte | server/routes.ts:23 | a character above U+00FF whose low byte is a hex digit decodes as that digit: 'İ' then '0' reads as the byte 0 |
| Hex.DecodeEncode | server/routes.ts:18-23 | decoding the hex text of bytes gives those bytes back |
| Hex.DecodeStopsAt | server/routes.ts:23 | decoding stops before the first character whose low byte is not a hex digit, so what follows it is lost |
| Hex.NoDotInHex | server/routes.ts:18-22 | hex text contains no '.' |
| Storage.FindAdminByEmail | server/storage.ts:26-29 | the found admin has exactly that email; none is found exactly when no row has it |
| Storage.FindAdminById | server/routes.ts:58-64 | the found admin has that id; none is found exactly when no row has it |
| Storage.FindStudentByNis | server/storage.ts:45-48 | the found student has exactly that NIS; none is found exactly when no row has it |
| Storage.IndexOfId | server/storage.ts:40-43 | the index is that of the first row with the id, or none if no row has it |
| Storage.FindStudentById | server/storage.ts:40-43 | the found student has that id; none is found exactly when no row has it |
| Storage.FoundByNisIsOnly | server/storage.ts:45-48 | with NIS unique, the lookup returns the one row that has the NIS |
| Schema.SpecialDateStorable | shared/schema.ts:16 | a `date` column that also accepts `infinity` and stores it as written satisfies the model's reading of the column, and what it stores is not an ISO date |
| Storage.NewStudentRow | server/storage.ts:50-53 | an insert succeeds exactly when the date is readable and the NIS is free (an unreadable date fails as such, a taken NIS as a unique violation); the row gets the next serial id, the submitted NIS, name, major, status and notes, and the birth date as the column reads it; an ISO date is stored as given, so with an ISO date the insert succeeds exactly when the NIS is free |
| Storage.ApplyPatch | server/storage.ts:55-61 | every supplied column is written (the birth date as the column reads it), every omitted column keeps its value, the id never changes, and a supplied ISO date is stored as given |
| Storage.UpdatedRow | server/storage.ts:55-61 | an empty patch is refused, then an unreadable date; otherwise nothing is updated exactly when no row has the id; a known id is updated to the patched row unless another row holds its NIS, which is a unique violation; an update keeps the id and every omitted column |
| Storage.WithoutId | server/storage.ts:63-65 | deleting never adds rows, and deleting an absent id leaves the table as it was |
| Storage.DeleteRemovesOnlyThatRow | server/storage.ts:63-65 | after a delete, a row remains exactly when it was there and has another id |
| Storage.SettingsUpsert | server/storage.ts:72-81 | an existing row keeps its id, takes the supplied columns and keeps the others; an update with no column is refused; with no row one is inserted with the next id, a missing `isOpen` as false and a missing date as null |
| Storage.FirstSettingsRowDefaultsClosed | shared/schema.ts:23-24 | the first settings row, given no values, has the gate closed and no date |
| Storage.AppendKeepsTable | server/storage.ts:50-53 | an insert with the next id and a free NIS keeps every constraint of `students` |
| Storage.ReplaceKeepsTable | server/storage.ts:55-61 | overwriting a row, keeping its id, with a NIS no other row holds keeps every constraint |
| Storage.RemoveKeepsTable | server/storage.ts:63-65 | removing a row keeps every constraint of `students` |
| Storage.DatabaseStorage.constructor | server/storage.ts:84 | the store starts with empty tables that satisfy every constraint |
| Storage.DatabaseStorage.GetAdminByEmail | server/storage.ts:26-29 | the answer is the exact-match lookup of the email |
| Storage.DatabaseStorage.CreateAdmin | server/storage.ts:31-34 | a taken email fails and changes nothing; otherwise exactly one admin is appended with the next id, and the constraints hold |
| Storage.DatabaseStorage.GetStudents | server/storage.ts:36-38 | the answer is the whole table |
| Storage.DatabaseStorage.GetStudent | server/storage.ts:40-43 | the answer is the row with that id, or none |
| Storage.DatabaseStorage.GetStudentByNis | server/storage.ts:45-48 | the answer is the row with exactly that NIS, or none |
| Storage.DatabaseStorage.CreateStudent | server/storage.ts:50-53 | a taken NIS or an unreadable date fails and leaves the table unchanged; otherwise exactly one row is appended with a fresh id and the other rows are untouched |
| Storage.DatabaseStorage.UpdateStudent | server/storage.ts:55-61 | an unknown id changes nothing; a known id has only the supplied columns of that row changed |
| Storage.DatabaseStorage.DeleteStudent | server/storage.ts:63-65 | only the row with that id is removed; an absent id is a no-op |
| Storage.DatabaseStorage.GetSettings | server/storage.ts:67-70 | the answer is the first settings row, or none |
| Storage.DatabaseStorage.UpdateSettings | server/storage.ts:72-81 | the result is the upsert's; on success the table is exactly that one row, and a refused update changes nothing |
| Credentials.HashPassword | server/routes.ts:15-19 | the stored text is 161 characters with the '.' at position 128 |
| Credentials.ComparePasswords | server/routes.ts:21-26 | the check throws a missing-salt error exactly when there is no '.', and throws exactly when there is no salt or the digest part does not decode to 64 bytes; otherwise it answers whether the decoded digest equals the KDF's digest of the supplied password under the stored salt |
| Credentials.HashSplitsIntoDigestAndSalt | server/routes.ts:15-22 | splitting a stored hash on '.' yields exactly the 128-digit hex digest and the 32-digit hex salt |
| Credentials.CompareAgainstHash | server/routes.ts:21-26 | checking a password against a hash answers whether the KDF gives it the same digest under that salt |
| Credentials.OwnHashVerifies | server/routes.ts:15-26 | a password always matches its own hash |
| Credentials.NoSeparatorThrows | server/routes.ts:22-24 | a stored value without '.' makes the check throw |
| Credentials.MalformedDigestThrows | server/routes.ts:21-25 | a digest part that is short, or has a character among its first 128 whose low byte is not a hex digit, makes the check throw, not answer false |
| Auth.VerifyCredentials | server/routes.ts:42-54 | an unknown email is refused with "Invalid email or password"; a verified admin has that email and a matching password; for a known email the verdict is an error exactly when the password check throws |
| Auth.MalformedDigestIsServerError | server/routes.ts:21-83 | an admin whose stored digest part is short, or has a character among its first 128 whose low byte is not a hex digit, gets a 500 on every login attempt, never a 401 |
| Auth.FoundByEmailIsOnly | shared/schema.ts:7 | with unique emails, the lookup returns the one admin with the email |
| Auth.VerifyHashedAdmin | server/routes.ts:42-49 | an admin stored with a hash is verified exactly by passwords the KDF cannot tell apart, and refused otherwise |
| Auth.LoginResponse | server/routes.ts:74-83 | login answers 200 exactly for a verified admin and 401 exactly for a refusal |
| Auth.LoginHidesWhichPartFailed | server/routes.ts:46-47 | an unknown email and a wrong password get the identical 401 answer |
| Auth.ResolveSession | server/routes.ts:56-68 | an unbound token is anonymous; a user is the admin whose id the token is bound to |
| Auth.SoundSessionsResolve | server/routes.ts:58-67 | when every binding names an existing admin, no request fails to deserialise |
| Auth.SoundnessKeptByGrowth | server/routes.ts:58-67 | adding admins keeps every binding resolvable |
| Auth.RequireAuth | server/routes.ts:98-101 | a request passes exactly when it is signed in; an anonymous one gets 401 "Not authenticated" |
| Auth.MeRoute | server/routes.ts:92-96 | `/me` answers 200 exactly when signed in, with only the admin's id and email |
| Auth.LoginThenLogout | server/routes.ts:74-90 | a token bound by login is signed in, and after logout it is anonymous again |
| Auth.FoundByIdIsOnly | server/routes.ts:63 | with unique ids, the lookup returns the one admin with the id |
| Auth.SessionStore.constructor | server/routes.ts:32-40 | the session store starts with no bindings |
| Auth.SessionStore.Login | server/routes.ts:74-83 | the answer follows the verdict; only a verified login binds the token to the admin's id, and bindings stay resolvable |
| Auth.SessionStore.Logout | server/routes.ts:85-90 | the token's binding is removed and the answer is always 200 |
| Routes.PublicSettingsRoute | server/routes.ts:104-110 | the public gate reads open exactly when a settings row exists and is open; the date shown is the row's, or null with no row |
| Routes.CheckRoute | server/routes.ts:112-143 | a bad body answers 400 and a database failure 500; a closed or missing gate answers 403 whatever the roster holds; an unknown NIS answers 404; a 200 discloses only name, major, status and notes of a student matching both NIS and birth date |
| Routes.CheckDisclosesMatch | server/routes.ts:121-135 | with the gate open, the student matching NIS and birth date is disclosed |
| Routes.UnknownNisLooksLikeWrongDate | server/routes.ts:121-128 | an unknown NIS and a wrong birth date give the identical 404 and message |
| Routes.SettingsRouteAgreesWithCheck | server/routes.ts:104-118 | when the public settings show the gate closed, the check answers 403 |
| Routes.ListStudentsRoute | server/routes.ts:146-149 | a signed-in admin gets the whole roster; others get the `requireAuth` answer |
| Routes.CreateStudentRoute | server/routes.ts:151-159 | a signed-in create answers 201 with the new row, or 400 with the one failure message for every failure, a duplicate NIS included |
| Routes.UpdateStudentRoute | server/routes.ts:161-170 | an unknown id answers 404 "Siswa tidak ditemukan"; a bad body, a non-numeric id, an id outside the 32-bit id column, or a refused update answers 400; a successful update answers 200 with the row; only a 200 changes the table |
| Routes.DeleteStudentRoute | server/routes.ts:172-175 | a signed-in delete always answers 204 and removes only rows with that id |
| Routes.ImportAll | server/routes.ts:180-189 | the count is at most the number of inputs, and the table grows by exactly the count while its old rows are kept |
| Routes.ImportAcceptsFreshRows | server/routes.ts:180-189 | rows with ISO dates and distinct, unused NIS are all inserted |
| Routes.ImportSkipsTakenRows | server/routes.ts:181-187 | rows whose NIS is taken are all skipped and the table is unchanged |
| Routes.ImportContinuesAfterFailure | server/routes.ts:181-188 | a failing row does not stop the import: the rows after it are tried against the same table |
| Routes.ImportRoute | server/routes.ts:177-193 | a signed-in import answers 201 with the number of successful inserts, and the table is the result of inserting the rows in order |
| Routes.SettingsUpdateRouteAsWritten | server/routes.ts:195-215 | as written, every signed-in gate update answers 500 |
| Routes.SettingsUpdateAlwaysFails | server/routes.ts:200 | a signed-in request to close the gate is answered 500 |
| Routes.SettingsUpdateRoute | server/routes.ts:195-215 | a signed-in update with a body answers 200 with the upserted single settings row, or 500 when the store refuses it; a bad body answers 400; after a supplied `isOpen` the public gate shows it |
| Routes.SeedSettings | server/routes.ts:220-227 | a settings row is created, open and dated one day after now, only when none exists |
| Routes.SeedAdmin | server/routes.ts:229-237 | the seeded admin, with a hashed "admin123", is created only when the email is free |
| Routes.SeedStudents | server/routes.ts:239-258 | on an empty roster exactly the two sample students are inserted, with the next two ids; a non-empty roster is left as it was |
| Routes.SeedStudentsInsertable | server/routes.ts:242-257 | the sample students have ISO birth dates and distinct NIS, so the database accepts both |
| Routes.SeedDatabase | server/routes.ts:218-262 | afterwards the store is seeded, and seeding a seeded store changes nothing |
| Urls.BuildUrl | shared/routes.ts:116-126 | with no params the path comes back unchanged; otherwise the entries are applied in order, each seeing the earlier ones' result |
| Urls.Substitute | shared/routes.ts:119-123 | a url that does not include `:key` is unchanged; otherwise the text before the first `:key` and the text after it are kept |
| Urls.SubstituteAll | shared/routes.ts:119-123 | no params leave the url unchanged, and so do params none of whose `:key` the url includes |
| Urls.SubstituteFirst | shared/routes.ts:120-121 | when no ':' comes before the placeholder and the value has no '$', only the first `:key` is replaced, by the value's text; everything after it, further `:key` included, is kept |
| Urls.StudentUrl | shared/routes.ts:76 | the update and delete url for a student is the collection path, '/', and the id's decimal text |
| Urls.NoPlaceholderUnchanged | shared/routes.ts:119-123 | a path with no `:` is returned unchanged whatever the params |
| Urls.PlaceholderFound | shared/routes.ts:120-121 | with no ':' before it, the placeholder is the first occurrence `replace` finds |
| Urls.DollarValueKeepsPlaceholder | shared/routes.ts:121 | a `$&` value re-inserts the placeholder, since `replace` reads the value as a pattern |
| Countdown.JsRem | client/src/components/countdown-timer.tsx:33-35 | JavaScript's `%` agrees with the mathematical remainder for non-negative operands and stays below the divisor in magnitude |
| Countdown.Decompose | client/src/components/countdown-timer.tsx:32-35 | for a non-negative count the days are non-negative, the hours below 24 and the minutes and seconds below 60 |
| Countdown.DecomposeRecomposes | client/src/components/countdown-timer.tsx:32-35 | for a non-negative count, days·86400 + hours·3600 + minutes·60 + seconds is the count, with hours < 24 and minutes, seconds < 60 |
| Countdown.PadUnit | client/src/components/countdown-timer.tsx:57 | a unit's text is at least two characters: its decimal text with '0's in front |
| Countdown.PadUnitDenotes | client/src/components/countdown-timer.tsx:57 | a displayed unit has at least two characters and reads back as the value |
| Countdown.PartsTilesDenote | client/src/components/countdown-timer.tsx:39-42 | each of the four tiles reads back as its unit |
| Countdown.TilesShowTimeLeft | client/src/components/countdown-timer.tsx:32-42 | the four tiles together read back as the count |
| Countdown.CountdownTimer.constructor | client/src/components/countdown-timer.tsx:11 | the timer starts at 0 with its interval running and nothing completed |
| Countdown.CountdownTimer.Tick | client/src/components/countdown-timer.tsx:16-27 | a tick at or past the target sets 0, stops and completes once; an earlier tick stores the difference; the count is never negative |
| Countdown.CountdownTimer.Render | client/src/components/countdown-timer.tsx:32-42 | the four tiles of the state, each at least two characters |
| StudentsPage.ParseLine | client/src/pages/admin/students.tsx:69-80 | a line gives a record exactly when its first five comma-separated cells are non-empty; the record's fields are those cells in order, with notes the sixth cell or "" |
| StudentsPage.LineRecords | client/src/pages/admin/students.tsx:65-66 | a line yields at most one record |
| StudentsPage.ParseLines | client/src/pages/admin/students.tsx:64-81 | no more records than lines, each with a non-empty NIS and status |
| StudentsPage.ReadLine | client/src/pages/admin/students.tsx:65-80 | one loop pass yields the line's record, or none for a blank or incomplete line |
| StudentsPage.ParseCsv | client/src/pages/admin/students.tsx:60-81 | the records of the lines after the first, in order, at most one fewer than the lines |
| StudentsPage.ParseLinesAppend | client/src/pages/admin/students.tsx:64-81 | records keep line order: parsing two runs of lines is parsing each |
| StudentsPage.HeaderIgnored | client/src/pages/admin/students.tsx:64 | the first line never yields a record, whatever it holds |
| StudentsPage.BlankLinesSkipped | client/src/pages/admin/students.tsx:65-66 | a line blank after trimming contributes nothing |
| StudentsPage.Matches | client/src/pages/admin/students.tsx:27-29 | an empty search matches every student, and so does a search contained in the NIS |
| StudentsPage.FilterStudents | client/src/pages/admin/students.tsx:26-30 | a student is kept exactly when it is in the roster and matches the search |
| StudentsPage.EmptySearchKeepsAll | client/src/pages/admin/students.tsx:26-30 | an empty search keeps every student, in order |
| StudentsPage.FilterKeepsOrder | client/src/pages/admin/students.tsx:26-30 | filtering never reorders: filtering two parts is filtering each |
| StudentsPage.ExportRow | client/src/pages/admin/students.tsx:100-102 | an exportable student's row splits on ',' back into its six cells |
| StudentsPage.ExportRows | client/src/pages/admin/students.tsx:100-102 | exactly one export row per student, in order |
| StudentsPage.ExportCsv | client/src/pages/admin/students.tsx:96-104 | nothing is exported for a missing or empty roster; otherwise the `data:` URI of the header and rows |
| StudentsPage.ExportLines | client/src/pages/admin/students.tsx:99-104 | the exported file's lines are the header and then one row per student |
| StudentsPage.ReimportRow | client/src/pages/admin/students.tsx:69-80 | an exported row re-imports as the student with quotes kept around name and notes |
| StudentsPage.RequotedAll | client/src/pages/admin/students.tsx:69-80 | one re-imported record per student, in order, each the student with name and notes quoted |
| StudentsPage.CsvOfExport | client/src/pages/admin/students.tsx:60-64 | importing an export skips its header and reads exactly its rows |
| StudentsPage.ReimportExport | client/src/pages/admin/students.tsx:99-104 | importing an exported roster gives every student back in order, with name and notes quoted |
| StudentsPage.ReimportRows | client/src/pages/admin/students.tsx:64-81 | the parsed export rows are the students, quoted, in order |
| StudentForm.IsoDatesAccepted | client/src/components/student-form-dialog.tsx:23 | every date the `date` column stores as given passes the form's check |
| StudentForm.AcceptedShape | client/src/components/student-form-dialog.tsx:23 | an accepted birth date is ten characters: four digits, '-', two digits, '-', two digits |
| StudentForm.MonthNotRangeChecked | client/src/components/student-form-dialog.tsx:23 | the form accepts "2006-13-45", which is not a date |
| StudentForm.PrefillValues | client/src/components/student-form-dialog.tsx:53-61 | a new student's form is blank with status "LULUS" |
| StudentForm.Dispatch | client/src/components/student-form-dialog.tsx:67-73 | a submit is an update exactly when a student is being edited, and it carries that student's id |
| StudentForm.UntouchedEditKeepsRow | client/src/components/student-form-dialog.tsx:43-68 | saving an edit unchanged writes the row back as it was, except null notes become "" |
| StudentForm.StudentFormDialog.constructor | client/src/components/student-form-dialog.tsx:31-41 | the form starts with the blank values, closed |
| StudentForm.StudentFormDialog.Show | client/src/components/student-form-dialog.tsx:43-63 | opening resets the form to the edited student's values, or the blank form |
| StudentForm.StudentFormDialog.Edit | client/src/components/student-form-dialog.tsx:94-186 | typing sets the form values |
| StudentForm.StudentFormDialog.Submit | client/src/components/student-form-dialog.tsx:65-82 | a malformed birth date sends nothing; otherwise the dispatched request is sent, and the dialog closes only on success |

## Left out

- Strings are sequences of Unicode code points, not UTF-16 code units. A character above U+FFFF is one element here but two units in JavaScript, so lengths, indices and the hex decoder's pairing of such characters are not modelled.
- Hashing: scrypt and `randomBytes` are parameters (`Kdf` and the salt). `timingSafeEqual`'s constant-time comparison cannot be expressed.
- Sessions: cookies, signing and the session secret are left out. A session is a token-to-id map entry.
- Auth.SessionStore.Login: binds the request's own token; the session id that passport regenerates on login is not modelled.
- Auth.SessionStore: bindings never expire. With no cookie `maxAge`, the memory store keeps an entry for one day after its last use and prunes it daily (`checkPeriod`); that idle lifetime is not modelled.
- Login request bodies missing a field (which passport refuses before the verify callback runs) are not modelled.
- Routes.CheckRoute: one flag, `dbUp`, stands for any failing query; the other routes model a store that fails only on constraint violations.
- Routes.PublicSettingsRoute: the date is kept as milliseconds, not converted to ISO text. The handler has no `try`, and its behaviour on a failing query is not modelled.
- Routes.SettingsUpdateRoute: the 400 message carries only the "Format tidak valid: " prefix. The validation details appended after it are not modelled.
- Routes.DeleteStudentRoute: takes an integer id. A path segment that is not a number, or a number outside the 32-bit id column, makes the query throw outside any `try`; that case is not modelled.
- Request bodies: schema parsing is library code. A rejected body is `None`, and an accepted one is already typed.
- Storage: failed inserts do not consume serial values here, so ids increase by one per successful insert only.
- Schema.DateParser: which spellings other than ISO the `date` column accepts, and what it stores for them, is left to the parameter; no stored birth date is promised to be ISO, since the column keeps `infinity`, `-infinity`, years past 9999 and dates before the common era in its own spelling (`Storage.NewStudentRow` and `Storage.ApplyPatch` promise only that an ISO date is stored as given).
- Storage: `DatabaseStorage.GetStudentByNis` and the other lookups return the first matching row of the table's order. Postgres's row order without `ORDER BY` is not modelled.
- Concurrency: interleaved requests, such as two imports at once or a seed racing a request, are not modelled.
- Logging is not modelled.
- Urls.BuildUrl: parameters are a sequence in iteration order. `Object.entries`' ordering of integer-like keys first is not modelled, and number values are integers only.
- Text.ToLower: only ASCII capitals are mapped. JavaScript's `toLowerCase` applies Unicode case mapping, which can also change the length (for example 'İ'); keeping the length holds for the model only.
- StudentsPage.FilterStudents: `toLowerCase` is modelled on ASCII letters only; Unicode case mapping is not modelled.
- StudentsPage.ExportCsv: returns the URI text before `encodeURI`. The link element and the download are not modelled.
- StudentsPage.ParseCsv: reading the file and sending the parsed records to the import route (a network call) are not modelled.
- Countdown.CountdownTimer.Tick: the difference in seconds is a parameter. The clock, `setInterval`, date parsing and an invalid target date are not modelled.
- Countdown.CountdownTimer: restarting the interval when the target changes is not modelled.
- StudentForm.StudentFormDialog.Submit: the mutation's outcome is a parameter. Toasts, the pending state and the cancel button are not modelled.
- StudentForm: of the form schema, only the birth-date pattern is modelled; the other fields accept any text.
- Pages and hooks: the home, login, dashboard and settings pages, the layout and the fetch hooks are rendering and network code. They are not part of this model.

## Findings

| source | as written | input that shows it | evidently intended | confidence | as-written member | corrected member |
|---|---|---|---|---|---|---|
| server/routes.ts:200 | the gate-update handler parses with `insertSettingsSchema`, which is not imported in that file (imports at lines 1-11); the ReferenceError is caught as a non-validation error and answered 500, so the store is never written | a signed-in admin sends `{ isOpen: false }` to PUT /api/admin/settings | the body is parsed with the settings insert schema, the single settings row is upserted, and the row is returned with 200 | high, not executed | Routes.SettingsUpdateRouteAsWritten (exhibited by Routes.SettingsUpdateAlwaysFails) | Routes.SettingsUpdateRoute |
