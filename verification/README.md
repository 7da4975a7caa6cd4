# Client record service — a Dafny model

The service keeps client records for a booking form in one SQLite table,
`clients`, and serves them over HTTP under `/clients`. This project models:

- **the table** (`clients.dfy`, module `Clients`). `ClientTable` is a class
  holding the rows in id order and the AUTOINCREMENT counter. It has one
  method per SQL statement the service issues: select by `id` or by
  `clientId`, list `ORDER BY name`, insert, update by `id` or `clientId`,
  delete by `id` or `clientId`, and the start-up seeding. The NOT NULL and
  UNIQUE constraints refuse a write and leave the table unchanged.
  `CURRENT_TIMESTAMP` is the caller's `now`.
- **the request checks** the handlers make before touching the table:
  - the required fields of a create;
  - the e-mail pattern `^[^\s@]+@[^\s@]+\.[^\s@]+$` (`email.dfy`, module
    `Email`), as a scanner proved to accept exactly the strings the pattern
    matches. It is also proved equal to a description by content: no white
    space, one '@' with something before it, and a '.' after it that is
    neither the first nor the last character of the part after the '@';
  - JavaScript's `parseInt` with its `isNaN` test for the `:id` parameter
    (`id_param.dfy`, module `IdParam`). This includes leading white space,
    a sign, the `0x` prefix and trailing junk.
- **the handlers** (`service.dfy`, module `Service`). Each route is a method
  that takes the table and the request and returns a status and a body.
  It answers 400 for bad input before any table access, 404 for a missing
  row, 409 for a duplicate `clientId`, 500 for any other store refusal, and
  201/200 on success.
- **`formatClientsForForm`** (`directory.dfy`, module `FormDirectory`). It
  builds the directory the booking form loads: each client is stored under a
  key made from its name, lower-cased, stripped to `[a-z0-9]` and cut to ten
  characters, and a later row overwrites an earlier one with the same key.

Two behaviours of the code are worth knowing:

- The update routes only need clientId, name and email to be non-NULL, and
  check the e-mail only when it is non-empty, so `PUT` can store an empty
  name or e-mail while `POST` refuses both
  (`Service.UpdateStoresEmptyName`).
- `PUT /clients/clientId/:clientId` answers 400 for a malformed non-empty
  e-mail (server.js:277-281), as `PUT /clients/:id` does.

## Model

| member | source | states |
|---|---|---|
| Clients.FindById | server.js:128 | `WHERE id = ?`: the index of a row with that id, or none exists |
| Clients.FindByClientId | server.js:149 | `WHERE clientId = ?`: the index of a row with that clientId, or none exists |
| Clients.CheckConstraints | server.js:20-23 | a write is accepted iff clientId, name and email are all non-NULL and no other row has that clientId; a NOT NULL failure is reported iff one of them is NULL |
| Clients.Revised | server.js:234 | an updated row keeps its id and created_at, takes the four new fields, and has updated_at = now |
| Clients.Without | server.js:344 | a delete leaves every other row, in order, and one row fewer |
| Clients.AppendKeepsInvariant | server.js:20-21 | appending a row with the next id and a fresh clientId keeps ids ascending and issued, and clientIds unique |
| Clients.ReviseKeepsInvariant | server.js:21 | replacing a row by one with the same id and a clientId no other row has keeps the invariant |
| Clients.RemoveKeepsInvariant | server.js:344 | removing a row keeps the invariant |
| Clients.DeletedRowIsGone | server.js:330-344 | after a delete, no row has the deleted id or clientId, so deleting by the same key again answers 404 |
| Clients.RowsAreKeyed | server.js:20-21 | a row found by id or by clientId is the only row with that id or clientId |
| Clients.InsertedRowIsFound | server.js:183-200 | a freshly inserted row is found by its new id and by its clientId, at the end of the table |
| Clients.NameLe | server.js:91 | SQLite's BINARY collation on names: code-point order character by character, a proper prefix first |
| Clients.NameLeTotal | server.js:91 | any two names are comparable under the BINARY collation |
| Clients.NameLeAntisymmetric | server.js:91 | two names each ordered before the other are equal, so with totality and transitivity the collation is a total order |
| Clients.NameLeTransitive | server.js:91 | the BINARY collation is transitive |
| Clients.InsertByName | server.js:91 | inserting into a name-sorted list keeps it sorted and adds exactly that row |
| Clients.SortByName | server.js:91 | `ORDER BY name` returns a permutation of the rows sorted by name |
| Clients.SeedRows | server.js:33-41 | the seed is three rows TB-001, TB-002, TB-003, with the fields of `DefaultClients` (server.js:33-37) and consecutive ids after the counter |
| Clients.ClientTable.constructor | server.js:19-27 | a fresh table is empty, its counter at 0 |
| Clients.ClientTable.SelectById | server.js:128 | returns a row of the table with that id, or none exists |
| Clients.ClientTable.SelectByClientId | server.js:149 | returns a row of the table with that clientId, or none exists |
| Clients.ClientTable.SelectAllOrderByName | server.js:91 | returns every row exactly once, sorted by name |
| Clients.ClientTable.Insert | server.js:183-184 | a refused insert changes nothing and reports the violated constraint; otherwise one row with id = counter + 1 (above every earlier id) is appended and the counter advances |
| Clients.ClientTable.UpdateRow | server.js:234-235 | a refused update changes nothing; otherwise only the matched row is revised |
| Clients.ClientTable.UpdateWhereId | server.js:234-235 | no row with that id: 0 changes and nothing changes (even for values that would be refused); otherwise that row alone is revised, or the write is refused and nothing changes |
| Clients.ClientTable.UpdateWhereClientId | server.js:284-285 | the same, for the row with that clientId |
| Clients.ClientTable.DeleteWhereId | server.js:344 | removes the row with that id and no other; 0 changes when there is none |
| Clients.ClientTable.DeleteWhereClientId | server.js:381 | removes the row with that clientId and no other; 0 changes when there is none |
| Clients.ClientTable.SeedIfEmpty | server.js:30-44 | an empty table receives exactly the three seed rows; a table with rows is left as it is |
| JsText.IsJsSpace | server.js:178 | the characters of the regex class `\s`: the JavaScript white space and line terminators |
| Email.Step | server.js:178 | one character of the automaton for the pattern |
| Email.Scan | server.js:178 | the automaton's state after reading a whole string |
| Email.IsValidEmail | server.js:178-179 | `emailRegex.test(email)`: the scan ends in the accepting state |
| Email.FirstAt | server.js:178 | the position of the first '@', or the length when there is none |
| Email.ScanIsExpected | server.js:178 | after each prefix the scanner is in the state that the prefix's content determines |
| Email.ScannerMatchesShape | server.js:178 | the e-mail check accepts a string iff it has no white space, exactly one '@' with text before it, and an inner '.' in the part after it |
| Email.PatternMatchesShape | server.js:178 | the pattern matches a string iff the same content conditions hold |
| Email.ScannerMatchesPattern | server.js:178 | the e-mail check accepts exactly the strings `^[^\s@]+@[^\s@]+\.[^\s@]+$` matches |
| IdParam.ParseInt | server.js:122-124 | `parseInt(req.params.id)` with NaN as none: leading white space skipped, then a signed numeral |
| IdParam.ParseSigned | server.js:122 | one optional '-' (negating) or '+', then an unsigned numeral |
| IdParam.ParseUnsigned | server.js:122 | base 16 after a `0x`/`0X` prefix, else base 10; the value of the longest digit run, none when that run is empty |
| IdParam.NumeralValue | server.js:122 | the value `parseInt` gives a run of digits in its base, most significant digit first |
| IdParam.TrimStart | server.js:122 | `parseInt` skips a maximal run of leading white space: the dropped prefix is all white space and what remains does not start with it |
| IdParam.DigitRun | server.js:122 | `parseInt` reads the longest run of digits of its base |
| IdParam.ParseIntReadsNumeral | server.js:122-126 | any integer written in decimal, followed by a non-digit, parses back to itself (e.g. "12abc" is 12), except "0" followed by 'x', which starts a hexadecimal numeral |
| IdParam.ParseIntSkipsSpace | server.js:122 | leading white space does not change what `parseInt` reads |
| IdParam.NoDigitIsNaN | server.js:122-126 | a parameter without any decimal digit is NaN, so the id routes answer 400 |
| FormDirectory.LowerChar | server.js:53 | `toLowerCase` of one character, as far as the key can see it |
| FormDirectory.ToLower | server.js:53 | `toLowerCase` of a name, character by character |
| FormDirectory.KeepKeyChars | server.js:53 | stripping never lengthens the name, and the result holds exactly the `[a-z0-9]` characters that occur in the name |
| FormDirectory.KeepKeyCharsAppend | server.js:53 | stripping a concatenation strips each part and joins them, so the kept characters stay in their order |
| FormDirectory.DirectoryKey | server.js:53 | the key has at most 10 characters, all in `[a-z0-9]`, and is the first min(10, n) of the n characters left after lower-casing and stripping |
| FormDirectory.LowerOfKeyChars | server.js:53 | lower-casing leaves a string of key characters unchanged |
| FormDirectory.KeepOfKeyChars | server.js:53 | stripping leaves a string of key characters unchanged |
| FormDirectory.DirectoryKeyIdempotent | server.js:53 | a key is its own key |
| FormDirectory.Entry | server.js:54-60 | the entry of one client: its id, name, e-mail and clientId, and its phone with a NULL phone written as '' |
| FormDirectory.Directory | server.js:52-61 | the fold of the `forEach`: each row in turn stored under its key, overwriting any earlier entry |
| FormDirectory.FormatClientsForForm | server.js:49-64 | the loop builds the directory of its rows: each row, in order, written under its key, a NULL phone as '' |
| FormDirectory.DirectoryKeys | server.js:52-61 | the directory has one entry per distinct key of the rows and no other |
| FormDirectory.DirectoryLastWins | server.js:52-61 | the entry under a key is that of the last row with that key |
| FormDirectory.DirectoryNoLarger | server.js:100-101 | the directory has at most as many entries as there are rows |
| FormDirectory.CollisionLosesRow | server.js:52-61 | two rows whose names share a key leave one entry, the later row's |
| Service.Truthy | server.js:171 | JavaScript truthiness of a string field: present and non-empty |
| Service.RequiredFieldsPresent | server.js:171-175 | create needs clientId, name and email all truthy |
| Service.EmailAcceptable | server.js:227-232 | the update routes apply the e-mail check only to a truthy e-mail |
| Service.StoreFailure | server.js:185-197 | a refused write answers 409 with the clientId for a UNIQUE failure, 500 with a database error otherwise |
| Service.Or | server.js:184 | JavaScript `or` on request fields: the result is one of the two operands, and it is truthy exactly when either operand is |
| Service.GetClients | server.js:90-103 | 200 with the directory of the rows in name order, one entry per distinct key, and count = number of rows, never below the number of entries |
| Service.GetClientsRaw | server.js:106-118 | 200 with every row exactly once, sorted by name, and their number |
| Service.GetClientById | server.js:121-143 | 400 when the id is NaN; otherwise 404 when no row has that id, or 200 with that row |
| Service.GetClientByClientId | server.js:146-164 | 404 when no row has that clientId, or 200 with that row |
| Service.CreateClient | server.js:167-215 | 400 for a missing or empty clientId, name or email, or a malformed email, with no change; 409 with no change when the clientId is taken; otherwise 201 with the one appended row, whose id is above every earlier id and whose falsy phone is NULL |
| Service.UpdateClientById | server.js:218-269 | 400 for a NaN id or a malformed non-empty email; 404 when no row has that id; 409/500 when the store refuses; otherwise 200 with the revised row, which replaces that row and nothing else |
| Service.UpdateWhereIdAnswer | server.js:234-267 | after validation: 404 with no change when no row has that id; the store's refusal (409 for a duplicate clientId, 500 otherwise) with no change; otherwise 200 with the revised row, which replaces that row and nothing else |
| Service.UpdateClientByClientId | server.js:272-319 | the same for the row with that clientId, with the new clientId defaulting to the current one |
| Service.DeleteClientById | server.js:322-360 | 400 for a NaN id; 404 with no change when no row has it; otherwise 200 with the row as it was, and only that row removed |
| Service.DeleteClientByClientId | server.js:363-397 | 404 with no change when no row has that clientId; otherwise 200 with the row as it was, and only that row removed |
| Service.UpdateStoresEmptyName | server.js:220-235 | an update that keeps the clientId and gives an empty name is accepted by the store, although a create with those fields answers 400 |

## Left out

- `script.js`, the browser front end. It does DOM updates and `fetch` calls, and holds no logic about the records.
- Express routing, CORS and the JSON body parser. Each route is its own method, and a request body is a record of optional strings. JSON values that are not strings (numbers, booleans, objects) are not modelled.
- The API description at `GET /`, the `/stats` and `/health` routes, the catch-all 404 and 500 handlers, `app.listen` and the SIGINT shutdown. These report process data or are framework plumbing.
- Console logging.
- The sqlite3 driver's callbacks and storage faults other than constraint failures (disk, locking, I/O). The `err.code` string is the driver's: a UNIQUE failure is modelled as `UniqueViolation` (409), and any other refusal as a store error answered with 500. The `details: err.message` text is replaced by the abstract cause.
- The "Client created/updated but failed to retrieve" 500 answers of the follow-up SELECT. In memory that read cannot fail; the handlers assert that it finds the row just written.
- Clients.SortByName: rows with equal names come out in id order, one order SQLite may choose. SQLite does not promise any particular order for ties.
- Timestamps are integers from the caller's clock. Their text format and one-second resolution are not modelled. Because of that resolution an update made in the same second as the create leaves `updated_at` equal to `created_at`, never later; `updated_at >= created_at` itself is not stated, because it depends on the clock never running backwards.
- Ids are unbounded integers. SQLite's AUTOINCREMENT fails with SQLITE_FULL once the largest id reaches 2^63-1, which the create handler would answer with 500.
- The directory is a map, so the key order of the JavaScript object (integer-like keys first, then insertion order) is not kept; the front end fills its list in that order.
- Each handler's two statements (the SELECT then DELETE of a delete, the INSERT or UPDATE then SELECT of a create or update) run with no other request in between; interleaving of concurrent requests is not modelled.
- FormDirectory.LowerChar: `toLowerCase` is modelled for ASCII capitals and for the two other characters whose lower case holds a letter the key keeps (U+0130 and U+212A). Every other character is left as it is, which the key then drops as it does its lower case.
- IdParam.ParseInt: a numeral is an unbounded integer. JavaScript's `Number` rounding of numerals beyond 2^53 is not modelled.
