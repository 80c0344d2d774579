# Intern directory — a verified Dafny model

This project models the logic of a small intern directory: a React admin page and a public list page over a list of intern records, plus the serverless API behind them (a Postgres table of interns, a signed session cookie, a create endpoint and a bulk-upsert endpoint). The parts listed under "## Model" are modelled in Dafny and their behaviour is proved; "## Left out" lists the rest.

- **CSV and list text codec** (`InternUtils`, `InternCsv`).
  - The character-at-a-time CSV parser is a `method` with a loop. It is proved equal to a scanner function `Feed`, whose quote rules are proved as lemmas.
  - The escaper and the 11-column serialiser come with a round-trip proof: parsing an export gives back the table of cells.
  - Also modelled: the tag-list splitter with its `|` > `;` > `,` precedence, the `INT-nnn` id generator and the initials helper.
- **Admin page** (`AdminView` for the derived views, `AdminPage` for the component).
  - `AdminPage.Admin` is a class. Its fields are the component's React state, and each handler is a method that updates them.
  - Server replies, the picked file and the answer to `confirm` are parameters. The request each handler sends is returned, so contracts can speak of it.
- **Public list page** (`InternListPage`): its options lists, the trimmed case-insensitive filter, row images, and the class `ListPage` with its handlers and page clamp.
- **Store helpers** (`Db`).
  - Row normalisation.
  - The text-array literal. This is section 8.15.6 of the PostgreSQL manual, "Array Value Input". The model includes a decoder and proves it inverts the encoder.
  - The `ID`-prefixed id format.
  - A `Table` class whose `rows: map<string, DbRow>` is seeded and reset.
- **Sessions** (`Auth`).
  - Token creation and verification, cookie attribute records, and `requireAdminSession`.
  - HMAC, base64url and JSON are fields of a `Crypto` record of functions. The laws they obey are the predicate `Lawful`.
- **Handlers** (`InternsIndex`, `InternsBulk`, `InternRoute`).
  - `InternsIndex` and `InternsBulk` model the status decision order of the create and bulk endpoints, over a `Table`. The bulk upsert loop is a method proved against the function `Run`.
  - `InternRoute` models only the status decision of the single-intern route, `api/interns/[id].ts` lines 19-78. It answers 400 without an id, then 401 without a session; a PUT gets 200, or 404 when no row has the id; a DELETE gets 200; anything else gets 405. The admin page's save request is checked against it.

Shared pieces:
- `Strings`: the JavaScript string operations used, namely trim, split, join, includes, ASCII case, padding and decimal digits.
- `Lists`: filter, a stable insertion sort against a comparator, and sorted option lists.
- `Paging`: the page-count, clamp and slice formula both pages use.
- `Server`: the response object.
- `Http`: requests and replies.
- `Types`: the record shapes.

## Model

| member | source | states |
|---|---|---|
| InternUtils.Initials | src/lib/internUtils.ts:3-9 | at most two characters |
| InternUtils.InitialsOfWords | src/lib/internUtils.ts:3-9 | for a name of two or more space-separated words, the initials are the upper-cased first letters of the first two words |
| InternUtils.TrimItems | src/lib/internUtils.ts:11-15 | `.map(trim).filter(Boolean)` keeps only non-empty trimmed items and never adds any |
| InternUtils.NormalizeList | src/lib/internUtils.ts:11-15 | every item is non-empty, trimmed and comma-free; blank input gives `[]` |
| InternUtils.ParseListCell | src/lib/internUtils.ts:17-27 | blank gives `[]`; items are non-empty and trimmed; when the cell has a bar, no item holds a bar; else with a `;` none holds `;`; else none holds `,` |
| InternUtils.ListCellRoundTrip | src/lib/internUtils.ts:17-27 | a list joined with a space-padded bar (as the export writes it) parses back to the same list, for items that are non-empty, trimmed and bar-free, where a single item also has no `;` or `,` |
| InternUtils.SingleItemWithCommaSplits | src/lib/internUtils.ts:17-27 | a single exported item `a,b` comes back as two items, so that restriction is needed |
| InternUtils.IntSuffix | src/lib/internUtils.ts:31-33 | the `INT-(\d+)` match is a non-empty digit string |
| InternUtils.MaxSuffix | src/lib/internUtils.ts:30-35 | the reduce result bounds every matched suffix and is either the start value or one of the suffixes |
| InternUtils.GeneratedNumber | src/lib/internUtils.ts:36-37 | `INT-` plus the zero-padded number parses back to that number |
| InternUtils.GenerateId | src/lib/internUtils.ts:29-38 | the new id is `INT-` and then only digits, at least three and zero-padded to three, worth the largest suffix plus one; it differs from every existing id |
| InternUtils.IdForShape | src/lib/internUtils.ts:36-37 | `INT-` plus the number zero-padded to three digits: at least seven characters, only digits after `INT-`, worth the number, and no leading zero beyond the padding |
| InternUtils.GeneratedIsNew | src/lib/internUtils.ts:29-38 | any number above the largest suffix gives an id that is not taken |
| InternCsv.FeedAppendsRows | src/lib/internUtils.ts:40-78 | scanning only appends rows, never an empty one, and never lets a `\r` into a cell |
| InternCsv.Finish | src/lib/internUtils.ts:80-85 | a pending cell or row is flushed as a last row; otherwise the rows are returned as they are |
| InternCsv.CsvRows | src/lib/internUtils.ts:40-86 | every parsed row has at least one cell and no cell contains `\r` |
| InternCsv.ParseCsv | src/lib/internUtils.ts:40-86 | the loop, with its skip over a doubled quote, computes exactly the scanner's rows |
| InternCsv.FeedPair | src/lib/internUtils.ts:50-54 | a `""` pair emits one literal quote whatever the quote state |
| InternCsv.FeedToggle | src/lib/internUtils.ts:56-59 | a lone quote toggles quoting and emits nothing |
| InternCsv.FeedComma | src/lib/internUtils.ts:61-65 | an unquoted comma closes the cell |
| InternCsv.FeedNewline | src/lib/internUtils.ts:67-73 | an unquoted newline closes the cell and the row |
| InternCsv.FeedChar | src/lib/internUtils.ts:75-77 | any other character, or a comma or newline inside quotes, is appended to the cell |
| InternCsv.CarriageReturnDropped | src/lib/internUtils.ts:75 | `\r` is dropped even where the escaper left it |
| InternCsv.DoubleQuotes | src/lib/internUtils.ts:91 | doubling quotes never shortens and is the identity on quote-free text |
| InternCsv.EscapeCsv | src/lib/internUtils.ts:88-93 | the value is unchanged unless it holds `"`, `,` or `\n`; then it is wrapped in quotes |
| InternCsv.FeedCell | src/lib/internUtils.ts:40-93 | scanning an escaped cell appends exactly the original value to the current cell |
| InternCsv.FeedRow | src/lib/internUtils.ts:40-93 | scanning an escaped row yields its cells, with the last one still open |
| InternCsv.FeedTable | src/lib/internUtils.ts:40-127 | scanning the `\n`-joined escaped lines yields every row but the last, with the last one open |
| InternCsv.ToCsv | src/lib/internUtils.ts:95-127 | the pushing loop builds the header line and then one line per intern, in order, joined by `\n` |
| InternCsv.HeaderLine | src/lib/internUtils.ts:96-108 | the header cells need no escaping, so line 1 is the 11 names joined by `,` with no imageUrl |
| InternCsv.TableWidth | src/lib/internUtils.ts:109-126 | every line of the export has exactly 11 cells |
| InternCsv.CsvRoundTrip | src/lib/internUtils.ts:40-127 | for records whose fields hold no `\r` and are not made of double quotes alone (`a"b` is covered), parsing the export gives the header row and then each record's 11 cells |
| InternCsv.QuoteCellGrows | src/lib/internUtils.ts:50-54 | a field that is exactly `"` is written `""""` and parses back as `""`, so the round trip excludes cells made of quotes alone |
| InternCsv.SplitEach | src/lib/internUtils.ts:40-86 | one row per line |
| InternCsv.PlainCsv | src/lib/internUtils.ts:40-86 | text without quotes or `\r` parses as its lines, less one trailing empty line, each split on `,` |
| InternImages.ImageUrl | src/lib/internImages.ts:3-6 | empty iff the id is empty; otherwise it is `/interns/`, then the id, then `.webp` |
| InternImages.ImageUrlInjective | src/lib/internImages.ts:5 | distinct ids give distinct URLs |
| Paging.PageCount | src/pages/AdminPage.tsx:176 | at least 1, covers all items, and is the least such count |
| Paging.PageSafe | src/pages/AdminPage.tsx:177 | the requested page capped at the page count |
| Paging.SliceIndex | src/pages/AdminPage.tsx:178-181 | `slice` clamps its bounds into the array |
| Paging.PagedWindow | src/pages/AdminPage.tsx:176-181 | the shown page is the contiguous window starting at `(pageSafe-1)*pageSize`, of at most `pageSize` items |
| Paging.PagedNonEmpty | src/pages/InternListPage.tsx:99-104 | a non-empty list shows a non-empty page for every page number from 1 up |
| Paging.PageOfIndex | src/pages/InternListPage.tsx:99-104 | item `q*size+m` appears on page `q+1` at position `m` |
| AdminView.AllProjectsHas | src/pages/AdminPage.tsx:122 | `flatMap` holds exactly the projects of some intern |
| AdminView.ProjectOptions | src/pages/AdminPage.tsx:121-124 | the project options are strictly sorted (so duplicate-free) and are exactly the projects of some intern |
| AdminView.EmptyQueryMatches | src/pages/AdminPage.tsx:132-149 | with no filters, the empty query keeps every record |
| AdminView.UntrimmedQuery | src/pages/AdminPage.tsx:132 | the admin query is not trimmed: shown on one record, a lone space drops a record without spaces that the public page keeps |
| AdminView.KeyOrder | src/pages/AdminPage.tsx:152-157 | each sort key is antisymmetric and transitive |
| AdminView.ComparatorConsistent | src/pages/AdminPage.tsx:151-165 | the two-level comparator (primary key, negated for `desc` only when non-zero, then the secondary key ascending) is a consistent comparator |
| AdminView.FilteredSpec | src/pages/AdminPage.tsx:131-174 | the table is a permutation of the records passing the role, project and case-insensitive query filters, sorted by the comparator |
| AdminView.ValidateForm | src/pages/AdminPage.tsx:219-226 | `''` iff every check passes; otherwise the first failing message, in the order name, role, email, email pattern |
| AdminView.EmailExamples | src/pages/AdminPage.tsx:223 | the email pattern accepts `a@b.c` and `a@b@c.d`; it refuses a missing `@` or dot, an empty part, or a space |
| AdminView.MergeSpec | src/pages/AdminPage.tsx:244-246 | exactly the elements with the saved id become the saved record; length and every other element are kept |
| AdminView.MergeIdempotent | src/pages/AdminPage.tsx:244-246 | merging the same record twice is merging it once |
| AdminView.MergeAbsent | src/pages/AdminPage.tsx:244-246 | a record whose id is not listed changes nothing |
| AdminView.RemoveByIdSpec | src/pages/AdminPage.tsx:320 | every element with the id is dropped, every other one kept, and nothing changes when the id is absent |
| AdminView.AddTagSpec | src/pages/AdminPage.tsx:327-329 | the tag is present afterwards, is appended at the end when new, and adding twice is adding once |
| AdminView.RemoveTagSpec | src/pages/AdminPage.tsx:340 | every equal tag is dropped, the others kept in order, and removing undoes adding a new tag |
| AdminView.HeaderKeys | src/pages/AdminPage.tsx:388 | one key per header cell |
| AdminView.IndexOf | src/pages/AdminPage.tsx:389 | -1 iff the key is absent; otherwise its first position |
| AdminView.GetCell | src/pages/AdminPage.tsx:390-393 | the cell under the first column with the key, or `''` when the column is missing or the row is short |
| AdminView.ImportRecord | src/pages/AdminPage.tsx:394-413 | a blank trimmed id becomes undefined; each of name, role, email, phone, imageUrl, manager, startDate, performance and department is its trimmed lower-case-keyed cell; projects and skills go through `parseListCell` |
| AdminView.DataRecords | src/pages/AdminPage.tsx:394 | one record per data row |
| AdminView.PlanImport | src/pages/AdminPage.tsx:383-413 | fewer than two parsed rows means no data rows; otherwise one record per row after the header |
| AdminView.ImportRows | src/pages/AdminPage.tsx:388-413 | under the export's header keys each exported row imports as its record |
| AdminView.ExportThenImport | src/pages/AdminPage.tsx:383-448 | importing an export sends, in order, exactly the exported records (their image URLs aside) |
| AdminPage.JoinSpaced | src/pages/AdminPage.tsx:203 | joining with `, ` is joining the space-prefixed items with `,` |
| AdminPage.NormalizeJoined | src/pages/AdminPage.tsx:203-207 | `normalizeList(items.join(', '))` gives the items back when they are non-empty, trimmed and comma-free |
| AdminPage.EditRoundTrip | src/pages/AdminPage.tsx:194-271 | opening a record in the edit form and saving it untouched gives back the same record |
| AdminPage.PersistAsWrittenRefused | src/pages/AdminPage.tsx:232-237 | the save request as written (a POST to `/api/interns/{id}`) is answered 405 by the single-intern route |
| AdminPage.PersistRequestServed | src/pages/AdminPage.tsx:232-237 | the corrected save request (a PUT to the same path) is served by the single-intern route: 200 when the row exists, 404 otherwise |
| AdminPage.Admin.constructor | src/pages/AdminPage.tsx:37-59 | the initial state: no interns, name/asc/role sort, no filters, page 1 of size 5, form closed and empty, no drafts |
| AdminPage.Admin.Load | src/pages/AdminPage.tsx:62-70 | the list is replaced when the reply carries one |
| AdminPage.Admin.OpenAddModal | src/pages/AdminPage.tsx:188-192 | not editing, empty form, no error, form shown |
| AdminPage.Admin.OpenEditModal | src/pages/AdminPage.tsx:194-212 | editing the record, its fields in the form with the lists joined by `, `, no error, form shown |
| AdminPage.Admin.CloseModal | src/pages/AdminPage.tsx:214-217 | form hidden, emptied and its error cleared |
| AdminPage.Admin.PersistIntern | src/pages/AdminPage.tsx:232-247 | sends the corrected save request, a PUT to the per-id path where the source sends a POST (see Findings); on success the server's record is merged by id, on failure the list is kept and `data.error` or the fallback message is returned |
| AdminPage.Admin.SubmitForm | src/pages/AdminPage.tsx:249-310 | a failed check is shown and nothing is sent; an edit saves the form's record through the corrected PUT, a create posts it and puts the server's record first; success closes the form, failure sets only the error |
| AdminPage.Admin.SubmitEdit | src/pages/AdminPage.tsx:257-277 | the edit branch: sends the trimmed, normalised record under the edited id, through the corrected PUT |
| AdminPage.Admin.SubmitCreate | src/pages/AdminPage.tsx:278-307 | the create branch: posts the record without an id and prepends the reply |
| AdminPage.Admin.DeleteIntern | src/pages/AdminPage.tsx:312-322 | no request unless confirmed, no change unless the server agrees; then every element with the id goes, and the expanded row closes iff it was this one |
| AdminPage.Admin.UpdateAndPersist | src/pages/AdminPage.tsx:330-333 | the optimistic local replacement followed by the corrected PUT save, whose failure is ignored |
| AdminPage.Admin.AddProject | src/pages/AdminPage.tsx:324-335 | a blank draft does nothing; otherwise the trimmed draft is added idempotently, saved through the corrected PUT, and the draft cleared |
| AdminPage.Admin.RemoveProject | src/pages/AdminPage.tsx:337-346 | the project is removed locally and the record saved through the corrected PUT |
| AdminPage.Admin.AddSkill | src/pages/AdminPage.tsx:348-359 | as `AddProject`, over skills and skill drafts |
| AdminPage.Admin.RemoveSkill | src/pages/AdminPage.tsx:361-370 | as `RemoveProject`, over skills |
| AdminPage.Admin.TriggerImport | src/pages/AdminPage.tsx:372-375 | the import error is cleared |
| AdminPage.Admin.HandleImport | src/pages/AdminPage.tsx:377-437 | no file does nothing; no data rows sets the error and sends nothing; otherwise one bulk request with every row's record, then the server's list replaces the page's, or a failure sets the error |
| AdminPage.Admin.Export | src/pages/AdminPage.tsx:439-448 | the downloaded text is `toCSV(interns)` |
| AdminPage.Admin.ResetSampleData | src/pages/AdminPage.tsx:450-459 | asks the server to reseed and resets expansion, page, filters and query |
| AdminPage.Admin.HandleQueryChange | src/pages/AdminPage.tsx:461-464 | sets the query and returns to page 1 |
| AdminPage.Admin.HandleRoleFilterChange | src/pages/AdminPage.tsx:466-469 | sets the role filter and returns to page 1 |
| AdminPage.Admin.HandleProjectFilterChange | src/pages/AdminPage.tsx:471-474 | sets the project filter and returns to page 1 |
| AdminPage.Admin.HandlePageSizeChange | src/pages/AdminPage.tsx:476-479 | sets the page size and returns to page 1 |
| AdminPage.ResetShowsFirstPage | src/pages/AdminPage.tsx:176-181 | on page 1 the table shows the start of the filtered, sorted list, and is non-empty when anything matches |
| AdminPage.RemoveByIdTwice | src/pages/AdminPage.tsx:320 | deleting twice is deleting once |
| InternListPage.RoleOptions | src/pages/InternListPage.tsx:65-68 | strictly sorted, and exactly the roles of some intern |
| InternListPage.DepartmentOptions | src/pages/InternListPage.tsx:70-73 | strictly sorted, without `''`, and exactly the non-empty departments |
| InternListPage.NonEmptyFieldsSuffice | src/pages/InternListPage.tsx:87-95 | dropping empty fields before the search changes nothing for a non-empty query |
| InternListPage.FilteredMeaning | src/pages/InternListPage.tsx:75-97 | a record is shown iff it is listed, passes the role and department filters (`'all'` meaning any), and the trimmed lower-cased query is empty or occurs in its name, email, role, id or department |
| InternListPage.FilteredInOrder | src/pages/InternListPage.tsx:79-96 | the shown records are a subsequence of the list, in its order |
| InternListPage.BlankQueryKeepsAll | src/pages/InternListPage.tsx:76-86 | a blank query filters like the empty one |
| InternListPage.ClearedShowsAll | src/pages/InternListPage.tsx:132-137 | with the filters cleared every record is shown |
| InternListPage.RowImage | src/pages/InternListPage.tsx:145 | the record's own image when set, else the URL derived from its id; empty only when both are |
| InternListPage.Rows | src/pages/InternListPage.tsx:139-149 | one row per shown record, carrying its id and image |
| InternListPage.ListPage.constructor | src/pages/InternListPage.tsx:36-43 | no interns, page 1 of size 20, empty query, both filters `'all'` |
| InternListPage.ListPage.Load | src/pages/InternListPage.tsx:46-63 | an ok reply's list (or `[]` when it has none) replaces the list; a failed load leaves it; nothing else changes |
| InternListPage.ListPage.HandleQueryChange | src/pages/InternListPage.tsx:112-115 | sets the query and returns to page 1 |
| InternListPage.ListPage.HandleRoleFilterChange | src/pages/InternListPage.tsx:117-120 | sets the role filter and returns to page 1 |
| InternListPage.ListPage.HandleDepartmentFilterChange | src/pages/InternListPage.tsx:122-125 | sets the department filter and returns to page 1 |
| InternListPage.ListPage.HandlePageSizeChange | src/pages/InternListPage.tsx:127-130 | sets the page size and returns to page 1 |
| InternListPage.ListPage.ClearFilters | src/pages/InternListPage.tsx:132-137 | empty query, both filters `'all'`, page 1, and then every record is in view |
| InternListPage.ListPage.ClampPage | src/pages/InternListPage.tsx:106-110 | a page past the last is pulled back to the last; the page is then its own safe page |
| Db.ToIntern | api/_db.ts:78-93 | id, name, role and email are copied; null text becomes `''` and null lists `[]`; a null or empty date becomes `''` |
| Db.NullIfEmpty | api/interns/index.ts:77 | an empty date is sent as null, any other as itself |
| Db.EscapeChar | api/_db.ts:95-96 | only a backslash or a quote gains a leading backslash |
| Db.ReplaceAllAppend | api/_db.ts:96 | a global replace distributes over concatenation |
| Db.EscapeInOnePass | api/_db.ts:95-96 | the two chained replaces equal escaping each character once, so `\` becomes `\\` and `"` becomes `\"` |
| Db.QuotedItems | api/_db.ts:100 | one quoted escaped item per list item |
| Db.ToTextArrayLiteral | api/_db.ts:98-101 | `{}` for a missing or empty list; otherwise braces around the quoted items joined by `,` |
| Db.ParseJoined | api/_db.ts:98-101 | the decoder reads the joined quoted items back |
| Db.TextArrayRoundTrip | api/_db.ts:95-101 | un-escaping the literal gives back the list exactly |
| Db.TextArrayInjective | api/_db.ts:95-101 | different lists give different literals |
| Db.FormatInternId | api/_db.ts:133-134 | `ID` followed by only digits worth the number, at least two of them, with a leading zero only as padding up to two |
| Db.NumberOf | api/_db.ts:145 | a number exactly for digit strings |
| Db.MaxIdNumber | api/_db.ts:144-147 | 0 when no id was found; else the number after the two-letter prefix |
| Db.IdNumberRoundTrip | api/_db.ts:133-147 | reading the number back from a formatted id gives that number |
| Db.FormatInternIdInjective | api/_db.ts:133-134 | different numbers give different ids |
| Db.SeedRowLists | api/_db.ts:112-122 | a seed record's lists survive the literal encoding |
| Db.SeedRowReadBack | api/_db.ts:78-122 | a seeded row reads back as the seed record |
| Db.SeedTableIsSeed | api/_db.ts:103-126 | seeding distinct ids gives one row per record, each reading back as its record |
| Db.SeedDuplicate | api/_db.ts:106-125 | a repeated seed id means the seed is not duplicate-free (the insert fails) |
| Db.Table.constructor | api/_db.ts:103-105 | the table holds the given rows |
| Db.Table.SeedIfEmpty | api/_db.ts:103-126 | a non-empty table is untouched; an empty one gets the whole seed, or on a failing insert the rows before it |
| Db.Table.ResetSeed | api/_db.ts:128-131 | after the delete the table is exactly the seed when every insert succeeds |
| Db.LeastIdExists | api/interns/index.ts:35 | every non-empty set of ids has a least one in the `ORDER BY id` order |
| Db.SortedIds | api/interns/index.ts:35 | the ids in strictly ascending order, each once |
| Db.ListById | api/interns/index.ts:33-41 | one record per row |
| Db.ListByIdSpec | api/interns/index.ts:33-41 | the GET list is every row, normalised, in ascending id order |
| Auth.NowSeconds | api/_auth.ts:29 | `Math.floor(Date.now() / 1000)` |
| Auth.GetSecret | api/_auth.ts:8-14 | throws iff `SESSION_SECRET` is unset or empty; otherwise returns it |
| Auth.NewSession | api/_auth.ts:27-30 | subject `admin`, expiry eight hours from now |
| Auth.CreateSessionToken | api/_auth.ts:25-34 | throws iff the secret is missing |
| Auth.TokenParts | api/_auth.ts:39-40 | the first two `.`-separated parts, both non-empty; extra segments are ignored |
| Auth.SplitTwo | api/_auth.ts:39-40 | a token made of two non-empty dot-free parts splits back into them |
| Auth.CompareAsWritten | api/_auth.ts:41-45 | true iff equal; throws iff the UTF-16 lengths agree but the byte lengths differ |
| Auth.Compare | api/_auth.ts:41-45 | answers exactly whether the signatures are equal |
| Auth.Unexpired | api/_auth.ts:46-55 | keeps the payload iff it parsed and `exp` is not before now |
| Auth.VerifySessionTokenAsWritten | api/_auth.ts:36-56 | a missing or empty token gives `null` before the secret is read |
| Auth.NonAsciiSignatureThrows | api/_auth.ts:41-45 | a same-length signature with a non-ASCII character makes the verifier as written throw |
| Auth.VerifySessionToken | api/_auth.ts:36-56 | `null` for no token; throws iff the secret is missing; a session only for a well-formed, correctly signed, unexpired token, and always for one |
| Auth.TokenRoundTrip | api/_auth.ts:25-56 | a created token verifies to its own session at any time up to and including its expiry |
| Auth.TokenExpires | api/_auth.ts:25-56 | after the expiry it verifies to `null` |
| Auth.SessionCookieFor | api/_auth.ts:75-87 | httpOnly, sameSite strict, path `/`, eight hours, secure iff production |
| Auth.ClearedCookie | api/_auth.ts:89-101 | the same attributes with an empty value and max age 0 |
| Auth.ClearedIsEmptiedSession | api/_auth.ts:75-101 | clearing is setting with an emptied value and zero age |
| Auth.SetSessionCookie | api/_auth.ts:75-87 | the response carries the session cookie |
| Auth.ClearSessionCookie | api/_auth.ts:89-101 | the response carries the cleared cookie |
| Auth.SessionToken | api/_auth.ts:58-61 | the cookie's value when present |
| Auth.RequireAdminSession | api/_auth.ts:63-73 | with the corrected verifier: 401 `Unauthorized` iff there is no valid session; otherwise the response is untouched |
| Server.Response.constructor | api/interns/index.ts:26-29 | a fresh response |
| Server.Response.Send | api/interns/index.ts:60-63 | status and JSON body are set |
| Server.Response.SetCookie | api/_auth.ts:77-86 | the cookie header is set |
| Http.ErrorMessage | src/pages/AdminPage.tsx:239-240 | `data?.error` when non-empty, else the fallback |
| Http.InternPath | src/pages/AdminPage.tsx:233 | `/api/interns/` followed by the id |
| InternsIndex.Fields | api/interns/index.ts:46-58 | the posted record's fields, or none without a body |
| InternsIndex.InsertedRow | api/interns/index.ts:65-85 | the new row has the given id, no image, and a null date when the date is empty |
| InternsIndex.InsertedReadBack | api/interns/index.ts:65-88 | the 201 body is the posted record with missing strings `''` and missing lists `[]` |
| InternsIndex.ServeList | api/interns/index.ts:33-41 | seeds an empty table, then answers 200 iff the table was non-empty or every seed insert succeeds, with every row in id order; a failing seed answers 500 with the driver's message and leaves the seed rows inserted before the failure |
| InternsIndex.CreateIntern | api/interns/index.ts:46-88 | a falsy name, role or email gives 400 and no insert; otherwise a fresh id inserts one row and answers 201; a failing insert answers 500 |
| InternsIndex.Handle | api/interns/index.ts:26-97 | GET needs no session; with the corrected verifier, any other verb is 401 without one; an authenticated verb other than POST is 405; a thrown error is 500; GET lists the table, is 200 iff the table was non-empty or the seed inserts all succeed, and otherwise 500 with the driver's message and a seeded prefix kept; an authenticated POST is 400 on a missing name, role or email, 201 with the one inserted row on a fresh id and accepted date, else 500 with the table unchanged; only GET and a 201 change the table |
| InternsIndex.CreateAddsOneRow | api/interns/index.ts:65-85 | a create with a fresh id adds exactly one row and keeps rows keyed by id |
| InternsBulk.Stored | api/interns/bulk.ts:41-70 | the written row takes every listed field and keeps the existing image |
| InternsBulk.RecordId | api/interns/bulk.ts:41 | the record's own id when non-empty, else a fresh one |
| InternsBulk.Step | api/interns/bulk.ts:40-72 | once failed nothing changes; a refused row stops the loop |
| InternsBulk.Run | api/interns/bulk.ts:39-72 | a complete run saves one record per input |
| InternsBulk.UpsertAll | api/interns/bulk.ts:39-72 | the loop leaves the table and the saved list of `Run`, stopping at a failing row |
| InternsBulk.RunStopped | api/interns/bulk.ts:40-72 | after a failing row the later rows change nothing |
| InternsBulk.Handle | api/interns/bulk.ts:20-75 | with the corrected verifier, the session comes first (401), then the method (405), then a non-empty list (400); a 200 carries every saved record and the overlaid table; an authenticated POST with a non-empty list leaves the table as the upsert run says, and either answers 200 with every saved record or lets the driver's error escape with the rows before it kept and the response untouched |
| InternsBulk.Ids | api/interns/bulk.ts:41 | every id a record names |
| InternsBulk.LastWithIsLast | api/interns/bulk.ts:41-70 | the record that decides a key is the last one naming it |
| InternsBulk.Overlay | api/interns/bulk.ts:41-70 | the keys afterwards are the old keys plus the named ids |
| InternsBulk.RunKeepsImages | api/interns/bulk.ts:41-70 | no row is lost, no image changes, and rows stay keyed by id |
| InternsBulk.FailureKeepsPrefix | api/interns/bulk.ts:40-72 | a failed run leaves exactly the table of the rows before the first refused one |
| InternsBulk.OverlayStep | api/interns/bulk.ts:41-70 | a later duplicate id overwrites an earlier one |
| InternsBulk.RunOverlay | api/interns/bulk.ts:39-72 | with every id given and every date accepted, the table is the old one overlaid with each id's last record |
| InternsBulk.OverlayTwice | api/interns/bulk.ts:41-70 | overlaying twice is overlaying once |
| InternsBulk.BulkSaved | api/interns/bulk.ts:39-74 | the saved list has one entry per record, in order, each the stored form of its record |
| InternsBulk.BulkIdempotent | api/interns/bulk.ts:39-74 | re-running id-bearing rows leaves the same table and the same saved list |
| InternsBulk.UnidentifiedAddsRow | api/interns/bulk.ts:41 | a row without an id adds a new row on every run |
| Lists.Filter | src/pages/InternListPage.tsx:79-96 | keeps exactly the elements that pass, as a sub-multiset |
| Lists.FilterSubseq | src/pages/InternListPage.tsx:79-96 | the filtered list is a subsequence, in order |
| Lists.SortPerm | src/pages/AdminPage.tsx:151-165 | sorting permutes the list |
| Lists.SortSorted | src/pages/AdminPage.tsx:151-165 | with a consistent comparator the result is sorted |
| Lists.Options | src/pages/InternListPage.tsx:65-73 | `Array.from(new Set(xs)).sort()` is strictly sorted and holds exactly the values |
| Lists.StrictlySortedUnique | src/pages/InternListPage.tsx:65-73 | two strictly sorted lists of the same values are equal |

## Left out

- I/O is left out. `fetch`, `FileReader`, `Blob`/`URL` downloads, `confirm` and the clock are inputs: server replies, the file text, the confirmation and `nowMs` are parameters. The order of asynchronous completions is not modelled; each handler applies its reply at once.
- HMAC-SHA256, base64url, `JSON.stringify`/`parse` and `timingSafeEqual`'s constant time are not modelled. They are the fields of the `Crypto` record, constrained only by `Auth.Lawful`: decoding inverts encoding, the encoding has no `.`, and signatures are non-empty base64url.
- The `cookie` library's `parse`/`serialize` is not modelled. Cookies are a map and an attribute record.
- SQL is not executed. `ensureTable`, the statements and `ON CONFLICT` are a `map<string, DbRow>` updated by the handlers. The `ORDER BY id` order and the regex query of `getMaxInternIdNumber` are taken as given, and only the query's result is interpreted.
- `getNextId` and `toTextArray` are not defined in `api/_db.ts`. `getNextId` is the parameter `nextId`, a function of the table. `toTextArray` is taken as passing lists through.
- Database errors are a driver message `dbError`. A rejected date is modelled by `dateOk`, and the `DATE` column's read-back by `isoDay`.
- `localeCompare`, `Array.prototype.sort`'s default order and SQL's `ORDER BY` are all the code-point order `Strings.LexLess` (a Dafny `char` is a Unicode scalar value). Case mapping is ASCII only.
- Strings.LexLess: JavaScript compares UTF-16 code units, so a character above U+FFFF (high surrogate 0xD800-0xDBFF) sorts before U+E000-U+FFFF there, but after them in the model; the two orders agree on every string without supplementary characters.
- Dates are left out: `formatDate`, `addDays`, `getTimePeriod` and the `Date` conversion in `toIntern` are outside the model. Only the `isoDay` parameter stands for the conversion.
- AdminPage.Admin.PersistIntern: sends the corrected PUT, not the source's POST, which the per-id route answers 405 (see Findings); SubmitForm, SubmitEdit, UpdateAndPersist, AddProject, RemoveProject, AddSkill and RemoveSkill save through it.
- Auth.RequireAdminSession: uses the corrected verifier, so a same-length non-ASCII signature is answered 401 where the source's comparison throws (see Findings).
- InternsIndex.Handle: with the corrected verifier, answers 401 where the source's throwing comparison is caught and answered 500.
- InternsBulk.Handle: with the corrected verifier, answers 401 where the source's throwing comparison escapes the handler.
- InternUtils.GenerateId: does not model the loss of precision of `Number(...)` on suffixes beyond 2^53.
- InternsBulk.Handle: does not model the platform's 500 reply when a bulk row throws; the model returns the escaping error instead.
- `api/login.ts`, `api/logout.ts`, `api/session.ts` and `api/seed.ts` are thin wrappers over bcrypt, the cookie helpers and `resetSeed`, and are not part of this model.
- The admin page's login and logout flow, its session effect and `departmentCount` are view-only and not modelled.
- The single-intern route `api/interns/[id].ts` is modelled only as its status decision (`InternRoute.Status`), which is enough to check the admin page's save request against it.
- Rendering components are not modelled.
- InternCsv.CsvRoundTrip: proved only for fields without `\r` that are not made of double quotes alone, because the parser does not read such a field's written form back unchanged (a lone `"` comes back as `""`) and drops `\r` (`InternCsv.QuoteCellGrows`, `InternCsv.CarriageReturnDropped`).

## Findings

| source | as written | input that shows it | evidently intended | confidence | as-written member | corrected member |
|---|---|---|---|---|---|---|
| src/pages/AdminPage.tsx:232-237 | `persistIntern` sends `POST /api/interns/{id}`, while the single-intern route serves only `PUT` and `DELETE` and answers anything else 405 (api/interns/[id].ts:35-78) | editing any record and saving with a valid session | save with `PUT`, which updates the row and answers 200, or 404 when the row is gone | not executed | AdminPage.PersistAsWrittenRefused | AdminPage.PersistRequestServed |
| api/_auth.ts:41-45 | the length guard compares UTF-16 lengths, but `timingSafeEqual` needs equal byte lengths and throws outside any `try` | a cookie `encoded.` + `é` + the expected signature without its first character | answer `null` for every signature that differs from the expected one | not executed | Auth.NonAsciiSignatureThrows | Auth.VerifySessionToken |
