# PillPack schedule and admin logic in Dafny

PillPack is a small Flask app. Users record medicines, each with a dose, a
time-of-day bucket (`Morning`, `Afternoon` or `Night`) and an active date
range. The app shows the medicines active today, grouped by bucket, on a
dashboard and as a PDF. An administrator can search the users and delete
users and medicines.

This project models the logic of the app's view functions. The SQLite tables
become sequences of records held in rowid order: the store's invariant
(`App.TablesValid`) requires ids to increase from front to back and to stay
below the AUTOINCREMENT counter, and every route that changes a table is proved
to keep it. The Flask session, the
request arguments and today's date become parameters. Every redirect or
rendered page becomes a value of `App.Response`.

Modules:

- `Records`: the rows of `medicines` and `users`, the session, and the two
  guards (`'user_id' in session`, and `is_admin == 1`).
- `Sequences`: `Filter`, which keeps the rows that satisfy a predicate, in
  order. It models both a `WHERE` clause and a loop that appends the rows it
  keeps.
- `TextOrder`: how SQLite compares TEXT under its default BINARY collation.
  It is proved a total order. On `YYYY-MM-DD` strings it is proved to equal
  calendar order. Reflexivity and totality are not needed by other proofs;
  they are there to complete that statement.
- `Schedule`: the date-range predicate shared by the dashboard and the PDF,
  and the bucket loop (`Classify`). The loop is proved to produce exactly the
  three per-bucket filters.
- `Report`: the PDF's element list, and `add_section` as a method of a
  `PdfDocument` object that appends in place. A reader function (`ReadReport`)
  parses a report back. The round-trip lemma proves it recovers each
  bucket's entry texts, `- name (dosage)`, in order. Ids, owners, dates and
  `time` are not in the report. Two different (name, dosage) pairs can give
  the same text, so the report does not determine the rows.
- `UserSearch`: the admin search, `username LIKE '%q%'`, which folds case
  for ASCII letters only.
- `Tables`: what the UPDATE and DELETE statements do to the tables, and
  how appending a row extends a schedule. The INSERT itself is stated in
  `App.Database.AddMedicine`.
- `App`: the routes, as methods of a `Database` object that holds the two
  tables and their AUTOINCREMENT counters.

Points where the app behaves more simply than a pill-schedule app might be
expected to, all kept as the code has them:

- The `time` column holds the bucket name (`Morning`, `Afternoon` or
  `Night`), not a clock time. A PDF line is `- name (dosage)`, with no time.
- Dates are never parsed. They are compared as text, so there is no
  invalid-date error. A malformed date is simply compared character by
  character.
- A row whose `time` is not one of the three bucket names is dropped from
  every bucket without a report. The model keeps this behaviour.
- The `/delete/<id>` route checks neither login nor ownership.
  `/edit_medicine/<id>` checks login but not ownership. The model keeps both
  as written.

## Model

| member | source | states |
|---|---|---|
| `Records.IsSignedIn` | app.py:126 | the login guard `'user_id' in session` shared by the user routes; its meaning is stated by the route contracts below |
| `Records.IsAdmin` | app.py:167 | the admin guard: signed in and `is_admin == 1`; the same test guards app.py:209 and app.py:234 |
| `Sequences.FilterKeepsAscending` | app.py:220-223 | deleting rows keeps the remaining ids in increasing order; every DELETE and every query result is such a filter |
| `Sequences.Filter` | app.py:135-154 | keeps exactly the elements that satisfy the predicate, and no more elements than it was given; it stands for each `WHERE` clause and for each loop that appends the rows it keeps |
| `TextOrder.LexLe` | app.py:137 | the TEXT `<=` of SQLite's BINARY collation: a prefix sorts first, otherwise the first differing character decides; its order properties are the `LexLe*` lemmas below |
| `Schedule.IsActive` | app.py:137 | the WHERE clause of the schedule query, `user_id = ? AND start_date <= ? AND end_date >= ?`; the PDF uses the same clause (app.py:301) |
| `Schedule.TodaysMedicines` | app.py:135-138 | a row is returned exactly when it is in the table, belongs to the session user, and `start_date <= today <= end_date` in SQLite text order; the PDF sends the same query (app.py:299-302) |
| `Schedule.TodaysMedicinesStable` | app.py:135-140 | the query keeps table order: on a concatenation of tables it returns the two results one after the other |
| `Schedule.InvertedRangeNeverActive` | app.py:137 | a row whose end date sorts before its start date is never in anybody's schedule |
| `Schedule.ActiveMeansCalendarRange` | app.py:130-138 | when all three dates are `YYYY-MM-DD` strings, the text comparisons select exactly the rows whose inclusive calendar range covers today |
| `Schedule.Classify` | app.py:144-154 | the loop returns, for each bucket, exactly the input rows whose `time` equals the bucket name, in input order; the PDF runs the same loop (app.py:315-325) |
| `Schedule.BucketMembership` | app.py:148-154 | each input row is in the bucket its `time` names and in no other; a row with any other `time` is in no bucket |
| `Schedule.BucketsPartition` | app.py:148-154 | the three buckets together hold each recognised row as often as the input does, and their lengths add up to the number of recognised rows |
| `Schedule.SameBucketKeepsInsertionOrder` | app.py:148-154 | two Afternoon rows inserted as R1, R2 give the Afternoon bucket `[R1, R2]` and leave the other buckets empty |
| `TextOrder.LexLeReflexive` | app.py:137 | every text is `<=` itself |
| `TextOrder.LexLeAntisymmetric` | app.py:137 | texts that are `<=` each other are equal |
| `TextOrder.LexLeTransitive` | app.py:137 | text `<=` is transitive |
| `TextOrder.LexLeTotal` | app.py:137 | any two texts are related one way or the other |
| `TextOrder.LexLeConcat` | app.py:137 | when two texts start with blocks of the same length, those blocks decide the comparison unless they are equal |
| `TextOrder.DigitsOrder` | app.py:130 | on digit strings of one length, text order equals numeric order |
| `TextOrder.NumberInjective` | app.py:130 | digit strings of one length with equal value are equal |
| `TextOrder.IsoDateOrderIsCalendarOrder` | app.py:130-138 | comparing two `YYYY-MM-DD` strings as text gives (year, month, day) order |
| `Report.Bold` | app.py:328 | the heading markup `<b>title</b>` |
| `Report.EntryText` | app.py:333 | the entry line `- name (dosage)` of one medicine |
| `Report.Section` | app.py:327-339 | what one call of `add_section` appends; its layout is stated by `Report.SectionLayout` |
| `Report.ScheduleReport` | app.py:312-343 | the title followed by the Morning, Afternoon and Night sections; its reading is stated by `Report.ReportRoundTrip` |
| `Report.Entries` | app.py:333 | one entry text per medicine, `- name (dosage)`, in bucket order |
| `Report.Lines` | app.py:331-334 | one line block per medicine, carrying its entry text, in bucket order |
| `Report.LinesSnoc` | app.py:332-333 | appending a medicine to a bucket appends exactly its line |
| `Report.SectionLayout` | app.py:327-339 | a section is its bold heading, then one line per bucket entry in order, or, exactly when the bucket is empty, the single "No medicines" placeholder |
| `Report.EmptyNightEndsWithPlaceholder` | app.py:335-343 | an empty Night bucket makes the report end with the Night heading immediately followed by "No medicines" |
| `Report.ReadLinesOfLines` | app.py:331-334 | reading the line run of a non-empty section gives back its entry texts and stops at the next heading |
| `Report.ReadSectionOfSection` | app.py:327-339 | reading a section back gives exactly its bucket's entry texts, empty for a placeholder |
| `Report.ReadReportOfSections` | app.py:312-343 | a title followed by three readable sections reads back as their three entry lists |
| `Report.ReportRoundTrip` | app.py:312-343 | the report is the title, then the Morning, Afternoon and Night sections in that order and nothing else, and each section lists exactly its bucket's entry texts in bucket order |
| `Report.PdfDocument.constructor` | app.py:308 | the element list starts empty |
| `Report.PdfDocument.Append` | app.py:312 | appending adds one block at the end and changes nothing else |
| `Report.PdfDocument.AddSection` | app.py:327-339 | `add_section` appends exactly that bucket's section to the elements already there |
| `UserSearch.Lower` | app.py:178 | ASCII upper-case letters become lower-case; every other character is unchanged |
| `UserSearch.Upper` | app.py:178 | ASCII lower-case letters become upper-case; every other character is unchanged |
| `UserSearch.LikeContains` | app.py:178-179 | `username LIKE '%q%'`: the lower-cased query occurs in the lower-cased username; its case behaviour is stated by `UserSearch.MatchDependsOnlyOnLowered` |
| `UserSearch.ContainsIff` | app.py:178-179 | the substring test holds exactly when the query occurs at some offset of the username |
| `UserSearch.SearchUsers` | app.py:176-182 | with no query or an empty one, all users in table order; otherwise exactly the users whose username contains the query, ignoring ASCII case |
| `UserSearch.EmptyQueryMatchesAll` | app.py:176-182 | the pattern `'%%'` matches every username, so skipping the WHERE clause for an empty query gives the same list |
| `UserSearch.SearchUsersStable` | app.py:178-184 | the search keeps table order |
| `UserSearch.LowerOfUpper` | app.py:178 | lower-casing after upper-casing is lower-casing |
| `UserSearch.LowerIdempotent` | app.py:178 | lower-casing twice is lower-casing once |
| `UserSearch.MatchDependsOnlyOnLowered` | app.py:178 | any change of ASCII case in the query or the username that leaves their lower-cased forms equal leaves the match unchanged |
| `UserSearch.CaseInsensitive` | app.py:178 | upper- or lower-casing the whole query, or upper-casing the whole username, does not change the match |
| `UserSearch.UpperQueryMatchesLowerName` | app.py:178 | the query `ALICE` matches the username `alice01` |
| `UserSearch.NonAsciiCaseMatters` | app.py:178 | letters outside ASCII are compared exactly: `É` does not match `é` |
| `Tables.DeleteMedicineRows` | app.py:240 | after `DELETE ... WHERE id=?` a row remains exactly when it was there and has another id; `/delete` runs the same statement (app.py:285) |
| `Tables.DeleteOwnedRows` | app.py:220 | after `DELETE ... WHERE user_id=?` a row remains exactly when it was there and has another owner |
| `Tables.DeleteUserRows` | app.py:223 | after `DELETE FROM users WHERE id=?` a user remains exactly when it was there and has another id |
| `Tables.UpdateRows` | app.py:369-373 | every row with the id gets the new name, dosage and time and keeps all its other columns; every other row is unchanged; the length is unchanged |
| `Tables.FindMedicine` | app.py:381-382 | returns a row of the table with that id, and nothing exactly when no row has that id |
| `Tables.DeleteMedicineRemovesAtMostOne` | app.py:240 | with unique ids, deleting by id removes one row if the id is present and none otherwise |
| `Tables.DeleteOwnedKeepsOtherSchedules` | app.py:220 | removing one user's medicines leaves every other user's schedule, for every day, as it was |
| `Tables.InsertExtendsSchedule` | app.py:267-270 | an inserted row joins the end of a schedule exactly when it is active for that user and day |
| `Tables.Ids` | app.py:369-373 | a helper of `Tables.UpdateKeepsSchedule`: the ids of a list of rows, one per row, in order |
| `Tables.IdsAppend` | app.py:369-373 | a helper of `Tables.UpdateKeepsSchedule`: ids of a concatenation are the concatenated ids |
| `Tables.UpdateKeepsSchedule` | app.py:369-373 | editing never moves a row into or out of anybody's schedule for any day: the ids of the active rows are the same before and after |
| `Tables.UpdateKeepsAscending` | app.py:369-373 | editing keeps the medicine ids, so they stay in increasing rowid order |
| `App.PdfListsEveryScheduledMedicine` | app.py:299-343 | the PDF reads back as the three buckets of today's rows, and it has as many entries as there are active rows with a recognised bucket |
| `App.Database.constructor` | app.py:23-42 | the store starts from given tables whose ids increase in rowid order and stay below their AUTOINCREMENT counters |
| `App.Database.Dashboard` | app.py:124-161 | without a session, a redirect to login; otherwise the page shows the three buckets of the session user's rows active today, each in increasing id order as the rowid scan returns them |
| `App.Database.GeneratePdf` | app.py:289-347 | without a session, a redirect to login; otherwise the title and the three sections, Morning, Afternoon, Night, of the same buckets the dashboard shows |
| `App.Database.AdminDashboard` | app.py:164-201 | non-admins are redirected to login; an admin sees the search result, all medicines, and both counts, the lists in increasing id order |
| `App.Database.DeleteUser` | app.py:205-228 | non-admins are redirected and nothing changes; deleting one's own account is refused and nothing changes; otherwise that user's medicines and that user row are removed, and every other row stays in place |
| `App.Database.DeleteMedicineAdmin` | app.py:231-244 | non-admins are redirected and nothing changes; otherwise the medicine with that id is removed and the rest stays, so exactly one row goes when the id is present and none otherwise |
| `App.Database.AddMedicine` | app.py:252-277 | without a session, nothing changes; otherwise one row with a fresh id, the session user as owner and the form values is appended, and the counter advances |
| `App.Database.Delete` | app.py:281-288 | with or without a session, the medicine with that id is removed and the rest stays, so exactly one row goes when the id is present and none otherwise |
| `App.Database.EditMedicineForm` | app.py:380-385 | without a session, a redirect to login; otherwise the row with that id, or none when no row has it |
| `App.Database.EditMedicine` | app.py:354-378 | without a session, nothing changes; otherwise only name, dosage and time of the row with that id change |

## Left out

- Registration, login and logout (app.py:50-120): password hashing with werkzeug is foreign code. The unique-username error needs the store's constraint check. The store therefore starts from given tables. Users are never inserted.
- The store itself: connections, commits and schema creation (app.py:19-47). The tables are sequences in rowid order, and a query without `ORDER BY` is taken to return rows in that order.
- Flask routing, templates and the GET paths that only render a form (app.py:82, 111, 277). A redirect or a page is a `Response` value.
- `datetime.today()` (app.py:130, 295): today's date is a parameter.
- reportlab styles, page size and `Spacer` flowables with their sizes in inches (app.py:307-345): the spacers hold floats and belong to a foreign library. The report keeps the paragraphs in order, each with its markup text. Its constructor stands for its style.
- Writing `pill_schedule.pdf` and `send_file` (app.py:345-351): the built element list is returned in the response. The app writes one shared file, and `/static_download` (app.py:349-351) serves whatever PDF was built last, by any user, without a login check. The model does not capture this sharing: each `PdfDownload` carries the caller's own report.
- `LIKE` wildcards: a `%` or `_` typed into the search box is matched literally.
- `UserSearch.SearchUsers`: for a non-empty query the contract states membership only. Table order comes from its definition as a filter and from `UserSearch.SearchUsersStable`.
- `UserSearch.SearchUsers`: SQLite refuses a LIKE pattern longer than 50000 bytes ("LIKE or GLOB pattern too complex"). In the app a `search` argument that long, with the two `%` added at app.py:179, fails with a server error. The model filters as for any other query.
- `Report.PdfDocument.AddSection`: a block's text is kept as a plain string. reportlab's `Paragraph` parses its text as markup when it is built (app.py:333), which is also how the `<b>` headings at app.py:328 become bold. A medicine name or dosage with malformed markup, such as `Vitamin <D>`, makes that constructor raise an error, so `/generate_pdf` fails with a server error and no PDF is written. The model appends the line and `App.Database.GeneratePdf` returns the report as usual. Well-formed markup in a name, such as `<i>x</i>`, is rendered, so the visible text of the PDF differs from the `Line` text that `Report.ReportRoundTrip` reads back.
- `App.Database.AdminDashboard`: each route is modelled as one atomic step on one state of the store. The app's development server (app.py:393) handles requests in threads, and the admin page sends two separate autocommitted SELECTs (app.py:177-182 and app.py:186-187). A user deletion committed between them gives a page whose users and medicines come from two different states; the model does not capture this interleaving. The write routes each commit once, so their atomic modelling matches the app.
- `App.Database.Delete`, `App.Database.DeleteMedicineAdmin`, `App.Database.DeleteUser`, `App.Database.EditMedicine`, `App.Database.EditMedicineForm`: ids are unbounded integers. The app binds them as SQLite's signed 64-bit INTEGER, and Python's sqlite3 raises an error for an id of 2^63 or more (app.py:220, 223, 240, 285, 373, 381). Such a request fails with a server error in the app, while the model matches no row and redirects as usual.
- `App.Database.AddMedicine`: the AUTOINCREMENT counter is unbounded. In the app the INSERT (app.py:267-270) fails with SQLITE_FULL once the largest id ever used is 2^63 - 1, while the model's insert always succeeds.
- `UserSearch.LikeContains`: the text is matched as a whole sequence of characters. SQLite's LIKE reads both operands only up to their first NUL character, so a username containing a NUL can match differently in the app (app.py:178-179).
- The users' password column: the admin page never selects it, and the model does not need it.
