# Assignment portal server, modelled in Dafny

The system is a small Express + MySQL backend for an assignment portal:

- students log in and upload assignments (PDF or MP4);
- staff members log in, list their subjects and browse the uploads;
- uploads are listed per student or filtered for staff, and can be deleted.

This project models the request handlers of `backend/server.js` as a state machine.

- **State.** Three tables: `users`, `staffs` and `assignments`, the last with an AUTO_INCREMENT id. A file store holds every file under the assignments directory.
- **Handlers.** Each handler is a method of the class `Server.Portal`.
- **Faults.** Every database query and every file-system call the handlers make can fail: the queries, the discard and the rename of the staged upload, and the unlink on deletion. Each such call is a boolean parameter of its handler saying whether it fails on this request. multer's own write of the staged file is not given a failure (see "## Left out").

Modules:

- `Seqs`: `Option`, plus `Filter` (the rows a SQL `WHERE` keeps) and `First` (the `results[0]` a handler reads after a length check), with their lemmas.
- `PathText`: the pure string work of the handlers:
  - Node's `path.extname`, with `Basename` and the trailing-slash stripping it relies on;
  - ASCII `toLowerCase`;
  - the `.pdf`/`.mp4` whitelist;
  - the stored-name and public-path templates;
  - `String.split(",")` and its inverse `join(",")`.
- `Tables`: the row types, and every SQL query of the handlers as a function over the tables (the selections, the inner join of the staff listing, deletion by id). The one `INSERT` is the append in `Server.Portal.RenameThenInsert`.
- `Server`: the file keys, the error kinds with their HTTP status, the responses, and the class `Portal` with one method per handler. multer's disk storage is modelled as the method `ReceiveUpload`.
- `Scenarios`: whole requests run against a server, showing what a caller can conclude from the contracts.

Behaviour the model makes explicit:

- **Where files are stored and where they are deleted.**
  - Submission stores the file under `subject || "unknown"` (`backend/server.js:150`).
  - Deletion unlinks `<subject>/<file>` with the subject exactly as stored in the row (`backend/server.js:243`). For an empty subject, `path.join` drops the empty segment, so the unlink targets the assignments root.
  - So a submission with an empty subject leaves its file behind when it is deleted: `Scenarios.EmptySubjectDelete`.
  - The public path of such a submission is `/uploads//<name>`, since the response uses the subject verbatim (`backend/server.js:185`).
- **Resubmission overwrites.** Submitting the same assignment again with the same extension gives the same stored name. The rename then overwrites the earlier file, and the table gets a second row naming the same file: `Scenarios.Resubmission`.
- **Failed insert.** The rename happens before the insert, so a failed insert leaves the renamed file in place and adds no row.
- **Extension check.** The whitelist compares the lower-cased extension, so `report.PDF` is accepted as `.pdf`: `Scenarios.SubmitReport`.

## Model

| member | source | states |
|---|---|---|
| Seqs.Filter | backend/server.js:78 | a `WHERE` selection: the rows of the table that satisfy the condition, in table order, never more rows than the table |
| Seqs.FilterMembers | backend/server.js:78 | a `WHERE` selection keeps exactly the rows of the table that satisfy the condition |
| Seqs.FilterCount | backend/server.js:217 | a `WHERE` selection returns each satisfying row exactly as often as the table holds it, and no other row |
| Seqs.First | backend/server.js:132-136 | `results[0]` after a length check: absent iff no row matches; otherwise a matching row of the table |
| Seqs.FirstIsEarliest | backend/server.js:136 | the row read is the earliest matching row in table order |
| Seqs.FilterDropsOne | backend/server.js:251 | a condition false at exactly one position removes that row and keeps every other row in order |
| Tables.UsersWithCredentials | backend/server.js:77-78 | exactly the `users` rows whose email and password both equal the given ones, each as often as the table holds it |
| Tables.StaffsWithCredentials | backend/server.js:79-80 | exactly the `staffs` rows whose email and password both equal the given ones, each as often as the table holds it |
| Tables.TagUsers | backend/server.js:78 | one `AsUser` hit per row, as often as the row occurs, each with role "user" |
| Tables.TagStaffs | backend/server.js:80 | one `AsStaff` hit per row, as often as the row occurs, each with role "staff" |
| Tables.UserById | backend/server.js:125-136 | the first `users` row with that id; absent iff no row has it |
| Tables.StaffByName | backend/server.js:273-284 | the first `staffs` row with that name; absent iff no row has it |
| Tables.AssignmentById | backend/server.js:231-242 | the first `assignments` row with that id; absent iff no row has it |
| Tables.RowsOfUser | backend/server.js:217 | exactly the `assignments` rows with that `user_id`, each as often as the table holds it |
| Tables.WithoutId | backend/server.js:251 | the table after deletion holds exactly the rows whose id differs |
| Tables.WithoutIdRemovesOneRow | backend/server.js:251 | with a unique primary key, deleting a row's id removes that one row and keeps the rest in order |
| Tables.Listed | backend/server.js:200-201 | the join condition `a.user_id = u.id` together with the three equality filters on subject, batch and assignment number |
| Tables.ViewOf | backend/server.js:198 | the selected columns: the assignment's id, category, title, description, file and number with the user's usn and name |
| Tables.ListingOf | backend/server.js:198-201 | the joined rows of one assignment: one view per user satisfying the join and filter conditions, as many times as such users occur |
| Tables.StaffListing | backend/server.js:197-202 | the staff listing holds exactly the views of (assignment, user) pairs with `a.user_id = u.id` and matching subject, batch and assignment number, each view once per such pair |
| PathText.IndexOfLast | backend/server.js:138 | the position of the last occurrence of a character, or -1 if it does not occur |
| PathText.StripTrailingSlashes | backend/server.js:138 | a prefix with no trailing `/` followed only by `/` characters |
| PathText.Basename | backend/server.js:138 | a `/`-free suffix of the path with its trailing slashes stripped |
| PathText.BasenameIsLastComponent | backend/server.js:138 | that suffix is the whole last component: it is the whole stripped path, or a `/` stands right before it |
| PathText.Extname | backend/server.js:138 | `path.extname`: empty or starting with its only `.`, and `/`-free |
| PathText.ExtnameIsSuffix | backend/server.js:138 | the extension is a suffix of the basename |
| PathText.ExtnameOfPlainName | backend/server.js:138 | for a name `stem.ext` with a non-empty stem, `.`-free `ext` and no `/`, the extension is `.ext` |
| PathText.ExtnameWithoutDot | backend/server.js:138 | a name without a dot has an empty extension |
| PathText.ExtnameOfDotFile | backend/server.js:138 | a name whose only dot is the leading one has an empty extension |
| PathText.LowerChar | backend/server.js:138 | an ASCII upper-case letter is shifted by 32; every other character is unchanged |
| PathText.ToLower | backend/server.js:138 | same length, no upper-case letter left, and each character lowered in place |
| PathText.ToLowerIdempotent | backend/server.js:138 | lower-casing twice is lower-casing once |
| PathText.IsAllowedExtension | backend/server.js:139-141 | `allowedExtensions.includes`: an accepted extension is four characters, starts with `.` and has no upper-case letter |
| PathText.FileExtension | backend/server.js:138 | the lower-cased `path.extname` of the original name: as long as the extension, empty or starting with `.`, without upper-case letters or `/` |
| PathText.AllowedIsCaseInsensitive | backend/server.js:138-141 | the lower-cased extension is whitelisted iff it is `.pdf` or `.mp4` in any mix of letter cases |
| PathText.AllowedIsLowerCase | backend/server.js:139 | whitelisted extensions are already lower case |
| PathText.SubjectDir | backend/server.js:53 | `subject \|\| "unknown"`: never empty, and the subject itself when it is non-empty |
| PathText.StoredNameParts | backend/server.js:149 | `${usn}.${assignment_number}${ext}`: the name splits into the usn, a `.`, the assignment number and the extension, in that order |
| PathText.PublicPathParts | backend/server.js:185 | `/uploads/${subject}/${name}`: the prefix `/uploads/`, the subject verbatim, a `/`, then the name |
| PathText.StoredNameCollides | backend/server.js:149 | two stored names for the same usn and assignment number are equal iff their extensions are |
| PathText.ExtnameOfStoredName | backend/server.js:149 | the extension of a stored name is the whitelisted extension it was built with |
| PathText.StoredNameKeepsExtension | backend/server.js:138-149 | a stored file name passes the same extension check again, as the same extension |
| PathText.SplitComma | backend/server.js:284 | `split(",")`: at least one piece, none containing a comma |
| PathText.SplitCommaCount | backend/server.js:284 | the split has one more piece than the string has commas |
| PathText.JoinSplitComma | backend/server.js:284 | joining the pieces with `,` gives back the stored string |
| PathText.SplitJoinComma | backend/server.js:284 | splitting a join of comma-free pieces gives back the pieces |
| Server.Error.Status | backend/server.js:85-281 | every error response carries 400, 404 or 500; 400 exactly for a missing file, a rejected extension and a missing staff name, 404 exactly for the four not-found answers, 500 for every failed call |
| Server.Moved | backend/server.js:152 | `fs.rename`: the destination holds the source's content (replacing any earlier file), the source is gone, and no other file changes |
| Server.Portal.constructor | backend/server.js:26-47 | a server over the given users and staffs, with no assignments and no files |
| Server.Portal.Login | backend/server.js:74-107 | a failed user query is 500; if any user matches, exactly the matching users are returned with role "user", each as often as the table holds it, and the staff query's failure flag has no effect; otherwise a failed staff query is 500, the matching staff are returned the same way with role "staff", or 404 if none match; every hit carries the given credentials |
| Server.Portal.ReceiveUpload | backend/server.js:50-64 | multer writes the uploaded content under `subject \|\| "unknown"` and changes nothing else |
| Server.Portal.Submit | backend/server.js:110-191 | no file: 400; usn query failure: 500; unknown user: 404; in these cases no file or row changes. A non-whitelisted extension is 400 and discards the staged file. A rename failure is 500 with files unchanged. Otherwise the staged file moves to `<usn>.<number><ext>` under `subject \|\| "unknown"`; then an insert failure is 500 with no row, or exactly one row with a fresh id is appended and the response carries that id, the name and `/uploads/<subject>/<name>` |
| Server.Portal.RenameThenInsert | backend/server.js:152-176 | the rename moves the file; the insert appends one row with the next id (distinct from every existing id) or nothing on failure |
| Server.Portal.ListAssignments | backend/server.js:194-211 | 500 iff the query fails; otherwise exactly the joined rows matching subject, batch and assignment number, each view once per (assignment, user) pair that produces it |
| Server.Portal.ListByUser | backend/server.js:214-225 | 500 iff the query fails; otherwise exactly the rows with that `user_id`, each as often as the table holds it |
| Server.Portal.Delete | backend/server.js:228-264 | query failure: 500; unknown id: 404; other unlink error: 500; in these cases nothing changes. Otherwise `<subject>/<file>` is removed (a missing one is tolerated), then a row-delete failure is 500 with the row kept, or the row alone is removed and the message is returned |
| Server.Portal.DeleteRow | backend/server.js:251-252 | `DELETE ... WHERE id = ?` on an existing row removes that row and keeps the others in order |
| Server.Portal.Subjects | backend/server.js:267-287 | empty name: 400; query failure: 500; no staff of that name: 404; otherwise the untrimmed comma split of the first row's `subjects`, with commas + 1 pieces that join back to the stored string |
| Server.AppendFreshKeepsDistinct | backend/server.js:158-178 | an inserted row with the next AUTO_INCREMENT id keeps the primary key unique |
| Server.SubsequenceKeepsDistinct | backend/server.js:251 | deleting a row keeps the primary key unique |
| Scenarios.ReportExtension | backend/server.js:138-141 | `report.PDF` has the extension `.pdf` after lower-casing |
| Scenarios.NotesExtension | backend/server.js:138-141 | `notes.pdf` has the extension `.pdf` |
| Scenarios.SubmitReport | backend/server.js:110-191 | a student uploading `report.PDF` for subject AI, assignment 1, on a fresh server gets id 1, file `1AB20CS007.1.pdf` and path `/uploads/AI/1AB20CS007.1.pdf`; the file is stored under AI and the staged copy is gone |
| Scenarios.Resubmission | backend/server.js:149-176 | two submissions of the same assignment with the same extension both succeed with different ids and the same file name; the file holds the second content and both rows name it |
| Scenarios.SubmitWithoutSubject | backend/server.js:149-169 | with an empty subject the file is stored under "unknown" while the row keeps the empty subject |
| Scenarios.EmptySubjectDelete | backend/server.js:243-260 | deleting that submission succeeds and removes the row, but the file under "unknown" remains |

## Left out

- The MySQL connection, its credentials and the callback API (`backend/server.js:20-39`): each query is a function over the tables, and its failure is a boolean parameter.
- Row order of SQL results. Where no `ORDER BY` is given the order is unspecified. The model uses table order, and the listing contracts state which rows occur and how often, not their order.
- SQL string comparison. It is modelled as exact equality, whereas MySQL's default collations compare case-insensitively.
- Type coercion of request values. `user_id` and `:id` arrive as strings and MySQL coerces them to numbers; the model takes them as integers.
- Absent form fields and query parameters. These are modelled as empty strings: JavaScript would insert `undefined`, or NULL through the driver, and would build `"/uploads/undefined/..."`.
- A `subjects` column that is NULL. The source's `split` throws on it; the model's column is always a string.
- Server.Portal.ReceiveUpload: multer's write of the staged file always succeeds. A failed write makes multer pass an error to Express before the handler runs, and that path is not modelled.
- Server.Portal.RenameThenInsert: a failed `INSERT` leaves the model's AUTO_INCREMENT counter where it was. InnoDB may consume a value on a failed insert, so later ids could skip one. Ids stay fresh and distinct either way.
- Server.Portal.Submit: after a failed `INSERT` it states the same unchanged counter as `RenameThenInsert`, with the same caveat about InnoDB.
- multer's staged file name `${Date.now()}-${originalname}` (`backend/server.js:61-63`): the clock is left out. The staged name is a parameter of `ReceiveUpload`.
- The directory creation (`fs.mkdirSync`) at start-up and in multer's destination: directories are implicit in the file keys.
- `path.join` normalisation. Subjects or names containing `/` or `..` would address other directories; the model keeps the subject as one key component.
- Node's `path.extname` on Windows, where `\` also separates segments: the POSIX behaviour is modelled.
- `toLowerCase` beyond ASCII: only `A`-`Z` are lowered.
- The health route `/test` (`backend/server.js:69-71`), static serving of `/uploads`, the SPA fallback route, CORS and `app.listen` (`backend/server.js:289-310`): routing and serving with no state.
- Concurrency. Each handler runs to completion before the next starts, so the interleavings of two requests between rename and insert are not modelled.
- Logging to the console.
- The React frontend and `backend/index.js`: no server state.
