/** The request handlers of the Express server, as methods of a class that
    holds the database tables and the upload directory. Every database call
    and file-system call the source makes can fail; each handler takes one
    boolean per such call saying whether it fails on this request. */
module Server {
  import opened Seqs
  import opened PathText
  import opened Tables

  type Bytes = seq<bv8>

  /** A file in the upload area: `dir` is the path segment below the
      assignments root (`""` is the root itself), `name` the file name. */
  datatype FileKey = FileKey(dir: string, name: string)

  /** The file multer attached to the request: the client's original name and
      where it was staged. */
  datatype Upload = Upload(originalName: string, staged: FileKey)

  /** Every failure response of the handlers, one per handler and message
      (the usn lookup of a submission and the login query send the same text). */
  datatype Error =
    | UserQueryFailed        // /users: "Error retrieving user data"
    | StaffQueryFailed       // /users: "Error retrieving staff data"
    | NoCredentialsMatch     // /users: "No user or staff found with these credentials"
    | FileRequired           // POST /assignments: "File upload is required"
    | UsnQueryFailed         // POST /assignments: "Error retrieving user data"
    | UserNotFound           // POST /assignments: "User not found"
    | InvalidFileType        // POST /assignments: "Invalid file type. Only PDF and MP4 are allowed."
    | RenameFailed           // POST /assignments: "Error renaming file"
    | InsertFailed           // POST /assignments: "Error inserting assignment"
    | ListingQueryFailed     // GET /assignments: "Error fetching assignments"
    | UserRowsQueryFailed    // GET /assignments/:userId: "Error retrieving assignments"
    | AssignmentQueryFailed  // DELETE /assignments/:id: "Error retrieving assignment"
    | AssignmentNotFound     // DELETE /assignments/:id: "Assignment not found"
    | UnlinkFailed           // DELETE /assignments/:id: "Error deleting file"
    | RowDeleteFailed        // DELETE /assignments/:id: "Error deleting assignment from database"
    | StaffNameRequired      // /subjects: "Staff name is required"
    | SubjectsQueryFailed    // /subjects: "Database error"
    | NoSubjects             // /subjects: "No subjects found for this staff"
  {
    /** The HTTP status the handler sends with this error: a rejected
        request, a missing row, or a failed database or file-system call. */
    function Status(): (code: int)
      ensures code == 400 || code == 404 || code == 500
      ensures code == 400 <==> (FileRequired? || InvalidFileType? || StaffNameRequired?)
      ensures code == 404 <==> (NoCredentialsMatch? || UserNotFound? || AssignmentNotFound? || NoSubjects?)
    {
      match this
      case FileRequired | InvalidFileType | StaffNameRequired => 400
      case NoCredentialsMatch | UserNotFound | AssignmentNotFound | NoSubjects => 404
      case _ => 500
    }
  }

  /** A handler's response: status 200 with a body, or an error. */
  datatype Response<T> = Ok(body: T) | Fail(error: Error)

  /** The JSON body of a successful submission. */
  datatype Submission = Submission(
    id: int, subject: string, title: string, description: string, category: string,
    assignmentNumber: string, file: string, filePath: string)

  const DeletedMessage := "Assignment deleted successfully"

  /** The file store after `fs.rename(from, to)`: the content moves and
      replaces whatever `to` held. */
  function Moved(files: map<FileKey, Bytes>, from: FileKey, to: FileKey): (m: map<FileKey, Bytes>)
    requires from in files
    ensures to in m && m[to] == files[from]
    ensures from != to ==> from !in m
    ensures forall k :: k != from && k != to ==> (k in m <==> k in files) && (k in m ==> m[k] == files[k])
  {
    (files - {from})[to := files[from]]
  }

  class Portal {
    var users: seq<User>
    var staffs: seq<Staff>
    var assignments: seq<Assignment>
    /** The upload area: every file below the assignments directory. */
    var files: map<FileKey, Bytes>
    /** The next AUTO_INCREMENT value of `assignments.id`. */
    var nextId: int

    /** The primary key of `assignments` is unique and below the counter. */
    ghost predicate Valid()
      reads this`assignments, this`nextId
    {
      DistinctIds(assignments) &&
      forall i :: 0 <= i < |assignments| ==> assignments[i].id < nextId
    }

    /** A server over the given user and staff tables, with no assignments yet. */
    constructor (users: seq<User>, staffs: seq<Staff>)
      ensures Valid()
      ensures this.users == users && this.staffs == staffs
      ensures assignments == [] && files == map[] && nextId == 1
    {
      this.users := users;
      this.staffs := staffs;
      assignments := [];
      files := map[];
      nextId := 1;
    }

    // -------------------------------------------------------------------
    // GET /users
    // -------------------------------------------------------------------

    /** Login: the `users` rows matching the credentials, tagged "user", win;
        `staffs` is consulted only when there are none; no match is 404. */
    method Login(email: string, password: string, userQueryFails: bool, staffQueryFails: bool)
      returns (r: Response<seq<Account>>)
      ensures userQueryFails ==> r == Fail(UserQueryFailed)
      ensures r.Ok? ==> (r.body != [] &&
        forall acc :: acc in r.body ==> acc.Email() == email && acc.Password() == password)
      ensures !userQueryFails && (exists u :: u in users && u.email == email && u.password == password) ==>
        r.Ok? &&
        (forall acc :: acc in r.body <==>
          acc.AsUser? && acc.user in users && acc.user.email == email && acc.user.password == password) &&
        (forall acc :: acc in r.body ==> acc.Role() == "user") &&
        (forall acc :: multiset(r.body)[acc] ==
          if acc.AsUser? && acc.user.email == email && acc.user.password == password
          then multiset(users)[acc.user] else 0)
      ensures !userQueryFails && (forall u :: u in users ==> u.email != email || u.password != password) ==>
        if staffQueryFails then r == Fail(StaffQueryFailed)
        else if exists s :: s in staffs && s.email == email && s.password == password then
          r.Ok? &&
          (forall acc :: acc in r.body <==>
            acc.AsStaff? && acc.staff in staffs && acc.staff.email == email && acc.staff.password == password) &&
          (forall acc :: acc in r.body ==> acc.Role() == "staff") &&
          (forall acc :: multiset(r.body)[acc] ==
            if acc.AsStaff? && acc.staff.email == email && acc.staff.password == password
            then multiset(staffs)[acc.staff] else 0)
        else r == Fail(NoCredentialsMatch)
    {
      if userQueryFails {
        return Fail(UserQueryFailed);
      }
      var userResults := UsersWithCredentials(users, email, password);
      if |userResults| > 0 {
        assert userResults[0] in userResults;
        return Ok(TagUsers(userResults));
      }
      if staffQueryFails {
        return Fail(StaffQueryFailed);
      }
      var staffResults := StaffsWithCredentials(staffs, email, password);
      if |staffResults| > 0 {
        assert staffResults[0] in staffResults;
        return Ok(TagStaffs(staffResults));
      }
      return Fail(NoCredentialsMatch);
    }

    // -------------------------------------------------------------------
    // multer
    // -------------------------------------------------------------------

    /** multer's disk storage: the uploaded file is written under
        `subject || "unknown"` with a name chosen by the caller (the source
        prefixes the original name with the current time). */
    method ReceiveUpload(subject: string, originalName: string, stagedName: string, content: Bytes)
      returns (u: Upload)
      modifies this
      ensures u == Upload(originalName, FileKey(SubjectDir(subject), stagedName))
      ensures files == old(files)[u.staged := content]
      ensures users == old(users) && staffs == old(staffs)
      ensures assignments == old(assignments) && nextId == old(nextId)
    {
      u := Upload(originalName, FileKey(SubjectDir(subject), stagedName));
      files := files[u.staged := content];
    }

    // -------------------------------------------------------------------
    // POST /assignments
    // -------------------------------------------------------------------

    /** Submission: validate, rename the staged upload to
        `<usn>.<assignment_number><ext>` under `subject || "unknown"`, then
        insert one row. */
    method Submit(userId: int, subject: string, title: string, description: string, category: string,
                  assignmentNumber: string, upload: Option<Upload>,
                  usnQueryFails: bool, discardFails: bool, renameFails: bool, insertFails: bool)
      returns (r: Response<Submission>)
      requires Valid()
      modifies this
      ensures Valid()
      ensures users == old(users) && staffs == old(staffs)
      // No row is written on any failure, and at most one row on success.
      ensures r.Fail? ==> assignments == old(assignments) && nextId == old(nextId)
      ensures r.Ok? ==> r.body.id == old(nextId) && nextId == old(nextId) + 1
      ensures r.Ok? ==> forall a :: a in old(assignments) ==> a.id != r.body.id
      // 400 without a file; 500 or 404 while looking up the usn: nothing changes.
      ensures upload.None? ==> r == Fail(FileRequired) && files == old(files)
      ensures upload.Some? && usnQueryFails ==> r == Fail(UsnQueryFailed) && files == old(files)
      ensures upload.Some? && !usnQueryFails && UserById(users, userId).None? ==>
        r == Fail(UserNotFound) && files == old(files)
      // From here on the user exists.
      ensures upload.Some? && !usnQueryFails && UserById(users, userId).Some? ==>
        var ext := FileExtension(upload.value.originalName);
        var staged := upload.value.staged;
        var name := StoredName(UserById(users, userId).value.usn, assignmentNumber, ext);
        var dest := FileKey(SubjectDir(subject), name);
        if !IsAllowedExtension(ext) then
          r == Fail(InvalidFileType) &&
          files == (if discardFails then old(files) else old(files) - {staged})
        else if renameFails || staged !in old(files) then
          r == Fail(RenameFailed) && files == old(files)
        else
          files == Moved(old(files), staged, dest) &&
          if insertFails then r == Fail(InsertFailed)
          else
            r == Ok(Submission(old(nextId), subject, title, description, category, assignmentNumber,
                               name, PublicPath(subject, name))) &&
            assignments == old(assignments) +
              [Assignment(old(nextId), userId, subject, title, description, category, assignmentNumber, name)]
    {
      if upload.None? {
        return Fail(FileRequired);
      }
      var file := upload.value;
      if usnQueryFails {
        return Fail(UsnQueryFailed);
      }
      var user := UserById(users, userId);
      if user.None? {
        return Fail(UserNotFound);
      }
      var usn := user.value.usn;
      var ext := ToLower(Extname(file.originalName));
      if !IsAllowedExtension(ext) {
        // fs.unlink(file.path, () => {}): an error is ignored.
        if !discardFails {
          files := files - {file.staged};
        }
        return Fail(InvalidFileType);
      }
      var newFileName := StoredName(usn, assignmentNumber, ext);
      var dest := FileKey(SubjectDir(subject), newFileName);
      if renameFails || file.staged !in files {
        return Fail(RenameFailed);
      }
      var inserted, insertId := RenameThenInsert(file.staged, dest, insertFails,
        Assignment(nextId, userId, subject, title, description, category, assignmentNumber, newFileName));
      if !inserted {
        return Fail(InsertFailed);
      }
      r := Ok(Submission(insertId, subject, title, description, category, assignmentNumber,
                         newFileName, PublicPath(subject, newFileName)));
    }

    /** The rename of the staged upload followed by `INSERT INTO assignments`:
        the row gets the next AUTO_INCREMENT id. A failed insert leaves the
        renamed file in place. */
    method RenameThenInsert(from: FileKey, to: FileKey, insertFails: bool, row: Assignment)
      returns (inserted: bool, insertId: int)
      requires Valid() && from in files && row.id == nextId
      modifies this`files, this`assignments, this`nextId
      ensures Valid()
      ensures files == Moved(old(files), from, to)
      ensures inserted == !insertFails
      ensures inserted ==> insertId == row.id
      ensures inserted ==> assignments == old(assignments) + [row] && nextId == old(nextId) + 1
      ensures inserted ==> forall a :: a in old(assignments) ==> a.id != row.id
      ensures !inserted ==> assignments == old(assignments) && nextId == old(nextId)
    {
      files := Moved(files, from, to);
      if insertFails {
        return false, 0;
      }
      AppendFreshKeepsDistinct(assignments, row);
      assignments := assignments + [row];
      insertId := nextId;
      nextId := nextId + 1;
      inserted := true;
    }

    // -------------------------------------------------------------------
    // GET /assignments and GET /assignments/:userId
    // -------------------------------------------------------------------

    /** The staff listing: exactly the joined rows whose subject, batch and
        assignment number all equal the query's. */
    method ListAssignments(subject: string, year: string, assignmentNumber: string, queryFails: bool)
      returns (r: Response<seq<AssignmentView>>)
      ensures queryFails <==> r.Fail?
      ensures r.Fail? ==> r.error == ListingQueryFailed
      ensures r.Ok? ==> forall v :: v in r.body <==>
        exists a, u :: a in assignments && u in users && v == ViewOf(a, u) &&
          a.userId == u.id && a.subject == subject && u.batch == year && a.assignmentNumber == assignmentNumber
      ensures r.Ok? ==> forall v ::
        multiset(r.body)[v] == PairsJoining(assignments, users, subject, year, assignmentNumber, v)
    {
      if queryFails {
        return Fail(ListingQueryFailed);
      }
      r := Ok(StaffListing(assignments, users, subject, year, assignmentNumber));
    }

    /** A student's submissions: exactly the rows with that `user_id`, in table order. */
    method ListByUser(userId: int, queryFails: bool) returns (r: Response<seq<Assignment>>)
      ensures queryFails <==> r.Fail?
      ensures r.Fail? ==> r.error == UserRowsQueryFailed
      ensures r.Ok? ==> forall a :: a in r.body <==> a in assignments && a.userId == userId
      ensures r.Ok? ==> |r.body| <= |assignments|
      ensures r.Ok? ==> forall a ::
        multiset(r.body)[a] == if a.userId == userId then multiset(assignments)[a] else 0
    {
      if queryFails {
        return Fail(UserRowsQueryFailed);
      }
      r := Ok(RowsOfUser(assignments, userId));
    }

    // -------------------------------------------------------------------
    // DELETE /assignments/:id
    // -------------------------------------------------------------------

    /** Deletion: find the row, unlink `<subject>/<file>` (a missing file is
        tolerated), then delete the row. */
    method Delete(id: int, lookupFails: bool, unlinkFails: bool, deleteFails: bool)
      returns (r: Response<string>)
      requires Valid()
      modifies this
      ensures Valid()
      ensures users == old(users) && staffs == old(staffs) && nextId == old(nextId)
      ensures lookupFails ==>
        r == Fail(AssignmentQueryFailed) && assignments == old(assignments) && files == old(files)
      ensures !lookupFails && AssignmentById(old(assignments), id).None? ==>
        r == Fail(AssignmentNotFound) && assignments == old(assignments) && files == old(files)
      ensures !lookupFails && AssignmentById(old(assignments), id).Some? ==>
        var a := AssignmentById(old(assignments), id).value;
        var key := FileKey(a.subject, a.file);
        if unlinkFails then
          r == Fail(UnlinkFailed) && assignments == old(assignments) && files == old(files)
        else
          files == old(files) - {key} &&
          if deleteFails then
            r == Fail(RowDeleteFailed) && assignments == old(assignments)
          else
            r == Ok(DeletedMessage) &&
            exists k :: 0 <= k < |old(assignments)| && old(assignments)[k] == a &&
              assignments == old(assignments)[..k] + old(assignments)[k + 1..]
    {
      if lookupFails {
        return Fail(AssignmentQueryFailed);
      }
      var found := AssignmentById(assignments, id);
      if found.None? {
        return Fail(AssignmentNotFound);
      }
      var a := found.value;
      if unlinkFails {
        return Fail(UnlinkFailed);
      }
      // A missing file is ENOENT, which the handler tolerates.
      files := files - {FileKey(a.subject, a.file)};
      if deleteFails {
        return Fail(RowDeleteFailed);
      }
      DeleteRow(a);
      r := Ok(DeletedMessage);
    }

    /** `DELETE FROM assignments WHERE id = ?` for a row of the table: with
        unique ids exactly that row goes and the others stay, in order. */
    method DeleteRow(a: Assignment)
      requires Valid() && a in assignments
      modifies this`assignments
      ensures Valid()
      ensures assignments == WithoutId(old(assignments), a.id)
      ensures exists k ::
        0 <= k < |old(assignments)| && old(assignments)[k] == a &&
        assignments == old(assignments)[..k] + old(assignments)[k + 1..]
    {
      ghost var k :| 0 <= k < |assignments| && assignments[k] == a;
      WithoutIdRemovesOneRow(assignments, k);
      ghost var before := assignments;
      assignments := WithoutId(assignments, a.id);
      assert Valid() by {
        forall i | 0 <= i < |assignments| ensures assignments[i].id < nextId {
          assert assignments[i] == before[if i < k then i else i + 1];
        }
        SubsequenceKeepsDistinct(before, k);
      }
    }

    // -------------------------------------------------------------------
    // GET /subjects
    // -------------------------------------------------------------------

    /** A staff member's subjects: the first matching row's `subjects` split
        on "," without trimming. */
    method Subjects(name: string, queryFails: bool) returns (r: Response<seq<string>>)
      ensures name == "" ==> r == Fail(StaffNameRequired)
      ensures name != "" && queryFails ==> r == Fail(SubjectsQueryFailed)
      ensures name != "" && !queryFails && (forall s :: s in staffs ==> s.name != name) ==>
        r == Fail(NoSubjects)
      ensures name != "" && !queryFails && StaffByName(staffs, name).Some? ==>
        var stored := StaffByName(staffs, name).value.subjects;
        r.Ok? && r.body == SplitComma(stored) &&
        |r.body| == multiset(stored)[','] + 1 && JoinComma(r.body) == stored &&
        forall i :: 0 <= i < |r.body| ==> ',' !in r.body[i]
    {
      if name == "" {
        return Fail(StaffNameRequired);
      }
      if queryFails {
        return Fail(SubjectsQueryFailed);
      }
      var results := StaffByName(staffs, name);
      if results.None? {
        return Fail(NoSubjects);
      }
      var stored := results.value.subjects;
      SplitCommaCount(stored);
      JoinSplitComma(stored);
      r := Ok(SplitComma(stored));
    }
  }

  /** Appending a row whose id is above every existing id keeps ids distinct. */
  lemma AppendFreshKeepsDistinct(rows: seq<Assignment>, row: Assignment)
    requires DistinctIds(rows)
    requires forall i :: 0 <= i < |rows| ==> rows[i].id < row.id
    ensures DistinctIds(rows + [row])
    ensures forall a :: a in rows ==> a.id != row.id
  {
    var all := rows + [row];
    forall i, j | 0 <= i < j < |all| ensures all[i].id != all[j].id {
      if j < |rows| { assert all[i] == rows[i] && all[j] == rows[j]; } else { assert all[i] == rows[i]; }
    }
  }

  /** Removing one row keeps the remaining ids distinct. */
  lemma SubsequenceKeepsDistinct(rows: seq<Assignment>, k: nat)
    requires DistinctIds(rows) && k < |rows|
    ensures DistinctIds(rows[..k] + rows[k + 1..])
  {
    var rest := rows[..k] + rows[k + 1..];
    forall i, j | 0 <= i < j < |rest| ensures rest[i].id != rest[j].id {
      var i' := if i < k then i else i + 1;
      var j' := if j < k then j else j + 1;
      assert rest[i] == rows[i'] && rest[j] == rows[j'];
    }
  }
}
