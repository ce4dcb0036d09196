/** Clients of the handlers: whole requests run against a fresh server or a
    given one, showing what the contracts let a caller conclude. */
module Scenarios {
  import opened Seqs
  import opened PathText
  import opened Tables
  import opened Server

  const Student := User(7, "1AB20CS007", "Asha", "asha@example.com", "pw", "5", "CSE", "2020")

  /** An upload called "report.PDF" passes the case-insensitive whitelist
      as ".pdf". */
  lemma ReportExtension(name: string)
    requires name == "report.PDF"
    ensures FileExtension(name) == ".pdf"
  {
    assert name == "report" + "." + "PDF";
    ExtnameOfPlainName("report", "PDF");
    UpperPdfLowered(Extname(name));
  }

  lemma UpperPdfLowered(ext: string)
    requires ext == ".PDF"
    ensures ToLower(ext) == ".pdf"
  {
    var l := ToLower(ext);
    assert l[0] == LowerChar('.') == '.';
    assert l[1] == LowerChar('P') == 'p';
    assert l[2] == LowerChar('D') == 'd';
    assert l[3] == LowerChar('F') == 'f';
  }

  /** The stored name and public path of that upload for usn 1AB20CS007,
      assignment 1, subject AI. */
  lemma ReportNames()
    ensures StoredName("1AB20CS007", "1", ".pdf") == "1AB20CS007.1.pdf"
    ensures PublicPath("AI", "1AB20CS007.1.pdf") == "/uploads/AI/1AB20CS007.1.pdf"
  {
  }

  /** Student 7 uploads "report.PDF" for assignment 1 of subject AI on a
      fresh server: the file is stored as AI/1AB20CS007.1.pdf and the
      response carries id 1 and the public path. */
  method SubmitReport(content: Bytes) returns (r: Response<Submission>, stored: bool)
    ensures r == Ok(Submission(1, "AI", "Report", "first report", "theory", "1",
                               "1AB20CS007.1.pdf", "/uploads/AI/1AB20CS007.1.pdf"))
    ensures stored
  {
    var p := new Portal([Student], []);
    var upload := p.ReceiveUpload("AI", "report.PDF", "1700000000000-report.PDF", content);
    ReportExtension(upload.originalName);
    ReportNames();
    assert UserById(p.users, 7) == Some(Student) by {
      FirstIsEarliest(p.users, (u: User) => u.id == 7, 0);
    }
    r := p.Submit(7, "AI", "Report", "first report", "theory", "1", Some(upload), false, false, false, false);
    stored := FileKey("AI", "1AB20CS007.1.pdf") in p.files && upload.staged !in p.files;
  }

  /** Resubmitting the same assignment with the same extension reuses the
      stored name: the second content replaces the first, and the table
      now holds two rows naming that one file. */
  method Resubmission(p: Portal, userId: int, subject: string, assignmentNumber: string,
                      first: Upload, second: Upload)
    returns (r1: Response<Submission>, r2: Response<Submission>)
    requires p.Valid()
    requires UserById(p.users, userId).Some?
    requires first.staged in p.files && second.staged in p.files
    requires IsAllowedExtension(FileExtension(first.originalName))
    requires FileExtension(second.originalName) == FileExtension(first.originalName)
    requires second.staged != first.staged
    requires second.staged !=
      FileKey(SubjectDir(subject),
              StoredName(UserById(p.users, userId).value.usn, assignmentNumber, FileExtension(first.originalName)))
    modifies p
    ensures r1.Ok? && r2.Ok? && r1.body.file == r2.body.file && r1.body.id != r2.body.id
    ensures var dest := FileKey(SubjectDir(subject), r2.body.file);
      dest in p.files && p.files[dest] == old(p.files[second.staged])
    ensures |p.assignments| == |old(p.assignments)| + 2
    ensures p.assignments[|p.assignments| - 2].file == p.assignments[|p.assignments| - 1].file
  {
    r1 := p.Submit(userId, subject, "v1", "", "", assignmentNumber, Some(first), false, false, false, false);
    r2 := p.Submit(userId, subject, "v2", "", "", assignmentNumber, Some(second), false, false, false, false);
  }

  /** An upload called "notes.pdf" passes the whitelist as ".pdf". */
  lemma NotesExtension(name: string)
    requires name == "notes.pdf"
    ensures FileExtension(name) == ".pdf"
  {
    assert name == "notes" + "." + "pdf";
    ExtnameOfPlainName("notes", "pdf");
    AllowedIsLowerCase(".pdf");
  }

  lemma NotesStoredName()
    ensures StoredName("1AB20CS007", "2", ".pdf") == "1AB20CS007.2.pdf"
  {
  }

  /** Student 7 uploads "notes.pdf" for assignment 2 with no subject: the
      file goes to the "unknown" directory while the row keeps the empty
      subject. */
  method SubmitWithoutSubject(content: Bytes) returns (p: Portal)
    ensures fresh(p) && p.Valid()
    ensures p.assignments == [Assignment(1, 7, "", "Notes", "", "", "2", "1AB20CS007.2.pdf")]
    ensures FileKey(UnknownSubject, "1AB20CS007.2.pdf") in p.files
  {
    p := new Portal([Student], []);
    var upload := p.ReceiveUpload("", "notes.pdf", "1700000000000-notes.pdf", content);
    assert UserById(p.users, 7) == Some(Student) by {
      FirstIsEarliest(p.users, (u: User) => u.id == 7, 0);
    }
    NotesExtension(upload.originalName);
    NotesStoredName();
    var r := p.Submit(7, "", "Notes", "", "", "2", Some(upload), false, false, false, false);
  }

  /** The delete handler unlinks `<subject>/<file>` with the subject as
      stored, while a submission with an empty subject was stored under
      "unknown": deleting it removes the row and leaves the file behind. */
  method EmptySubjectDelete(content: Bytes) returns (deleted: Response<string>, orphaned: bool)
    ensures deleted == Ok(DeletedMessage)
    ensures orphaned
  {
    var p := SubmitWithoutSubject(content);
    assert AssignmentById(p.assignments, 1).Some? by {
      FirstIsEarliest(p.assignments, (a: Assignment) => a.id == 1, 0);
    }
    deleted := p.Delete(1, false, false, false);
    orphaned := p.assignments == [] && FileKey(UnknownSubject, "1AB20CS007.2.pdf") in p.files;
  }
}
