/** The three database tables the server reads and writes, and the SQL
    queries of its handlers as functions over those tables. String
    comparisons are exact. */
module Tables {
  import opened Seqs

  /** A row of `users`. Created outside this server and only read here. */
  datatype User = User(
    id: int, usn: string, name: string, email: string, password: string,
    semester: string, branch: string, batch: string)

  /** A row of `staffs`; `subjects` is a comma-joined list. Only read here. */
  datatype Staff = Staff(name: string, email: string, password: string, subjects: string)

  /** A row of `assignments`; `file` is the stored file name inside the
      subject's directory. */
  datatype Assignment = Assignment(
    id: int, userId: int, subject: string, title: string, description: string,
    category: string, assignmentNumber: string, file: string)

  /** A row of the staff listing: `a.id, u.usn, u.name, a.category, a.title,
      a.description, a.file, a.assignment_number`. */
  datatype AssignmentView = AssignmentView(
    id: int, usn: string, name: string, category: string, title: string,
    description: string, file: string, assignmentNumber: string)

  /** A login hit: a `users` row tagged "user" or a `staffs` row tagged "staff". */
  datatype Account = AsUser(user: User) | AsStaff(staff: Staff) {
    function Role(): string {
      if AsUser? then "user" else "staff"
    }
    function Email(): string {
      if AsUser? then user.email else staff.email
    }
    function Password(): string {
      if AsUser? then user.password else staff.password
    }
  }

  // ---------------------------------------------------------------------
  // Login queries
  // ---------------------------------------------------------------------

  /** `SELECT * FROM users WHERE email = ? AND password = ?`. */
  function UsersWithCredentials(users: seq<User>, email: string, password: string): (r: seq<User>)
    ensures forall u :: u in r <==> u in users && u.email == email && u.password == password
    ensures forall u ::
      multiset(r)[u] == if u.email == email && u.password == password then multiset(users)[u] else 0
  {
    var keep := (u: User) => u.email == email && u.password == password;
    FilterMembers(users, keep);
    FilterCount(users, keep);
    Filter(users, keep)
  }

  /** `SELECT * FROM staffs WHERE email = ? AND password = ?`. */
  function StaffsWithCredentials(staffs: seq<Staff>, email: string, password: string): (r: seq<Staff>)
    ensures forall s :: s in r <==> s in staffs && s.email == email && s.password == password
    ensures forall s ::
      multiset(r)[s] == if s.email == email && s.password == password then multiset(staffs)[s] else 0
  {
    var keep := (s: Staff) => s.email == email && s.password == password;
    FilterMembers(staffs, keep);
    FilterCount(staffs, keep);
    Filter(staffs, keep)
  }

  /** The query rows with the `"user" as role` column added, one hit per row. */
  function TagUsers(us: seq<User>): (r: seq<Account>)
    ensures |r| == |us|
    ensures forall acc :: acc in r <==> acc.AsUser? && acc.user in us
    ensures forall acc :: acc in r ==> acc.Role() == "user"
    ensures forall acc :: multiset(r)[acc] == if acc.AsUser? then multiset(us)[acc.user] else 0
  {
    if us == [] then []
    else
      assert us == [us[0]] + us[1..];
      [AsUser(us[0])] + TagUsers(us[1..])
  }

  /** The query rows with the `"staff" as role` column added, one hit per row. */
  function TagStaffs(ss: seq<Staff>): (r: seq<Account>)
    ensures |r| == |ss|
    ensures forall acc :: acc in r <==> acc.AsStaff? && acc.staff in ss
    ensures forall acc :: acc in r ==> acc.Role() == "staff"
    ensures forall acc :: multiset(r)[acc] == if acc.AsStaff? then multiset(ss)[acc.staff] else 0
  {
    if ss == [] then []
    else
      assert ss == [ss[0]] + ss[1..];
      [AsStaff(ss[0])] + TagStaffs(ss[1..])
  }

  // ---------------------------------------------------------------------
  // Lookups that read `results[0]`
  // ---------------------------------------------------------------------

  /** `SELECT usn FROM users WHERE id = ?`, first row. */
  function UserById(users: seq<User>, id: int): (r: Option<User>)
    ensures r.None? <==> forall u :: u in users ==> u.id != id
    ensures r.Some? ==> r.value in users && r.value.id == id
  {
    First(users, (u: User) => u.id == id)
  }

  /** `SELECT subjects FROM staffs WHERE name = ?`, first row. */
  function StaffByName(staffs: seq<Staff>, name: string): (r: Option<Staff>)
    ensures r.None? <==> forall s :: s in staffs ==> s.name != name
    ensures r.Some? ==> r.value in staffs && r.value.name == name
  {
    First(staffs, (s: Staff) => s.name == name)
  }

  /** `SELECT * FROM assignments WHERE id = ?`, first row. */
  function AssignmentById(rows: seq<Assignment>, id: int): (r: Option<Assignment>)
    ensures r.None? <==> forall a :: a in rows ==> a.id != id
    ensures r.Some? ==> r.value in rows && r.value.id == id
  {
    First(rows, (a: Assignment) => a.id == id)
  }

  // ---------------------------------------------------------------------
  // Assignment listings and deletion
  // ---------------------------------------------------------------------

  /** `SELECT * FROM assignments WHERE user_id = ?`. */
  function RowsOfUser(rows: seq<Assignment>, userId: int): (r: seq<Assignment>)
    ensures forall a :: a in r <==> a in rows && a.userId == userId
    ensures forall a :: multiset(r)[a] == if a.userId == userId then multiset(rows)[a] else 0
  {
    var keep := (a: Assignment) => a.userId == userId;
    FilterMembers(rows, keep);
    FilterCount(rows, keep);
    Filter(rows, keep)
  }

  /** The table after `DELETE FROM assignments WHERE id = ?`. */
  function WithoutId(rows: seq<Assignment>, id: int): (r: seq<Assignment>)
    ensures forall a :: a in r <==> a in rows && a.id != id
  {
    var keep := (a: Assignment) => a.id != id;
    FilterMembers(rows, keep);
    Filter(rows, keep)
  }

  /** Assignment ids are pairwise distinct (the table's primary key). */
  ghost predicate DistinctIds(rows: seq<Assignment>)
  {
    forall i, j :: 0 <= i < j < |rows| ==> rows[i].id != rows[j].id
  }

  /** With distinct ids, deleting the id of the row at index `k` removes that
      row and keeps every other row, in order. */
  lemma {:induction false} WithoutIdRemovesOneRow(rows: seq<Assignment>, k: nat)
    requires DistinctIds(rows) && k < |rows|
    ensures WithoutId(rows, rows[k].id) == rows[..k] + rows[k + 1..]
  {
    var id := rows[k].id;
    forall i | 0 <= i < |rows| && i != k
      ensures rows[i].id != id
    {
      if i < k { assert rows[i].id != rows[k].id; } else { assert rows[k].id != rows[i].id; }
    }
    FilterDropsOne(rows, (a: Assignment) => a.id != id, k);
  }

  /** The join condition and filter of the staff listing:
      `a.user_id = u.id AND a.subject = ? AND u.batch = ? AND a.assignment_number = ?`. */
  predicate Listed(a: Assignment, u: User, subject: string, batch: string, assignmentNumber: string)
  {
    a.userId == u.id && a.subject == subject && u.batch == batch && a.assignmentNumber == assignmentNumber
  }

  function ViewOf(a: Assignment, u: User): AssignmentView
  {
    AssignmentView(a.id, u.usn, u.name, a.category, a.title, a.description, a.file, a.assignmentNumber)
  }

  /** How many users of `users` (counted with repetition) join with `a`
      into the view `v`. */
  ghost function UsersJoining(a: Assignment, users: seq<User>, subject: string, batch: string,
                              assignmentNumber: string, v: AssignmentView): nat
  {
    if users == [] then 0
    else
      (if Listed(a, users[0], subject, batch, assignmentNumber) && ViewOf(a, users[0]) == v then 1 else 0)
      + UsersJoining(a, users[1..], subject, batch, assignmentNumber, v)
  }

  /** How many (assignment, user) pairs of the two tables join into the view `v`. */
  ghost function PairsJoining(rows: seq<Assignment>, users: seq<User>, subject: string, batch: string,
                              assignmentNumber: string, v: AssignmentView): nat
  {
    if rows == [] then 0
    else
      UsersJoining(rows[0], users, subject, batch, assignmentNumber, v)
      + PairsJoining(rows[1..], users, subject, batch, assignmentNumber, v)
  }

  /** The joined rows contributed by one assignment. */
  function ListingOf(a: Assignment, users: seq<User>, subject: string, batch: string, assignmentNumber: string)
    : (r: seq<AssignmentView>)
    ensures forall v :: v in r <==>
      exists u :: u in users && Listed(a, u, subject, batch, assignmentNumber) && v == ViewOf(a, u)
    ensures forall v :: multiset(r)[v] == UsersJoining(a, users, subject, batch, assignmentNumber, v)
  {
    if users == [] then []
    else
      (if Listed(a, users[0], subject, batch, assignmentNumber) then [ViewOf(a, users[0])] else [])
      + ListingOf(a, users[1..], subject, batch, assignmentNumber)
  }

  /** The staff listing: `assignments INNER JOIN users` filtered on subject,
      batch and assignment number. */
  function StaffListing(rows: seq<Assignment>, users: seq<User>, subject: string, batch: string, assignmentNumber: string)
    : (r: seq<AssignmentView>)
    ensures forall v :: v in r <==>
      exists a, u :: a in rows && u in users && Listed(a, u, subject, batch, assignmentNumber) && v == ViewOf(a, u)
    ensures forall v :: multiset(r)[v] == PairsJoining(rows, users, subject, batch, assignmentNumber, v)
  {
    if rows == [] then []
    else
      ListingOf(rows[0], users, subject, batch, assignmentNumber)
      + StaffListing(rows[1..], users, subject, batch, assignmentNumber)
  }
}
