/** The homework database: its five tables as rows, and every SQL statement the
    pages issue as a function of the whole database value `Db`.

    Divergences from the statements as written, where this model follows the
    evident intent (module `Findings` models the last three as written):
    - the login query filters on a column `role` (main.py:42) while every other
      statement calls that column `user_type` (main.py:84, 180, 264): both are
      the one field `UserRow.role` here. If the table has no column `role`,
      SQLite refuses the login query and nobody can log in;
    - both user INSERTs name three columns and supply four values
      (main.py:84-85, 134-135). SQLite refuses such a statement, so as written
      Add Teacher fails with an uncaught error and Add Student reports a
      database error: no account is ever added. Here the fourth value is the
      display name, stored in `UserRow.name`;
    - the add-student path looks the selected labels up by `code`
      (main.py:127, 142) although the form offers subject names (main.py:117);
    - it then stores the subject's `name` as the enrollment's `subject_id`
      (main.py:142-147). A text `subject_id` never equals an integer `s.id`, so
      the joins at main.py:239, 262 and 297 never reach such an enrollment.
    Here the add-student path resolves names to ids, as the add-teacher path
    does (main.py:92-93).
 */
module Tables {
  import opened Relational

  datatype Role = Admin | Teacher | Student

  /** The grades the grading form offers. */
  type Grade = g: int | 0 <= g <= 2

  /** Table `User`. */
  datatype UserRow = UserRow(id: nat, username: string, password: string, role: Role, name: string)

  /** Table `subjects`. */
  datatype SubjectRow = SubjectRow(id: nat, name: string, code: string)

  /** Table `user_subjects`: which teacher teaches, which student studies, what. */
  datatype Enrollment = Enrollment(userId: nat, subjectId: nat)

  /** Table `assignments`: one question of a subject. */
  datatype AssignmentRow = AssignmentRow(id: nat, subjectId: nat, questionNumber: int, questionText: string)

  /** Table `AssignmentStudent`: one question sent to one student; NULL columns are `None`. */
  datatype SubmissionRow = SubmissionRow(
    id: nat, studentId: nat, assignmentId: nat,
    answer: Option<string>, grade: Option<Grade>, feedback: Option<string>)

  /** Whom a published question goes to: the "Send to" choice. */
  datatype Recipients = SingleStudent(studentId: nat) | AllStudents

  /** Why a page action wrote nothing: a selected subject that does not exist,
      or a statement SQLite refuses to prepare. */
  datatype Error = UnknownSubject(name: string) | StatementRejected

  datatype Result<+T> = Success(value: T) | Failure(error: Error)

  function UserKey(u: UserRow): nat { u.id }
  function SubjectKey(s: SubjectRow): nat { s.id }
  function AssignmentKey(a: AssignmentRow): nat { a.id }
  function SubmissionKey(row: SubmissionRow): nat { row.id }

  /** A primary key: distinct, and below the next rowid to be handed out. */
  ghost predicate KeysBelow<T>(rows: seq<T>, key: T -> nat, next: nat)
  {
    DistinctKeys(rows, key) && forall i :: 0 <= i < |rows| ==> key(rows[i]) < next
  }

  predicate HasSubjectNamed(subjects: seq<SubjectRow>, name: string)
  {
    exists s :: s in subjects && s.name == name
  }

  /** `SELECT id FROM subjects WHERE name=?` then `fetchone()[0]`. */
  function SubjectIdByName(subjects: seq<SubjectRow>, name: string): (r: Option<nat>)
    ensures r.None? <==> !HasSubjectNamed(subjects, name)
    ensures r.Some? ==> exists s :: s in subjects && s.name == name && s.id == r.value
  {
    match First(subjects, (s: SubjectRow) => s.name == name)
    case None => None
    case Some(s) => Some(s.id)
  }

  /** `SELECT id FROM User WHERE username = ?` as a scalar subquery: the first
      account with that username, whatever its role. */
  function UserIdByUsername(users: seq<UserRow>, username: string): (r: Option<nat>)
    ensures r.None? <==> forall u :: u in users ==> u.username != username
    ensures r.Some? ==> exists u :: u in users && u.username == username && u.id == r.value
  {
    match First(users, (u: UserRow) => u.username == username)
    case None => None
    case Some(u) => Some(u.id)
  }

  /** The first selected subject label that names no subject: the one the
      add-account paths stop at. */
  function MissingSubject(subjects: seq<SubjectRow>, names: seq<string>): (r: Option<string>)
    ensures r.None? <==> forall n :: n in names ==> HasSubjectNamed(subjects, n)
    ensures r.Some? ==> r.value in names && !HasSubjectNamed(subjects, r.value)
  {
    First(names, (n: string) => !HasSubjectNamed(subjects, n))
  }

  /** One `user_subjects` row per selected subject, in selection order. */
  function EnrollmentRows(userId: nat, subjects: seq<SubjectRow>, names: seq<string>): (r: seq<Enrollment>)
    requires forall n :: n in names ==> HasSubjectNamed(subjects, n)
    ensures |r| == |names| && forall e :: e in r ==> e.userId == userId
  {
    seq(|names|, k requires 0 <= k < |names| =>
      assert names[k] in names;
      Enrollment(userId, SubjectIdByName(subjects, names[k]).value))
  }

  /** The enrollments for one more label are those for the labels before it
      and one row for it. */
  lemma EnrollmentRowsSnoc(userId: nat, subjects: seq<SubjectRow>, names: seq<string>, i: nat)
    requires i < |names| && forall n :: n in names[..i + 1] ==> HasSubjectNamed(subjects, n)
    ensures forall n :: n in names[..i] ==> HasSubjectNamed(subjects, n)
    ensures EnrollmentRows(userId, subjects, names[..i + 1])
      == EnrollmentRows(userId, subjects, names[..i]) + [Enrollment(userId, SubjectIdByName(subjects, names[i]).value)]
  {
    assert names[..i + 1][..i] == names[..i];
    assert names[..i + 1][i] == names[i];
  }

  /** The rows `INSERT INTO assignments ... SELECT id, ?, ? FROM subjects WHERE
      name = ?` adds: one per subject of that name, with consecutive rowids. */
  function NewAssignments(named: seq<SubjectRow>, firstId: nat, questionNumber: int, questionText: string): (r: seq<AssignmentRow>)
  {
    seq(|named|, k requires 0 <= k < |named| => AssignmentRow(firstId + k, named[k].id, questionNumber, questionText))
  }

  /** The `AssignmentStudent` rows a publish adds: answer, grade and feedback NULL. */
  function NewSubmissions(studentIds: seq<nat>, assignmentId: nat, firstId: nat): (r: seq<SubmissionRow>)
  {
    seq(|studentIds|, k requires 0 <= k < |studentIds| =>
      SubmissionRow(firstId + k, studentIds[k], assignmentId, None, None, None))
  }

  function Ids(accounts: seq<UserRow>): (r: seq<nat>)
    ensures |r| == |accounts| && forall k :: 0 <= k < |accounts| ==> r[k] == accounts[k].id
  {
    seq(|accounts|, k requires 0 <= k < |accounts| => accounts[k].id)
  }

  /** `feedback if feedback else None`: an empty feedback box stores NULL. */
  function StoredFeedback(text: string): (r: Option<string>)
    ensures r.None? <==> text == ""
    ensures r.Some? ==> r.value == text
  {
    if text == "" then None else Some(text)
  }

  /** The database: the five tables in rowid order and the next rowid of each
      table that has one. */
  datatype Db = Db(
    users: seq<UserRow>,
    subjects: seq<SubjectRow>,
    userSubjects: seq<Enrollment>,
    assignments: seq<AssignmentRow>,
    submissions: seq<SubmissionRow>,
    nextUserId: nat,
    nextSubjectId: nat,
    nextAssignmentId: nat,
    nextSubmissionId: nat)
  {
    /** Primary keys are keys, and every enrollment names a rowid already handed out. */
    ghost predicate Valid()
    {
      && KeysBelow(users, UserKey, nextUserId)
      && KeysBelow(subjects, SubjectKey, nextSubjectId)
      && KeysBelow(assignments, AssignmentKey, nextAssignmentId)
      && KeysBelow(submissions, SubmissionKey, nextSubmissionId)
      && forall e :: e in userSubjects ==> e.userId < nextUserId
    }

    // ---------------------------------------------------------------- joins

    /** The account is enrolled in some subject of that name (the
        `User JOIN user_subjects JOIN subjects ... s.name = ?` join). */
    predicate EnrolledIn(userId: nat, subjectName: string)
    {
      exists e, s :: e in userSubjects && s in subjects
        && e.userId == userId && e.subjectId == s.id && s.name == subjectName
    }

    /** The row's question belongs to a subject of that name. */
    predicate InSubject(row: SubmissionRow, subjectName: string)
    {
      exists a, s :: a in assignments && s in subjects
        && a.id == row.assignmentId && a.subjectId == s.id && s.name == subjectName
    }

    /** The row's student still has an account (`JOIN User u ON sa.student_id = u.id`). */
    predicate HasStudent(row: SubmissionRow)
    {
      exists u :: u in users && u.id == row.studentId
    }

    /** The row's student is an account with that username. */
    predicate OwnedBy(row: SubmissionRow, username: string)
    {
      exists u :: u in users && u.id == row.studentId && u.username == username
    }

    // -------------------------------------------------------------- queries

    /** Login (main.py:40-44): some account with exactly this username,
        password and role. */
    function Login(username: string, password: string, role: Role): (r: Option<UserRow>)
      ensures r.Some? <==> exists u :: u in users && u.username == username && u.password == password && u.role == role
      ensures r.Some? ==>
        r.value in users && r.value.username == username && r.value.password == password && r.value.role == role
    {
      First(users, (u: UserRow) => u.username == username && u.password == password && u.role == role)
    }

    /** The subjects of the logged-in teacher or student (main.py:236-242,
        363-369), as subject rows. */
    function EnrolledSubjects(username: string): (r: seq<SubjectRow>)
      ensures forall s :: s in r <==> (s in subjects
        && exists u, e :: u in users && e in userSubjects
             && u.username == username && e.userId == u.id && e.subjectId == s.id)
    {
      var us, es := users, userSubjects;
      Filter(subjects, (s: SubjectRow) =>
        exists u, e :: u in us && e in es && u.username == username && e.userId == u.id && e.subjectId == s.id)
    }

    /** The students of a subject (main.py:259-266, and the fan-out of main.py:292-300). */
    function EnrolledStudents(subjectName: string): (r: seq<UserRow>)
      ensures forall u :: u in r <==> u in users && u.role == Student && EnrolledIn(u.id, subjectName)
      ensures DistinctKeys(users, UserKey) ==> DistinctKeys(r, UserKey)
    {
      var keep := (u: UserRow) => u.role == Student && EnrolledIn(u.id, subjectName);
      assert DistinctKeys(users, UserKey) ==> DistinctKeys(Filter(users, keep), UserKey) by {
        if DistinctKeys(users, UserKey) { FilterKeepsKeysDistinct(users, keep, UserKey); }
      }
      Filter(users, keep)
    }

    /** The teacher's list to grade (main.py:309-316): the subject's rows with no grade. */
    function GradingList(subjectName: string): (r: seq<SubmissionRow>)
      ensures forall row :: row in r <==> (row in submissions
        && row.grade.None? && InSubject(row, subjectName) && HasStudent(row))
    {
      Filter(submissions, (row: SubmissionRow) => row.grade.None? && InSubject(row, subjectName) && HasStudent(row))
    }

    /** The student's homework (main.py:380-387): their rows of the subject with no answer. */
    function HomeworkList(subjectName: string, username: string): (r: seq<SubmissionRow>)
      ensures forall row :: row in r <==> (row in submissions
        && row.answer.None? && InSubject(row, subjectName) && OwnedBy(row, username))
    {
      Filter(submissions, (row: SubmissionRow) => row.answer.None? && InSubject(row, subjectName) && OwnedBy(row, username))
    }

    /** The student's grades (main.py:425-432): their rows of the subject with a grade. */
    function GradesList(subjectName: string, username: string): (r: seq<SubmissionRow>)
      ensures forall row :: row in r <==> (row in submissions
        && row.grade.Some? && InSubject(row, subjectName) && OwnedBy(row, username))
    {
      Filter(submissions, (row: SubmissionRow) => row.grade.Some? && InSubject(row, subjectName) && OwnedBy(row, username))
    }

    // ---------------------------------------------------------- transitions

    /** Add Teacher / Add Student (main.py:83-97, 125-147): one account row
        and one enrollment per selected subject, or, when a selected subject
        does not exist, nothing at all. */
    function AddAccount(role: Role, username: string, password: string, name: string, subjectNames: seq<string>): (r: (Db, Result<nat>))
      ensures r.1.Success? <==> forall n :: n in subjectNames ==> HasSubjectNamed(subjects, n)
      ensures r.1.Failure? ==>
        r.0 == this && r.1.error.UnknownSubject?
        && r.1.error.name in subjectNames && !HasSubjectNamed(subjects, r.1.error.name)
    {
      match MissingSubject(subjects, subjectNames)
      case Some(n) => (this, Failure(UnknownSubject(n)))
      case None =>
        (this.(users := users + [UserRow(nextUserId, username, password, role, name)],
               userSubjects := userSubjects + EnrollmentRows(nextUserId, subjects, subjectNames),
               nextUserId := nextUserId + 1),
         Success(nextUserId))
    }

    /** Add Subject (main.py:165-168). */
    function AddSubject(name: string, code: string): (r: (Db, nat))
      ensures r.1 == nextSubjectId
      ensures forall s :: s in r.0.subjects <==> s in subjects || s == SubjectRow(r.1, name, code)
      ensures r.0 == this.(subjects := r.0.subjects, nextSubjectId := nextSubjectId + 1)
    {
      (this.(subjects := subjects + [SubjectRow(nextSubjectId, name, code)], nextSubjectId := nextSubjectId + 1),
       nextSubjectId)
    }

    /** Delete Account (main.py:195): the account row only, no cascade. */
    function DeleteAccount(id: nat): (r: Db)
      ensures forall u :: u in r.users <==> u in users && u.id != id
      ensures r == this.(users := r.users)
    {
      this.(users := Filter(users, (u: UserRow) => u.id != id))
    }

    /** Delete Subject (main.py:218): every subject row of that name, no cascade. */
    function DeleteSubject(name: string): (r: Db)
      ensures forall s :: s in r.subjects <==> s in subjects && s.name != name
      ensures r == this.(subjects := r.subjects)
    {
      this.(subjects := Filter(subjects, (s: SubjectRow) => s.name != name))
    }

    /** The subjects an `INSERT ... SELECT ... FROM subjects WHERE name = ?` reads. */
    function SubjectsNamed(subjectName: string): (r: seq<SubjectRow>)
      ensures forall s :: s in r <==> s in subjects && s.name == subjectName
    {
      Filter(subjects, (s: SubjectRow) => s.name == subjectName)
    }

    /** The students a publish sends the question to. */
    function Targets(subjectName: string, to: Recipients): (r: seq<nat>)
    {
      match to
      case SingleStudent(sid) => [sid]
      case AllStudents => Ids(EnrolledStudents(subjectName))
    }

    /** Add Assignment (main.py:278-300): the question is inserted once per
        subject of that name and `lastrowid` is the last of them; then one
        submission row goes to the chosen student, or to every student enrolled
        in the subject at this moment. */
    function Publish(subjectName: string, questionNumber: int, questionText: string, to: Recipients): (r: (Db, Result<nat>))
      ensures r.1.Failure? <==> !HasSubjectNamed(subjects, subjectName)
      ensures r.1.Failure? ==> r.0 == this && r.1.error == UnknownSubject(subjectName)
    {
      var named := SubjectsNamed(subjectName);
      if named == [] then
        assert forall s :: s in subjects ==> s.name != subjectName;
        (this, Failure(UnknownSubject(subjectName)))
      else
        assert named[0] in subjects;
        var aid := nextAssignmentId + |named| - 1;
        var targets := Targets(subjectName, to);
        (this.(assignments := assignments + NewAssignments(named, nextAssignmentId, questionNumber, questionText),
               nextAssignmentId := nextAssignmentId + |named|,
               submissions := submissions + NewSubmissions(targets, aid, nextSubmissionId),
               nextSubmissionId := nextSubmissionId + |targets|),
         Success(aid))
    }

    /** Submit Grade (main.py:338-342): set grade and feedback on the row with
        that id; leave every other row, and that row's answer, as they are. */
    function GradeSubmission(submissionId: nat, grade: Grade, feedbackText: string): (r: Db)
      ensures r == this.(submissions := r.submissions)
      ensures |r.submissions| == |submissions|
      ensures forall i :: 0 <= i < |submissions| ==>
        r.submissions[i] == if submissions[i].id == submissionId
          then submissions[i].(grade := Some(grade), feedback := StoredFeedback(feedbackText))
          else submissions[i]
    {
      var fb := StoredFeedback(feedbackText);
      this.(submissions := Update(submissions, (row: SubmissionRow) => row.id == submissionId,
                                  (row: SubmissionRow) => row.(grade := Some(grade), feedback := fb)))
    }

    /** Submit Answer (main.py:408-413): overwrite the answer of the rows of that
        question whose student is the first account with that username. */
    function SubmitAnswer(assignmentId: nat, username: string, answer: string): (r: Db)
      ensures r == this.(submissions := r.submissions)
      ensures |r.submissions| == |submissions|
      ensures forall i :: 0 <= i < |submissions| ==>
        r.submissions[i] == if submissions[i].assignmentId == assignmentId
                               && UserIdByUsername(users, username) == Some(submissions[i].studentId)
          then submissions[i].(answer := Some(answer))
          else submissions[i]
    {
      var student := UserIdByUsername(users, username);
      this.(submissions := Update(submissions,
                                  (row: SubmissionRow) => row.assignmentId == assignmentId && student == Some(row.studentId),
                                  (row: SubmissionRow) => row.(answer := Some(answer))))
    }
  }

  /** The database the pages start from: no rows, rowids from 1. */
  function Empty(): (db: Db)
    ensures db.Valid() && db.users == [] && db.subjects == [] && db.userSubjects == []
      && db.assignments == [] && db.submissions == []
  {
    Db([], [], [], [], [], 1, 1, 1, 1)
  }

  /** An add-account call whose selected subjects all exist commits the account
      row and its enrollments. */
  lemma AddAccountCommits(db: Db, role: Role, username: string, password: string, name: string, subjectNames: seq<string>)
    requires forall n :: n in subjectNames ==> HasSubjectNamed(db.subjects, n)
    ensures db.AddAccount(role, username, password, name, subjectNames) ==
      (db.(users := db.users + [UserRow(db.nextUserId, username, password, role, name)],
           userSubjects := db.userSubjects + EnrollmentRows(db.nextUserId, db.subjects, subjectNames),
           nextUserId := db.nextUserId + 1),
       Success(db.nextUserId))
  {
  }

  /** A publish whose subject exists commits its question rows and its
      submission rows. */
  lemma PublishCommits(db: Db, subjectName: string, questionNumber: int, questionText: string, to: Recipients)
    requires HasSubjectNamed(db.subjects, subjectName)
    ensures var named := db.SubjectsNamed(subjectName);
      var aid := db.nextAssignmentId + |named| - 1;
      var targets := db.Targets(subjectName, to);
      && named != []
      && db.Publish(subjectName, questionNumber, questionText, to) ==
        (db.(assignments := db.assignments + NewAssignments(named, db.nextAssignmentId, questionNumber, questionText),
             nextAssignmentId := db.nextAssignmentId + |named|,
             submissions := db.submissions + NewSubmissions(targets, aid, db.nextSubmissionId),
             nextSubmissionId := db.nextSubmissionId + |targets|),
         Success(aid))
  {
    var s :| s in db.subjects && s.name == subjectName;
    assert s in db.SubjectsNamed(subjectName);
  }

  /** The recipients of a publish do not depend on the questions table, so they
      are the same before and after the question rows go in. */
  lemma TargetsIgnoreQuestions(db: Db, assignments: seq<AssignmentRow>, nextAssignmentId: nat, subjectName: string, to: Recipients)
    ensures db.(assignments := assignments, nextAssignmentId := nextAssignmentId).Targets(subjectName, to)
      == db.Targets(subjectName, to)
  {
    var db' := db.(assignments := assignments, nextAssignmentId := nextAssignmentId);
    FilterAgrees(db.users, (u: UserRow) => u.role == Student && db'.EnrolledIn(u.id, subjectName),
                           (u: UserRow) => u.role == Student && db.EnrolledIn(u.id, subjectName));
  }

  /** The question rows of a publish: one per subject read, in order, each
      carrying that subject's id and the question, under consecutive fresh ids. */
  lemma NewAssignmentsRows(named: seq<SubjectRow>, firstId: nat, questionNumber: int, questionText: string)
    ensures var r := NewAssignments(named, firstId, questionNumber, questionText);
      && |r| == |named|
      && (forall k :: 0 <= k < |named| ==> r[k].id == firstId + k && r[k].subjectId == named[k].id)
      && (forall a :: a in r ==>
            (firstId <= a.id < firstId + |named| && a.questionNumber == questionNumber && a.questionText == questionText))
  {
  }

  /** The submission rows of a publish: one per recipient, in order, for that
      question, with answer, grade and feedback unset, under consecutive fresh ids. */
  lemma NewSubmissionsRows(studentIds: seq<nat>, assignmentId: nat, firstId: nat)
    ensures var r := NewSubmissions(studentIds, assignmentId, firstId);
      && |r| == |studentIds|
      && (forall k :: 0 <= k < |studentIds| ==> r[k].id == firstId + k && r[k].studentId == studentIds[k])
      && (forall row :: row in r ==>
            (firstId <= row.id < firstId + |studentIds| && row.assignmentId == assignmentId
             && row.answer.None? && row.grade.None? && row.feedback.None?))
  {
  }

  /** "Single Student" sends the question to that student alone; "All
      Students" to exactly the ids of the students enrolled in a subject of
      that name. */
  lemma TargetsAre(db: Db, subjectName: string, to: Recipients)
    ensures to.SingleStudent? ==> db.Targets(subjectName, to) == [to.studentId]
    ensures to.AllStudents? ==> forall id :: id in db.Targets(subjectName, to) <==>
      exists u :: u in db.users && u.id == id && u.role == Student && db.EnrolledIn(u.id, subjectName)
  {
    if to.AllStudents? {
      var students := db.EnrolledStudents(subjectName);
      forall id | id in db.Targets(subjectName, to)
        ensures exists u :: u in db.users && u.id == id && u.role == Student && db.EnrolledIn(u.id, subjectName)
      {
        var k :| 0 <= k < |students| && Ids(students)[k] == id;
        assert students[k] in students;
      }
      forall id | exists u :: u in db.users && u.id == id && u.role == Student && db.EnrolledIn(u.id, subjectName)
        ensures id in db.Targets(subjectName, to)
      {
        var u :| u in db.users && u.id == id && u.role == Student && db.EnrolledIn(u.id, subjectName);
        var k :| 0 <= k < |students| && students[k] == u;
        assert Ids(students)[k] == id;
      }
    }
  }

  /** An add-account call stops at label `i` when it is the first that names no subject. */
  lemma AddAccountStopsAt(db: Db, role: Role, username: string, password: string, name: string, subjectNames: seq<string>, i: nat)
    requires i < |subjectNames| && !HasSubjectNamed(db.subjects, subjectNames[i])
    requires forall j :: 0 <= j < i ==> HasSubjectNamed(db.subjects, subjectNames[j])
    ensures db.AddAccount(role, username, password, name, subjectNames) == (db, Failure(UnknownSubject(subjectNames[i])))
  {
    MissingSubjectAt(db.subjects, subjectNames, i);
  }

  /** The add-account paths stop at label `i` when it is the first that names no subject. */
  lemma MissingSubjectAt(subjects: seq<SubjectRow>, names: seq<string>, i: nat)
    requires i < |names| && !HasSubjectNamed(subjects, names[i])
    requires forall j :: 0 <= j < i ==> HasSubjectNamed(subjects, names[j])
    ensures MissingSubject(subjects, names) == Some(names[i])
  {
    FirstAt(names, (n: string) => !HasSubjectNamed(subjects, n), i);
  }
}
