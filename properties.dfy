/** What the statements of the homework pages guarantee, proved about the
    functions of `Tables.Db` that specify them. */
module Properties {
  import opened Relational
  import opened Tables

  // ------------------------------------------------------------ primary keys

  /** Appending rows that take the next rowids in turn keeps a primary key. */
  lemma KeysExtend<T>(rows: seq<T>, added: seq<T>, key: T -> nat, next: nat)
    requires KeysBelow(rows, key, next)
    requires forall k :: 0 <= k < |added| ==> key(added[k]) == next + k
    ensures KeysBelow(rows + added, key, next + |added|)
  {
    var all := rows + added;
    forall i, j | 0 <= i < j < |all| ensures key(all[i]) != key(all[j]) {
      if j < |rows| {
        assert all[i] == rows[i] && all[j] == rows[j];
      } else if i < |rows| {
        assert all[i] == rows[i] && all[j] == added[j - |rows|];
      } else {
        assert all[i] == added[i - |rows|] && all[j] == added[j - |rows|];
      }
    }
    forall i | 0 <= i < |all| ensures key(all[i]) < next + |added| {
      if i < |rows| { assert all[i] == rows[i]; } else { assert all[i] == added[i - |rows|]; }
    }
  }

  /** An UPDATE that leaves the key column alone keeps a primary key. */
  lemma KeysSurviveUpdate(rows: seq<SubmissionRow>, updated: seq<SubmissionRow>, next: nat)
    requires KeysBelow(rows, SubmissionKey, next)
    requires |updated| == |rows| && forall i :: 0 <= i < |rows| ==> updated[i].id == rows[i].id
    ensures KeysBelow(updated, SubmissionKey, next)
  {
  }

  // ------------------------------------------------------------------- login

  /** Login never matches across roles, and it matches the stored strings
      exactly: an account is found for a role only when one of that role
      carries this very username and password. */
  lemma LoginIsExact(db: Db, username: string, password: string, role: Role, other: Role)
    requires other != role
    requires forall u :: u in db.users && u.username == username && u.password == password ==> u.role == other
    ensures db.Login(username, password, role).None?
    ensures db.Login(username, password, other).Some? <==>
      exists u :: u in db.users && u.username == username && u.password == password
  {
  }

  // ------------------------------------------------------------ add account

  /** A successful add: one account row with the next id, one enrollment per
      selected subject pairing it with that subject's id, nothing else. In
      particular no submission row appears, so a student enrolled after a
      question was published never receives it. */
  lemma AddAccountInserts(db: Db, role: Role, username: string, password: string, name: string, subjectNames: seq<string>)
    requires forall n :: n in subjectNames ==> HasSubjectNamed(db.subjects, n)
    ensures var r := db.AddAccount(role, username, password, name, subjectNames);
      && r.1 == Success(db.nextUserId)
      && r.0.users == db.users + [UserRow(db.nextUserId, username, password, role, name)]
      && r.0.subjects == db.subjects && r.0.assignments == db.assignments && r.0.submissions == db.submissions
      && |r.0.userSubjects| == |db.userSubjects| + |subjectNames|
      && r.0.userSubjects[..|db.userSubjects|] == db.userSubjects
      && forall k :: 0 <= k < |subjectNames| ==>
           var e := r.0.userSubjects[|db.userSubjects| + k];
           e.userId == db.nextUserId && SubjectIdByName(db.subjects, subjectNames[k]) == Some(e.subjectId)
  {
    AddAccountCommits(db, role, username, password, name, subjectNames);
    var r := db.AddAccount(role, username, password, name, subjectNames);
    var added := EnrollmentRows(db.nextUserId, db.subjects, subjectNames);
    assert r.0.userSubjects == db.userSubjects + added;
    assert r.0.userSubjects[..|db.userSubjects|] == db.userSubjects;
    forall k | 0 <= k < |subjectNames| ensures r.0.userSubjects[|db.userSubjects| + k] == added[k] {
    }
  }

  /** The new account is enrolled in exactly the selected subjects: never in a
      subset of them, never in another. */
  lemma AddAccountEnrollsExactly(db: Db, role: Role, username: string, password: string, name: string, subjectNames: seq<string>)
    requires db.Valid()
    requires forall n :: n in subjectNames ==> HasSubjectNamed(db.subjects, n)
    ensures var r := db.AddAccount(role, username, password, name, subjectNames);
      forall sid :: (exists e :: e in r.0.userSubjects && e.userId == db.nextUserId && e.subjectId == sid)
        <==> (exists n :: n in subjectNames && SubjectIdByName(db.subjects, n) == Some(sid))
  {
    AddAccountCommits(db, role, username, password, name, subjectNames);
    var r := db.AddAccount(role, username, password, name, subjectNames);
    var added := EnrollmentRows(db.nextUserId, db.subjects, subjectNames);
    forall sid ensures (exists e :: e in r.0.userSubjects && e.userId == db.nextUserId && e.subjectId == sid)
        <==> (exists n :: n in subjectNames && SubjectIdByName(db.subjects, n) == Some(sid))
    {
      if e :| e in r.0.userSubjects && e.userId == db.nextUserId && e.subjectId == sid {
        assert e !in db.userSubjects;
        var k :| 0 <= k < |added| && added[k] == e;
        assert subjectNames[k] in subjectNames;
      }
      if n :| n in subjectNames && SubjectIdByName(db.subjects, n) == Some(sid) {
        var k :| 0 <= k < |subjectNames| && subjectNames[k] == n;
        assert added[k] in r.0.userSubjects;
      }
    }
  }

  lemma AddAccountKeepsValid(db: Db, role: Role, username: string, password: string, name: string, subjectNames: seq<string>)
    requires db.Valid()
    ensures db.AddAccount(role, username, password, name, subjectNames).0.Valid()
  {
    if forall n :: n in subjectNames ==> HasSubjectNamed(db.subjects, n) {
      AddAccountCommits(db, role, username, password, name, subjectNames);
      var r := db.AddAccount(role, username, password, name, subjectNames);
      KeysExtend(db.users, [UserRow(db.nextUserId, username, password, role, name)], UserKey, db.nextUserId);
      var added := EnrollmentRows(db.nextUserId, db.subjects, subjectNames);
        forall e | e in r.0.userSubjects ensures e.userId < r.0.nextUserId {
        if e !in db.userSubjects {
          var k :| 0 <= k < |added| && added[k] == e;
        }
      }
    }
  }

  // ------------------------------------------------------------ add subject

  /** Add Subject appends one row under a rowid no subject had. */
  lemma AddSubjectInserts(db: Db, name: string, code: string)
    requires db.Valid()
    ensures var r := db.AddSubject(name, code);
      && r.0.Valid()
      && r.0.subjects == db.subjects + [SubjectRow(r.1, name, code)]
      && (forall s :: s in db.subjects ==> s.id != r.1)
      && r.0 == db.(subjects := r.0.subjects, nextSubjectId := r.0.nextSubjectId)
  {
    KeysExtend(db.subjects, [SubjectRow(db.nextSubjectId, name, code)], SubjectKey, db.nextSubjectId);
  }

  // ---------------------------------------------------------------- deletes

  lemma DeleteAccountKeepsValid(db: Db, id: nat)
    requires db.Valid()
    ensures db.DeleteAccount(id).Valid()
  {
    FilterKeepsKeysDistinct(db.users, (u: UserRow) => u.id != id, UserKey);
  }

  lemma DeleteSubjectKeepsValid(db: Db, name: string)
    requires db.Valid()
    ensures db.DeleteSubject(name).Valid()
  {
    FilterKeepsKeysDistinct(db.subjects, (s: SubjectRow) => s.name != name, SubjectKey);
  }

  /** Delete Account removes exactly the one row with that id and keeps the
      order of the rest. */
  lemma DeleteAccountRemovesExactly(db: Db, id: nat, i: nat)
    requires db.Valid() && i < |db.users| && db.users[i].id == id
    ensures db.DeleteAccount(id).users == db.users[..i] + db.users[i + 1..]
  {
    forall j | 0 <= j < |db.users| && j != i ensures db.users[j].id != id {
      if j < i {
        assert UserKey(db.users[j]) != UserKey(db.users[i]);
      } else {
        assert UserKey(db.users[i]) != UserKey(db.users[j]);
      }
    }
    FilterRemovesOnly(db.users, (u: UserRow) => u.id != id, i);
  }

  /** Without a cascade, a deleted account's submission rows stay in the table,
      but the inner join with `User` hides them from every list. */
  lemma DeletedAccountHidden(db: Db, id: nat)
    ensures var r := db.DeleteAccount(id);
      && r.submissions == db.submissions && r.userSubjects == db.userSubjects
      && (forall n, row :: row in r.GradingList(n) ==> row.studentId != id)
      && (forall n, u, row :: row in r.HomeworkList(n, u) ==> row.studentId != id)
      && (forall n, u, row :: row in r.GradesList(n, u) ==> row.studentId != id)
  {
  }

  /** Without a cascade, a deleted subject's questions stay in the table, but
      no list of that subject shows them any more. */
  lemma DeletedSubjectHidden(db: Db, name: string, username: string)
    ensures var r := db.DeleteSubject(name);
      && r.assignments == db.assignments && r.submissions == db.submissions && r.userSubjects == db.userSubjects
      && r.GradingList(name) == [] && r.HomeworkList(name, username) == [] && r.GradesList(name, username) == []
  {
    var r := db.DeleteSubject(name);
    assert forall row :: !r.InSubject(row, name);
    FilterNone(r.submissions, (row: SubmissionRow) => row.grade.None? && r.InSubject(row, name) && r.HasStudent(row));
    FilterNone(r.submissions, (row: SubmissionRow) => row.answer.None? && r.InSubject(row, name) && r.OwnedBy(row, username));
    FilterNone(r.submissions, (row: SubmissionRow) => row.grade.Some? && r.InSubject(row, name) && r.OwnedBy(row, username));
  }

  // ---------------------------------------------------------------- publish

  /** When one subject carries the name, exactly one question row is inserted,
      and it carries that subject's id. */
  lemma PublishOneAssignment(db: Db, subjectName: string, questionNumber: int, questionText: string, to: Recipients)
    requires db.Valid() && HasSubjectNamed(db.subjects, subjectName)
    requires forall s, t :: s in db.subjects && t in db.subjects && s.name == subjectName && t.name == subjectName ==> s.id == t.id
    ensures var r := db.Publish(subjectName, questionNumber, questionText, to);
      && |r.0.assignments| == |db.assignments| + 1
      && r.0.assignments[|db.assignments|].id == r.1.value
      && Some(r.0.assignments[|db.assignments|].subjectId) == SubjectIdByName(db.subjects, subjectName)
  {
    PublishCommits(db, subjectName, questionNumber, questionText, to);
    var named := db.SubjectsNamed(subjectName);
    FilterKeepsKeysDistinct(db.subjects, (s: SubjectRow) => s.name == subjectName, SubjectKey);
    OneIdOneRow(named);
    var sid :| SubjectIdByName(db.subjects, subjectName) == Some(sid);
    var s :| s in db.subjects && s.name == subjectName && s.id == sid;
    assert named[0] in named;
  }

  /** The INSERT ... SELECT reads every copy of a subject row of that name,
      and no other row. */
  lemma SubjectsNamedCounts(db: Db, subjectName: string)
    ensures forall s ::
      multiset(db.SubjectsNamed(subjectName))[s] == (if s.name == subjectName then multiset(db.subjects)[s] else 0)
  {
    FilterCounts(db.subjects, (s: SubjectRow) => s.name == subjectName);
  }

  /** The rows a publish appends to `assignments`. */
  lemma PublishAppendsQuestions(db: Db, subjectName: string, questionNumber: int, questionText: string, to: Recipients)
    requires HasSubjectNamed(db.subjects, subjectName)
    ensures db.Publish(subjectName, questionNumber, questionText, to).0.assignments ==
      db.assignments + NewAssignments(db.SubjectsNamed(subjectName), db.nextAssignmentId, questionNumber, questionText)
  {
    PublishCommits(db, subjectName, questionNumber, questionText, to);
  }

  /** Appending the question rows for `named` keeps the table's rows and adds
      one row per subject read, in order, each carrying that subject's id. */
  lemma QuestionRowsFollow(all: seq<AssignmentRow>, rows: seq<AssignmentRow>, named: seq<SubjectRow>,
                           firstId: nat, questionNumber: int, questionText: string)
    requires all == rows + NewAssignments(named, firstId, questionNumber, questionText)
    ensures all[..|rows|] == rows
    ensures |all| == |rows| + |named|
    ensures forall k :: 0 <= k < |named| ==>
      (all[|rows| + k].subjectId == named[k].id
       && all[|rows| + k].questionNumber == questionNumber && all[|rows| + k].questionText == questionText)
  {
    var added := NewAssignments(named, firstId, questionNumber, questionText);
    assert all[..|rows|] == rows;
    forall k | 0 <= k < |named| ensures all[|rows| + k] == added[k] {
    }
  }

  /** A publish inserts one question row per subject row of that name, in
      table order, after the rows already there. */
  lemma PublishOneQuestionPerSubject(db: Db, subjectName: string, questionNumber: int, questionText: string, to: Recipients)
    requires HasSubjectNamed(db.subjects, subjectName)
    ensures db.Publish(subjectName, questionNumber, questionText, to).0.assignments[..|db.assignments|] == db.assignments
    ensures |db.Publish(subjectName, questionNumber, questionText, to).0.assignments|
      == |db.assignments| + |db.SubjectsNamed(subjectName)|
    ensures forall k :: 0 <= k < |db.SubjectsNamed(subjectName)| ==>
      (db.Publish(subjectName, questionNumber, questionText, to).0.assignments[|db.assignments| + k].subjectId
         == db.SubjectsNamed(subjectName)[k].id
       && db.Publish(subjectName, questionNumber, questionText, to).0.assignments[|db.assignments| + k].questionNumber
         == questionNumber
       && db.Publish(subjectName, questionNumber, questionText, to).0.assignments[|db.assignments| + k].questionText
         == questionText)
  {
    PublishAppendsQuestions(db, subjectName, questionNumber, questionText, to);
    QuestionRowsFollow(db.Publish(subjectName, questionNumber, questionText, to).0.assignments,
                       db.assignments, db.SubjectsNamed(subjectName), db.nextAssignmentId, questionNumber, questionText);
  }

  /** Rows with distinct keys that all share one id are a single row. */
  lemma OneIdOneRow(rows: seq<SubjectRow>)
    requires rows != [] && DistinctKeys(rows, SubjectKey)
    requires forall s, t :: s in rows && t in rows ==> s.id == t.id
    ensures |rows| == 1
  {
    assert rows[0] in rows && rows[|rows| - 1] in rows;
  }

  /** "All Students": one submission row for each distinct student enrolled in
      the subject at this moment, and for no one else. */
  lemma PublishFanOut(db: Db, subjectName: string, questionNumber: int, questionText: string)
    requires db.Valid() && HasSubjectNamed(db.subjects, subjectName)
    ensures var r := db.Publish(subjectName, questionNumber, questionText, AllStudents);
      var added := r.0.submissions[|db.submissions|..];
      && (forall i, j :: 0 <= i < j < |added| ==> added[i].studentId != added[j].studentId)
      && (set row | row in added :: row.studentId)
         == (set u | u in db.users && u.role == Student && db.EnrolledIn(u.id, subjectName) :: u.id)
      && (forall row :: row in added ==> row.assignmentId == r.1.value && row.answer.None? && row.grade.None? && row.feedback.None?)
  {
    var r := db.Publish(subjectName, questionNumber, questionText, AllStudents);
    var students := db.EnrolledStudents(subjectName);
    PublishAppends(db, subjectName, questionNumber, questionText, AllStudents);
    var added := NewSubmissions(Ids(students), r.1.value, db.nextSubmissionId);
    assert r.0.submissions[|db.submissions|..] == added;
    StudentsOfAdded(added, students, r.1.value, db.nextSubmissionId);
    assert (set u | u in students :: u.id)
        == (set u | u in db.users && u.role == Student && db.EnrolledIn(u.id, subjectName) :: u.id);
  }

  /** The rows a publish appends to `AssignmentStudent`. */
  lemma PublishAppends(db: Db, subjectName: string, questionNumber: int, questionText: string, to: Recipients)
    requires HasSubjectNamed(db.subjects, subjectName)
    ensures var r := db.Publish(subjectName, questionNumber, questionText, to);
      && r.1.Success?
      && r.0.submissions == db.submissions + NewSubmissions(db.Targets(subjectName, to), r.1.value, db.nextSubmissionId)
  {
    PublishCommits(db, subjectName, questionNumber, questionText, to);
  }

  /** The fan-out rows for a list of distinct accounts. */
  lemma StudentsOfAdded(added: seq<SubmissionRow>, students: seq<UserRow>, assignmentId: nat, firstId: nat)
    requires added == NewSubmissions(Ids(students), assignmentId, firstId)
    requires DistinctKeys(students, UserKey)
    ensures forall i, j :: 0 <= i < j < |added| ==> added[i].studentId != added[j].studentId
    ensures (set row | row in added :: row.studentId) == (set u | u in students :: u.id)
    ensures forall row :: row in added ==> row.assignmentId == assignmentId && row.answer.None? && row.grade.None? && row.feedback.None?
  {
    forall i, j | 0 <= i < j < |added| ensures added[i].studentId != added[j].studentId {
      assert UserKey(students[i]) != UserKey(students[j]);
    }
    forall row | row in added ensures row.studentId in (set u | u in students :: u.id) {
      var k :| 0 <= k < |added| && added[k] == row;
      assert students[k] in students;
    }
    forall u | u in students ensures u.id in (set row | row in added :: row.studentId) {
      var k :| 0 <= k < |students| && students[k] == u;
      assert added[k] in added;
    }
  }

  /** "Single Student": exactly one submission row, for that student. */
  lemma PublishSingle(db: Db, subjectName: string, questionNumber: int, questionText: string, studentId: nat)
    requires HasSubjectNamed(db.subjects, subjectName)
    ensures var r := db.Publish(subjectName, questionNumber, questionText, SingleStudent(studentId));
      && r.0.submissions == db.submissions + [SubmissionRow(db.nextSubmissionId, studentId, r.1.value, None, None, None)]
  {
    PublishAppends(db, subjectName, questionNumber, questionText, SingleStudent(studentId));
  }

  lemma PublishKeepsValid(db: Db, subjectName: string, questionNumber: int, questionText: string, to: Recipients)
    requires db.Valid()
    ensures db.Publish(subjectName, questionNumber, questionText, to).0.Valid()
  {
    if HasSubjectNamed(db.subjects, subjectName) {
      var named := db.SubjectsNamed(subjectName);
      var targets := db.Targets(subjectName, to);
      var aid := db.nextAssignmentId + |named| - 1;
      KeysExtend(db.assignments, NewAssignments(named, db.nextAssignmentId, questionNumber, questionText),
                 AssignmentKey, db.nextAssignmentId);
      KeysExtend(db.submissions, NewSubmissions(targets, aid, db.nextSubmissionId), SubmissionKey, db.nextSubmissionId);
    }
  }

  // ------------------------------------------------------- grade and answer

  lemma GradeKeepsValid(db: Db, submissionId: nat, grade: Grade, feedbackText: string)
    requires db.Valid()
    ensures db.GradeSubmission(submissionId, grade, feedbackText).Valid()
  {
    KeysSurviveUpdate(db.submissions, db.GradeSubmission(submissionId, grade, feedbackText).submissions, db.nextSubmissionId);
  }

  lemma SubmitKeepsValid(db: Db, assignmentId: nat, username: string, answer: string)
    requires db.Valid()
    ensures db.SubmitAnswer(assignmentId, username, answer).Valid()
  {
    KeysSurviveUpdate(db.submissions, db.SubmitAnswer(assignmentId, username, answer).submissions, db.nextSubmissionId);
  }

  /** A graded row leaves every grading list and, with its grade and
      feedback, enters its student's grades list. */
  lemma GradeMovesRow(db: Db, submissionId: nat, grade: Grade, feedbackText: string)
    ensures var r := db.GradeSubmission(submissionId, grade, feedbackText);
      && (forall n, row :: row in r.GradingList(n) ==> row.id != submissionId)
      && (forall n, u, row :: (row in db.submissions && row.id == submissionId
            && db.InSubject(row, n) && db.OwnedBy(row, u)) ==>
            row.(grade := Some(grade), feedback := StoredFeedback(feedbackText)) in r.GradesList(n, u))
  {
    var r := db.GradeSubmission(submissionId, grade, feedbackText);
    forall n, row | row in r.GradingList(n) ensures row.id != submissionId {
      var i :| 0 <= i < |r.submissions| && r.submissions[i] == row;
    }
    forall n, u, row | row in db.submissions && row.id == submissionId && db.InSubject(row, n) && db.OwnedBy(row, u)
      ensures row.(grade := Some(grade), feedback := StoredFeedback(feedbackText)) in r.GradesList(n, u)
    {
      var i :| 0 <= i < |db.submissions| && db.submissions[i] == row;
      assert r.submissions[i] in r.submissions;
      assert r.InSubject(r.submissions[i], n) && r.OwnedBy(r.submissions[i], u);
    }
  }

  /** After Submit Answer, none of the student's rows of that question is
      still listed as homework. */
  lemma AnswerLeavesHomework(db: Db, assignmentId: nat, username: string, answer: string)
    ensures var r := db.SubmitAnswer(assignmentId, username, answer);
      forall n, row :: row in r.HomeworkList(n, username) ==>
        !(row.assignmentId == assignmentId && UserIdByUsername(db.users, username) == Some(row.studentId))
  {
    var r := db.SubmitAnswer(assignmentId, username, answer);
    forall n, row | row in r.HomeworkList(n, username)
      ensures !(row.assignmentId == assignmentId && UserIdByUsername(db.users, username) == Some(row.studentId))
    {
      var i :| 0 <= i < |r.submissions| && r.submissions[i] == row;
    }
  }

  /** Submit Answer finds the student by username alone (main.py:411-413).
      When an earlier account of another role carries the same username, the
      answer is written to no row, and the question stays on the student's
      homework list. */
  lemma SharedUsernameMissesAnswer()
    ensures var db := Db([UserRow(1, "sam", "t", Teacher, "Sam T"), UserRow(2, "sam", "s", Student, "Sam S")],
                         [SubjectRow(1, "Math", "M")], [Enrollment(2, 1)],
                         [AssignmentRow(1, 1, 1, "q")], [SubmissionRow(1, 2, 1, None, None, None)],
                         3, 2, 2, 2);
      && db.SubmitAnswer(1, "sam", "a") == db
      && SubmissionRow(1, 2, 1, None, None, None) in db.SubmitAnswer(1, "sam", "a").HomeworkList("Math", "sam")
  {
    var db := Db([UserRow(1, "sam", "t", Teacher, "Sam T"), UserRow(2, "sam", "s", Student, "Sam S")],
                 [SubjectRow(1, "Math", "M")], [Enrollment(2, 1)],
                 [AssignmentRow(1, 1, 1, "q")], [SubmissionRow(1, 2, 1, None, None, None)],
                 3, 2, 2, 2);
    assert UserIdByUsername(db.users, "sam") == Some(1);
    var r := db.SubmitAnswer(1, "sam", "a");
    assert r.submissions == db.submissions;
    var row := db.submissions[0];
    assert db.InSubject(row, "Math") by {
      assert db.assignments[0] in db.assignments && db.subjects[0] in db.subjects;
    }
    assert db.OwnedBy(row, "sam") by {
      assert db.users[1] in db.users;
    }
  }

  /** Grading and answering commute, and after both the row carries both the
      answer and the grade: a grade recorded before the answer is not lost. */
  lemma GradeAndAnswerCommute(db: Db, submissionId: nat, grade: Grade, feedbackText: string,
                              assignmentId: nat, username: string, answer: string)
    ensures var both := db.SubmitAnswer(assignmentId, username, answer).GradeSubmission(submissionId, grade, feedbackText);
      && both == db.GradeSubmission(submissionId, grade, feedbackText).SubmitAnswer(assignmentId, username, answer)
      && forall i :: (0 <= i < |db.submissions| && db.submissions[i].id == submissionId
           && db.submissions[i].assignmentId == assignmentId
           && UserIdByUsername(db.users, username) == Some(db.submissions[i].studentId)) ==>
           both.submissions[i].answer == Some(answer) && both.submissions[i].grade == Some(grade)
  {
    var a := db.SubmitAnswer(assignmentId, username, answer);
    var ag := a.GradeSubmission(submissionId, grade, feedbackText);
    var g := db.GradeSubmission(submissionId, grade, feedbackText);
    var ga := g.SubmitAnswer(assignmentId, username, answer);
    assert ag.submissions == ga.submissions;
  }

  // ----------------------------------------------------------------- lists

  /** For one student and subject, the grading list and the grades list split
      the student's rows by whether a grade is set: each row is in exactly one. */
  lemma GradingAndGradesPartition(db: Db, subjectName: string, username: string)
    ensures forall row :: row in db.submissions && db.InSubject(row, subjectName) && db.OwnedBy(row, username) ==>
      (row in db.GradingList(subjectName) <==> row !in db.GradesList(subjectName, username))
    ensures forall row :: !(row in db.GradingList(subjectName) && row in db.GradesList(subjectName, username))
  {
  }
}
