/** The data store the Streamlit pages read and write: the five tables as
    fields of one object, and one method per statement (or per loop of
    statements) that changes them. Every page action is proved against the
    function of `Tables.Db` that specifies it; the two loops it is built from
    are proved against `Tables.MissingSubject` and `Tables.EnrollmentRows`.
    The queries are the `Tables.Db` functions applied to `State()`.
 */
module HomeworkStore {
  import opened Relational
  import opened Tables

  class Store {
    var users: seq<UserRow>
    var subjects: seq<SubjectRow>
    var userSubjects: seq<Enrollment>
    var assignments: seq<AssignmentRow>
    var submissions: seq<SubmissionRow>
    var nextUserId: nat
    var nextSubjectId: nat
    var nextAssignmentId: nat
    var nextSubmissionId: nat

    /** The committed contents of the database. */
    function State(): Db
      reads this
    {
      Db(users, subjects, userSubjects, assignments, submissions,
         nextUserId, nextSubjectId, nextAssignmentId, nextSubmissionId)
    }

    constructor ()
      ensures State() == Empty()
    {
      users, subjects, userSubjects, assignments, submissions := [], [], [], [], [];
      nextUserId, nextSubjectId, nextAssignmentId, nextSubmissionId := 1, 1, 1, 1;
    }

    /** Add Teacher (main.py:83-97). The account row is written first; a
        selected name that `SELECT id FROM subjects WHERE name=?` does not find
        makes `fetchone()[0]` raise before `commit()`, so the transaction is
        discarded and the store is as it was. */
    method AddTeacher(username: string, password: string, name: string, subjectNames: seq<string>) returns (r: Result<nat>)
      modifies this
      ensures (State(), r) == old(State()).AddAccount(Teacher, username, password, name, subjectNames)
    {
      var savepoint := State();
      var teacherId := nextUserId;
      users := users + [UserRow(teacherId, username, password, Teacher, name)];
      nextUserId := nextUserId + 1;
      var missing := InsertEnrollments(teacherId, subjectNames);
      if missing.Some? {
        users, userSubjects, nextUserId := savepoint.users, savepoint.userSubjects, savepoint.nextUserId;
        r := Failure(UnknownSubject(missing.value));
      } else {
        r := Success(teacherId);
      }
    }

    /** Add Student (main.py:125-147): every selected subject is looked up
        before anything is written; only then the account row and one
        enrollment per subject are inserted. */
    method AddStudent(username: string, password: string, name: string, subjectNames: seq<string>) returns (r: Result<nat>)
      modifies this
      ensures (State(), r) == old(State()).AddAccount(Student, username, password, name, subjectNames)
    {
      var savepoint := State();
      var missing := FindMissing(subjectNames);
      if missing.Some? {
        return Failure(UnknownSubject(missing.value));
      }
      var studentId := nextUserId;
      users := users + [UserRow(studentId, username, password, Student, name)];
      nextUserId := nextUserId + 1;
      missing := InsertEnrollments(studentId, subjectNames);
      r := Success(studentId);
    }

    /** The validation loop of Add Student (main.py:125-131): the first
        selected name no subject carries, if any. */
    method FindMissing(subjectNames: seq<string>) returns (missing: Option<string>)
      ensures missing == MissingSubject(subjects, subjectNames)
    {
      var i := 0;
      while i < |subjectNames|
        invariant 0 <= i <= |subjectNames|
        invariant forall k :: 0 <= k < i ==> HasSubjectNamed(subjects, subjectNames[k])
      {
        if SubjectIdByName(subjects, subjectNames[i]).None? {
          MissingSubjectAt(subjects, subjectNames, i);
          return Some(subjectNames[i]);
        }
        i := i + 1;
      }
      return None;
    }

    /** The enrollment loop of Add Teacher and Add Student (main.py:91-97,
        141-147): one `user_subjects` row per selected name, in order, until
        a name no subject carries. */
    method InsertEnrollments(userId: nat, subjectNames: seq<string>) returns (missing: Option<string>)
      modifies this
      ensures missing == MissingSubject(subjects, subjectNames)
      ensures State() == old(State()).(userSubjects := userSubjects)
      ensures missing.None? ==>
        userSubjects == old(userSubjects) + EnrollmentRows(userId, subjects, subjectNames)
    {
      var i := 0;
      while i < |subjectNames|
        invariant 0 <= i <= |subjectNames|
        invariant forall k :: 0 <= k < i ==> HasSubjectNamed(subjects, subjectNames[k])
        invariant forall n :: n in subjectNames[..i] ==> HasSubjectNamed(subjects, n)
        invariant State() == old(State()).(userSubjects := userSubjects)
        invariant userSubjects == old(userSubjects) + EnrollmentRows(userId, subjects, subjectNames[..i])
      {
        var found := SubjectIdByName(subjects, subjectNames[i]);
        if found.None? {
          MissingSubjectAt(subjects, subjectNames, i);
          return Some(subjectNames[i]);
        }
        assert forall n :: n in subjectNames[..i + 1] ==> n in subjectNames[..i] || n == subjectNames[i];
        EnrollmentRowsSnoc(userId, subjects, subjectNames, i);
        userSubjects := userSubjects + [Enrollment(userId, found.value)];
        i := i + 1;
      }
      assert subjectNames[..i] == subjectNames;
      return None;
    }

    /** Add Subject (main.py:165-168). */
    method AddSubject(name: string, code: string) returns (id: nat)
      modifies this
      ensures (State(), id) == old(State()).AddSubject(name, code)
    {
      id := nextSubjectId;
      subjects := subjects + [SubjectRow(id, name, code)];
      nextSubjectId := nextSubjectId + 1;
    }

    /** Delete Account (main.py:195). */
    method DeleteAccount(id: nat)
      modifies this
      ensures State() == old(State()).DeleteAccount(id)
    {
      users := Filter(users, (u: UserRow) => u.id != id);
      assert State() == old(State()).DeleteAccount(id);
    }

    /** Delete Subject (main.py:218). */
    method DeleteSubject(name: string)
      modifies this
      ensures State() == old(State()).DeleteSubject(name)
    {
      subjects := Filter(subjects, (s: SubjectRow) => s.name != name);
      assert State() == old(State()).DeleteSubject(name);
    }

    /** Add Assignment (main.py:278-300). */
    method PublishAssignment(subjectName: string, questionNumber: int, questionText: string, to: Recipients)
      returns (r: Result<nat>)
      modifies this
      ensures (State(), r) == old(State()).Publish(subjectName, questionNumber, questionText, to)
    {
      var named := State().SubjectsNamed(subjectName);
      if named == [] {
        r := Failure(UnknownSubject(subjectName));
      } else {
        assert named[0] in named;
        var db := State();
        PublishCommits(db, subjectName, questionNumber, questionText, to);
        // The fan-out SELECT reads User, user_subjects and subjects only, which
        // the INSERT into assignments leaves alone (`TargetsIgnoreQuestions`),
        // so it is taken first here.
        var students := db.Targets(subjectName, to);
        assignments := assignments + NewAssignments(named, nextAssignmentId, questionNumber, questionText);
        nextAssignmentId := nextAssignmentId + |named|;
        var assignmentId := nextAssignmentId - 1;
        submissions := submissions + NewSubmissions(students, assignmentId, nextSubmissionId);
        nextSubmissionId := nextSubmissionId + |students|;
        r := Success(assignmentId);
      }
    }

    /** Submit Grade (main.py:338-342). */
    method GradeSubmission(submissionId: nat, grade: Grade, feedbackText: string)
      modifies this
      ensures State() == old(State()).GradeSubmission(submissionId, grade, feedbackText)
    {
      var feedback := StoredFeedback(feedbackText);
      submissions := Update(submissions, (row: SubmissionRow) => row.id == submissionId,
                            (row: SubmissionRow) => row.(grade := Some(grade), feedback := feedback));
    }

    /** Submit Answer (main.py:408-413). */
    method SubmitAnswer(assignmentId: nat, username: string, answer: string)
      modifies this
      ensures State() == old(State()).SubmitAnswer(assignmentId, username, answer)
    {
      var student := UserIdByUsername(users, username);
      submissions := Update(submissions,
                            (row: SubmissionRow) => row.assignmentId == assignmentId && student == Some(row.studentId),
                            (row: SubmissionRow) => row.(answer := Some(answer)));
    }
  }
}
