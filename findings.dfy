/** Three statements of the add-account paths as they are written, beside the
    corrected model the rest of the project uses:
    - the subject check of Add Student matches the offered subject names
      against the `code` column;
    - the user INSERTs name three columns and supply four values;
    - Add Student stores the subject's name as the enrollment's `subject_id`. */
module Findings {
  import opened Relational
  import opened Tables

  /** `SELECT name FROM subjects WHERE code=?` finds a row. */
  predicate HasSubjectCoded(subjects: seq<SubjectRow>, chosen: string)
  {
    exists s :: s in subjects && s.code == chosen
  }

  /** The validation loop of main.py:126-130 as written: the first selected
      label that is no subject's code. */
  function MissingCodeAsWritten(subjects: seq<SubjectRow>, labels: seq<string>): (r: Option<string>)
    ensures r.None? <==> forall l :: l in labels ==> HasSubjectCoded(subjects, l)
    ensures r.Some? ==> r.value in labels && !HasSubjectCoded(subjects, r.value)
  {
    First(labels, (l: string) => !HasSubjectCoded(subjects, l))
  }

  /** The labels the multiselect offers are the subjects' names (main.py:115-118). */
  function OfferedLabels(subjects: seq<SubjectRow>): (r: seq<string>)
    ensures |r| == |subjects| && forall k :: 0 <= k < |r| ==> r[k] == subjects[k].name
  {
    seq(|subjects|, k requires 0 <= k < |subjects| => subjects[k].name)
  }

  /** With one subject "Math" coded "MTH1", choosing the only label the form
      offers is refused as a subject that does not exist, while the name lookup
      the teacher path uses, and the model's add-student path, accept it. */
  lemma CodeCheckRejectsOfferedName()
    ensures var subjects := [SubjectRow(1, "Math", "MTH1")];
      && OfferedLabels(subjects) == ["Math"]
      && MissingCodeAsWritten(subjects, OfferedLabels(subjects)) == Some("Math")
      && MissingSubject(subjects, OfferedLabels(subjects)) == None
  {
    var subjects := [SubjectRow(1, "Math", "MTH1")];
    assert OfferedLabels(subjects) == ["Math"];
    assert subjects[0] in subjects;
    assert !HasSubjectCoded(subjects, "Math") by {
      forall s | s in subjects ensures s.code != "Math" {
        assert s == subjects[0];
        assert "MTH1"[1] != "Math"[1];
      }
    }
    assert "Math" in ["Math"];
  }

  /** As written, a label passes the student check only when it is some
      subject's code; the labels offered pass only when a name happens to equal
      a code. */
  lemma OfferedNamePassesOnlyIfItIsACode(subjects: seq<SubjectRow>, k: nat)
    requires k < |subjects|
    requires forall s :: s in subjects ==> s.code != subjects[k].name
    ensures MissingCodeAsWritten(subjects, OfferedLabels(subjects)).Some?
    ensures MissingCodeAsWritten(subjects, [subjects[k].name]) == Some(subjects[k].name)
    ensures forall labels :: subjects[k].name in labels ==> MissingCodeAsWritten(subjects, labels).Some?
    ensures MissingSubject(subjects, [subjects[k].name]) == None
  {
    var labels := OfferedLabels(subjects);
    assert labels[k] in labels;
    assert subjects[k] in subjects;
    assert subjects[k].name in [subjects[k].name];
  }

  // ------------------------------------------------------- the user INSERT

  /** Add Teacher and Add Student as written. Both user INSERTs
      (main.py:84-85, 134-135) name three columns and supply four values, and
      SQLite refuses to prepare such a statement. So Add Teacher fails at its
      first statement, and Add Student fails there once its code check
      (main.py:126-130) has passed. Nothing is committed either way. */
  function AddAccountAsWritten(db: Db, role: Role, username: string, password: string, name: string, labels: seq<string>)
    : (r: (Db, Result<nat>))
    ensures r.0 == db && r.1.Failure?
    ensures r.1.error == StatementRejected <==> role != Student || MissingCodeAsWritten(db.subjects, labels).None?
  {
    var missing := MissingCodeAsWritten(db.subjects, labels);
    if role == Student && missing.Some? then (db, Failure(UnknownSubject(missing.value)))
    else (db, Failure(StatementRejected))
  }

  /** As written, an add with no subject selected adds no account; the
      intended statement adds one under the next id. */
  lemma EmptySelectionAddsNoAccount(db: Db, role: Role, username: string, password: string, name: string)
    ensures AddAccountAsWritten(db, role, username, password, name, []) == (db, Failure(StatementRejected))
    ensures db.AddAccount(role, username, password, name, []).1 == Success(db.nextUserId)
    ensures db.AddAccount(role, username, password, name, []).0.users
      == db.users + [UserRow(db.nextUserId, username, password, role, name)]
  {
  }

  // ------------------------------------------------ the student enrollment

  /** A value as SQLite stores it: a cell keeps the type of what was written. */
  datatype Cell = Integer(i: int) | Text(t: string)

  /** The `user_subjects` row the add-student loop writes, as written
      (main.py:142-147): the `name` of the subject whose code is the label goes
      into `subject_id`. */
  function StudentEnrollmentAsWritten(studentId: nat, subjects: seq<SubjectRow>, chosen: string): (r: Option<(nat, Cell)>)
    ensures r.None? <==> !HasSubjectCoded(subjects, chosen)
    ensures r.Some? ==> r.value.0 == studentId && exists s :: s in subjects && s.code == chosen && r.value.1 == Text(s.name)
  {
    match First(subjects, (s: SubjectRow) => s.code == chosen)
    case None => None
    case Some(s) => Some((studentId, Text(s.name)))
  }

  /** The join condition `s.id = us.subject_id` (main.py:239, 262, 297). */
  predicate JoinsSubject(subjectId: Cell, s: SubjectRow)
  {
    subjectId == Integer(s.id)
  }

  /** With one subject "Math" whose code is also "Math", the label passes the
      check as written. The user INSERT before the loop is still refused, so as
      written the add fails and the loop never runs: that defect masks this one.
      Once the INSERT is corrected, the enrollment row the loop writes joins no
      subject, so the student's page would list no subject and no "All
      Students" publish would reach them. The intended row pairs the student
      with the subject's id. */
  lemma StudentEnrollmentJoinsNothing()
    ensures var subjects := [SubjectRow(1, "Math", "Math")];
      && MissingCodeAsWritten(subjects, ["Math"]) == None
      && AddAccountAsWritten(Empty().(subjects := subjects), Student, "s", "p", "S", ["Math"]).1
           == Failure(StatementRejected)
      && StudentEnrollmentAsWritten(2, subjects, "Math") == Some((2, Text("Math")))
      && (forall s :: !JoinsSubject(Text("Math"), s))
      && HasSubjectNamed(subjects, "Math")
      && EnrollmentRows(2, subjects, ["Math"]) == [Enrollment(2, 1)]
  {
    var subjects := [SubjectRow(1, "Math", "Math")];
    assert subjects[0] in subjects;
    assert HasSubjectCoded(subjects, "Math");
    assert HasSubjectNamed(subjects, "Math");
  }
}
