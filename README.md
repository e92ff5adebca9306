# Homework evaluation store

This project models the data store behind a Streamlit homework evaluation system (`main.py`), and proves properties of that model.

There are three roles. An admin adds teachers, students and subjects, and deletes accounts and subjects. A teacher publishes questions for a subject, either to one student or to every student enrolled in it, and grades the answers. A student answers the questions that are pending and reads their grades.

Every page action is one SQL statement, or a short loop of them, over five tables:

- `User`
- `subjects`
- `user_subjects`
- `assignments`
- `AssignmentStudent`

The model has four modules:

- `Relational` (`relational.dfy`) holds the three statement shapes the pages use, over a table held as a sequence of rows in rowid order:
  - `Filter`, for `SELECT ... WHERE` and `DELETE ... WHERE`;
  - `First`, for a `fetchone()`;
  - `Update`, for `UPDATE ... SET ... WHERE`.
- `Tables` (`tables.dfy`) holds:
  - the row datatypes;
  - the database value `Db`: five tables plus the next rowid of each table that has one;
  - one `Db` function per statement. Queries return rows. Changes return the new database, and a `Result` where the page reports an outcome.
- `HomeworkStore` (`store.dfy`) holds the class `Store`. Its fields are the tables and the rowid counters. It has one method per changing action. Each of these methods ensures that `State()` afterwards is the matching `Db` function applied to `old(State())`. The add-account methods keep the source's two loops as methods of their own: `FindMissing` is proved against `Tables.MissingSubject`, and `InsertEnrollments` against `Tables.EnrollmentRows`.
- `Properties` (`properties.dfy`) holds the guarantees, proved as lemmas about the `Db` functions. One of them, `Valid`, is an invariant that every change preserves: primary keys are distinct and below the next rowid, and enrollments name issued user ids.

`Findings` (`findings.dfy`) models three statements of the add-account paths as they are written. See "## Findings".

Where the statements contradict each other, the model follows the evident intent. The header of `tables.dfy` records each case:

- Login filters on a column `role`. Every other statement calls that column `user_type`. The model has one role field. If the table has no column `role`, SQLite refuses the login query and nobody can log in.
- Both user INSERTs name three columns but supply four values. SQLite refuses such a statement. So, as written, Add Teacher fails with an uncaught error, Add Student reports a database error, and no account is ever added. The model stores the fourth value as the display name.
- The add-student path looks a selected label up by `code`, although the form offers names.
- It then stores the subject's name as the `subject_id`. A text `subject_id` never equals an integer subject id, so the joins of the subject list, the student list and the fan-out never reach that enrollment.
- The model resolves names to ids on the add-student path, as the add-teacher path does.

## Model

| member | source | states |
|---|---|---|
| Relational.Filter | main.py:195 | the result holds exactly the rows of the table that satisfy the condition, and is no longer than the table |
| Relational.FilterCounts | main.py:195 | every copy of a row that satisfies the condition is kept, and no copy of any other: rows are neither duplicated nor merged |
| Relational.FilterRemovesOnly | main.py:195 | when only row `i` fails the condition, the result is the table without that row, the rest in order |
| Relational.First | main.py:40-44 | `fetchone()` finds nothing exactly when no row satisfies the condition; otherwise it returns a row of the table that satisfies it |
| Relational.Update | main.py:338-342 | every row that satisfies the WHERE condition is changed; every other row stays as it is, in place; the row count is unchanged |
| Tables.SubjectIdByName | main.py:92-93 | finds nothing exactly when no subject has the name; otherwise returns the id of a subject with that name |
| Tables.UserIdByUsername | main.py:411-413 | the subquery is NULL exactly when no account has the username; otherwise it is the id of an account with that username |
| Tables.MissingSubject | main.py:126-130 | `None` exactly when every selected label names a subject; otherwise a selected label that names none |
| Tables.EnrollmentRows | main.py:141-147 | one enrollment per selected subject, all for the new account |
| Tables.NewAssignmentsRows | main.py:278-281 | the INSERT ... SELECT adds one question row per subject row read, in order, with that subject's id and the question, under consecutive ids starting at the first id given |
| Tables.NewSubmissionsRows | main.py:287-300 | a publish adds one submission row per recipient, in order, for the new question, with answer, grade and feedback NULL, under consecutive ids starting at the first id given (freshness is `Properties.PublishKeepsValid`) |
| Tables.TargetsAre | main.py:285-300 | "Single Student" sends to that student alone; "All Students" sends to exactly the ids of the students enrolled in a subject of that name |
| Tables.StoredFeedback | main.py:342 | an empty feedback box is stored as NULL, any other text as itself |
| Tables.MissingSubjectAt | main.py:126-130 | the validation stops at the first selected label that names no subject |
| Tables.AddAccountStopsAt | main.py:126-130 | adding an account whose label `i` is the first unknown one fails with that label and leaves the database as it was |
| Tables.EnrollmentRowsSnoc | main.py:141-147 | one more turn of the enrollment loop appends exactly one row pairing the account with that subject's id |
| Tables.TargetsIgnoreQuestions | main.py:292-300 | nothing the fan-out SELECT reads is changed by inserting the question rows, so taking the recipients before or after that insert gives the same ids |
| Tables.Db.Login | main.py:40-47 | login finds an account exactly when some account has this username, password and role, compared exactly; the account returned has all three |
| Tables.Db.EnrolledSubjects | main.py:236-242 | a subject is listed exactly when the account with the username is enrolled in it |
| Tables.Db.EnrolledStudents | main.py:259-266 | an account is listed exactly when it is a student enrolled in a subject of that name; with distinct user ids the list has no duplicate (`DISTINCT`) |
| Tables.Db.GradingList | main.py:309-316 | a row is listed exactly when it belongs to the subject, has no grade, and its student still has an account |
| Tables.Db.HomeworkList | main.py:380-387 | a row is listed exactly when it belongs to the subject, belongs to the student with that username, and has no answer |
| Tables.Db.GradesList | main.py:425-432 | a row is listed exactly when it belongs to the subject, belongs to the student with that username, and has a grade |
| Tables.Db.AddAccount | main.py:83-147 | success exactly when every selected subject exists; on failure the error names a selected label that is no subject, and the database is unchanged |
| Tables.Db.AddSubject | main.py:165-168 | the subjects afterwards are the old ones plus one row with the given name and code under the next id; only the subjects table and its counter change |
| Tables.Db.DeleteAccount | main.py:195 | the accounts left are exactly those whose id differs; no other table changes (no cascade) |
| Tables.Db.DeleteSubject | main.py:218 | the subjects left are exactly those whose name differs; no other table changes (no cascade) |
| Tables.Db.SubjectsNamed | main.py:278-281 | the rows the INSERT ... SELECT reads are exactly the subjects of that name |
| Properties.SubjectsNamedCounts | main.py:278-281 | the INSERT ... SELECT reads every copy of a subject row of that name, and no copy of any other row |
| Tables.Db.Publish | main.py:278-300 | publishing fails exactly when no subject has the name, with that name as the error, and the database is then unchanged |
| Tables.Db.GradeSubmission | main.py:338-342 | only the row with that id gets the grade, and feedback that is NULL when the box is empty; every other row, and that row's answer, is unchanged; no other table changes |
| Tables.Db.SubmitAnswer | main.py:408-413 | only the rows of that question whose student is the first account with that username (the one the subquery returns) get the answer; their grade and feedback, and every other row, are unchanged |
| HomeworkStore.Store.AddTeacher | main.py:83-97 | the account row is inserted first; an unknown subject discards the transaction; the new state and result are those of `Db.AddAccount(Teacher, ...)` |
| HomeworkStore.Store.AddStudent | main.py:125-147 | every subject is checked before anything is written; the new state and result are those of `Db.AddAccount(Student, ...)` |
| HomeworkStore.Store.FindMissing | main.py:126-130 | the validation loop returns the first selected label that names no subject, and changes nothing |
| HomeworkStore.Store.InsertEnrollments | main.py:141-147 | the enrollment loop changes only `user_subjects`; it reports the first unknown label; with none, it appends one row per selected subject, in order |
| HomeworkStore.Store.AddSubject | main.py:165-168 | the new state and id are those of `Db.AddSubject` |
| HomeworkStore.Store.DeleteAccount | main.py:195 | the new state is `Db.DeleteAccount` of the old one |
| HomeworkStore.Store.DeleteSubject | main.py:218 | the new state is `Db.DeleteSubject` of the old one |
| HomeworkStore.Store.PublishAssignment | main.py:278-300 | the new state and result are those of `Db.Publish` |
| HomeworkStore.Store.GradeSubmission | main.py:338-342 | the new state is `Db.GradeSubmission` of the old one |
| HomeworkStore.Store.SubmitAnswer | main.py:408-413 | the new state is `Db.SubmitAnswer` of the old one |
| Properties.LoginIsExact | main.py:40-47 | an account registered under another role never logs in under this one; under its own role it does |
| Properties.AddAccountInserts | main.py:83-97 | a successful add appends one account row under the next id, and one enrollment per selected subject pairing that id with the subject's id; subjects, questions and submissions are unchanged, so a student added later receives no earlier question |
| Properties.AddAccountEnrollsExactly | main.py:91-97 | the new account is enrolled in a subject id exactly when some selected name resolves to it |
| Properties.AddAccountKeepsValid | main.py:83-147 | adding an account preserves `Valid` |
| Properties.AddSubjectInserts | main.py:165-168 | Add Subject appends one row under an id no subject had; only the subjects table and its counter change; `Valid` is preserved |
| Properties.DeleteAccountKeepsValid | main.py:195 | deleting an account preserves `Valid` |
| Properties.DeleteSubjectKeepsValid | main.py:218 | deleting a subject preserves `Valid` |
| Properties.DeleteAccountRemovesExactly | main.py:195 | with distinct ids, deleting removes exactly the one account row with that id, and the rest keep their order |
| Properties.DeletedAccountHidden | main.py:195 | enrollments and submissions stay after the delete, but none of the three lists shows a row of the deleted account |
| Properties.DeletedSubjectHidden | main.py:218 | questions, enrollments and submissions stay after the delete, but all three lists for that subject name are empty |
| Properties.PublishOneAssignment | main.py:278-283 | with one subject of that name, exactly one question row is inserted; it carries that subject's id and the returned id |
| Properties.PublishOneQuestionPerSubject | main.py:278-281 | a publish keeps the existing question rows and appends one per subject row of that name, in table order, each carrying that subject's id and the question |
| Properties.QuestionRowsFollow | main.py:278-281 | appending the question rows for the subjects read keeps the table's rows and adds one row per subject, in order, with its id and the question |
| Properties.OneIdOneRow | main.py:278-281 | subject rows with distinct keys that all share one id are a single row |
| Properties.PublishFanOut | main.py:292-300 | "All Students" adds one row per distinct student enrolled at publish time and for no one else, with answer, grade and feedback unset |
| Properties.PublishAppends | main.py:285-300 | a publish appends to `AssignmentStudent` exactly one row per recipient, and keeps the existing rows |
| Properties.StudentsOfAdded | main.py:292-300 | the fan-out rows for distinct accounts carry distinct student ids, exactly those accounts' ids, and unset answer, grade and feedback |
| Properties.PublishSingle | main.py:285-290 | "Single Student" appends exactly one row, for that student, with answer, grade and feedback unset |
| Properties.PublishKeepsValid | main.py:278-300 | publishing preserves `Valid` |
| Properties.GradeKeepsValid | main.py:338-342 | grading preserves `Valid` |
| Properties.SubmitKeepsValid | main.py:408-413 | submitting an answer preserves `Valid` |
| Properties.GradeMovesRow | main.py:338-342 | a graded row leaves every grading list and enters its student's grades list, with its new grade and feedback |
| Properties.AnswerLeavesHomework | main.py:408-413 | after an answer, no row of that question whose student is the first account with that username is still listed as homework |
| Properties.SharedUsernameMissesAnswer | main.py:408-413 | when a teacher "sam" precedes a student "sam", the subquery picks the teacher: the answer is written to no row, and the student's question stays on their homework list |
| Properties.GradeAndAnswerCommute | main.py:338-342 | grading and answering commute; a row that gets both keeps both, so an earlier grade survives a later answer |
| Properties.GradingAndGradesPartition | main.py:309-316 | for one student and subject, each of the student's rows is in exactly one of the grading list and the grades list |
| Findings.MissingCodeAsWritten | main.py:126-130 | the validation as written returns the first selected label that is no subject's code; `None` exactly when every label is a code |
| Findings.OfferedLabels | main.py:115-118 | the form offers exactly the subjects' names, in table order |
| Findings.CodeCheckRejectsOfferedName | main.py:115-130 | with one subject "Math" coded "MTH1", the only offered label is rejected as written, but name resolution accepts it |
| Findings.OfferedNamePassesOnlyIfItIsACode | main.py:127 | an offered name that is no subject's code is rejected as written, alone or in any selection that contains it, while name resolution accepts it |
| Findings.AddAccountAsWritten | main.py:83-153 | as written, every add fails and changes nothing: the user INSERT is refused, unless Add Student already stopped at a label that is no code |
| Findings.EmptySelectionAddsNoAccount | main.py:83-86 | as written, an add with no subject selected adds no account, where the intended statement adds one under the next id |
| Findings.StudentEnrollmentAsWritten | main.py:142-147 | as written, the student's enrollment row stores the text name of the subject whose code is the label, in place of its id |
| Findings.StudentEnrollmentJoinsNothing | main.py:127-147 | with subject "Math" coded "Math", the label passes the check as written, yet the add is still refused at the user INSERT; the enrollment the loop would write joins no subject; the intended row pairs the student with subject id 1 |

## Left out

- The Streamlit pages are not modelled: widgets, forms, messages, `st.rerun` and the logout buttons. The identity of the person logged in is an explicit parameter instead of session state.
- The role checks between the pages are left out. The model does not check that the caller of an admin or teacher action holds that role, because the pages do that through session state.
- The mapping from the selectbox labels back to rows (`[...].index(label)`) is left out. The operations take ids, and subject or user names, directly.
- Connections, commits, the `timeout=30` lock wait and the `OperationalError` catch-and-reraise are left out, because they are database I/O. The `datetime` and `pandas` imports are unused.
- The table schema is not in the repository. Rowids are modelled as counters per table that start at 1 and only grow, as with SQLite `AUTOINCREMENT`. Nothing models a constraint the schema might add, such as `UNIQUE` usernames or foreign keys.
- Properties.AddAccountEnrollsExactly holds because the counter never hands out an id twice. Properties.DeletedAccountHidden holds for every database, but it speaks only of the state right after the delete. With SQLite's default rowid (the largest rowid plus one), deleting the newest account frees its id for the next add. Because deletes do not cascade, the account that next add creates would inherit the deleted account's enrollments and submissions. The counter rules this out.
- Tables.Db.EnrolledSubjects lists each subject once. The join at main.py:236-242 has no `DISTINCT`, so it lists a subject once per matching account and enrollment: two accounts named "sam" both enrolled in Math give "Math" twice.
- Usernames are not assumed unique, because the schema is not in the repository. Properties.SharedUsernameMissesAnswer shows what a shared username does to Submit Answer. This is not listed as a finding, because a `UNIQUE` username column would rule it out.
- A query's result is a sequence in table order. Its contracts state membership only, because SQL without `ORDER BY` promises no order.
- The column projections of the queries (`u.name, sa.id, ...`) are left out. The queries return whole rows.
- The main model follows the evident intent where the statements are inconsistent; see the header of `tables.dfy`. Module `Findings` models three of these statements as they are written. The `role` column of the login query is not modelled as written, because whether it exists depends on the schema.
- Findings.StudentEnrollmentAsWritten keeps the stored name as text. Under INTEGER column affinity, a name that reads as a whole number would be stored as that number and could match a subject id.
- Tables.Db.Publish: a question published to a subject name that no subject carries anymore fails and changes nothing. As written, the INSERT ... SELECT inserts no question. "Single Student" then inserts one submission row whose question id is `lastrowid` of a fresh connection, presumably 0, and "All Students" joins on the same missing name and inserts nothing.
- HomeworkStore.Store: the class carries no invariant of its own. `Valid` is proved on the `Db` value by the `...KeepsValid` lemmas, which apply to `State()` through each method's `ensures`.
- HomeworkStore.Store.PublishAssignment: the recipients of the fan-out are computed before the question rows are appended, not after. `Tables.TargetsIgnoreQuestions` proves that this gives the same recipients.
- Properties.PublishOneAssignment: stated only for a subject name that one subject carries. As written, `INSERT ... SELECT` adds one question row per subject of that name, and only the last one receives submissions.
- Properties.DeleteAccountRemovesExactly: stated under `Valid`, that is, distinct user ids. Without distinct ids, `Tables.Db.DeleteAccount` still removes every row with that id.

## Findings

| source | as written | input that shows it | evidently intended | confidence | as-written member | corrected member |
|---|---|---|---|---|---|---|
| main.py:84-85 | both user INSERTs (also main.py:134-135) name three columns and supply four values, which SQLite refuses | any add, e.g. Add Teacher with no subject selected: no account is added | insert the display name into a fourth column | not executed | Findings.EmptySelectionAddsNoAccount | Tables.Db.AddAccount |
| main.py:142-147 | the add-student loop stores the subject's `name` as `subject_id` | subject `SubjectRow(1, "Math", "Math")`, label `"Math"`: the label passes the code check, but as written the user INSERT at main.py:133-136 is refused first, so the loop never runs (the main.py:84-85 defect masks this one); once that INSERT is corrected, the loop stores `"Math"`, which joins no subject | store the subject's id, as main.py:92-97 does | not executed | Findings.StudentEnrollmentJoinsNothing | Tables.EnrollmentRows |
| main.py:127 | the add-student validation looks each selected label up by `code`, but the form offers subject names (main.py:117); the same lookup is repeated at main.py:142 | subjects `[SubjectRow(1, "Math", "MTH1")]`, selected label `"Math"`: rejected as "does not exist" | resolve each label by `name`, as the add-teacher path does (main.py:92) | not executed | Findings.CodeCheckRejectsOfferedName | HomeworkStore.Store.AddStudent |
