# Department and student record keeping, modelled in Dafny

This project models the record-keeping core of a console program that keeps
two tables, `departments` and `students`, in one database session. The
session is a `Session` object whose two tables are sequences of rows. They
are changed in place by `session.add` and `session.delete`. The workflows
are these:

- **Uniqueness-gated insert.** `add_department` runs four count queries:
  abbreviation, chair name, the (building, office) pair and description. It
  prints one message per failed check and admits the entered department
  only when all four pass. `add_student` checks the (lastName, firstName)
  pair first and checks the e-mail only while the name is free. It then adds
  the student with the next identity value.
- **Select exactly one.** Every `select_*` function asks again until the
  entered value(s) match exactly one row. A count of zero and a count of
  several print the same message. The matching row is then returned.
- **Dispatch.** `find_department` and `find_student` map a menu action
  string to a selector. Any other action gives no record.
- **Delete and list.** `delete_*` removes exactly the row the find returned.
  `list_*` returns the table in its `order_by` order.
- **Main loop.** The program executes actions until the one just executed is
  the main menu's last action, then commits.

Each unbounded retry loop consumes a finite sequence of attempts, one per
entered value set. `Prompted.Waiting` means the input ran out while the
program would still be asking. The lines that the add, select, find and
delete workflows print are returned as a `log` of `Message` values. The
listings return their rows as a sequence instead of printing them, and the
main loop's `next action:` echo is not modelled.

Two quirks of the code are kept as written:

- `unique_building` is never cleared, so it plays no part in the decision.
- The department `name` is the primary key, but `add_department` never
  checks it. `Rules.DuplicateNameAdmitted` shows that a second department
  with a stored name is admitted. So `Session.Valid()` states the four
  candidate keys and not the primary key.

Modules: `Wrappers` (Option, Prompted), `Table` (count, first match, delete
and the shared selection loop), `Ordering` (lexicographic order and
sorting), `Departments` (Department.py), `Students` (the student record as
main.py uses it), `Rules` (the pure decisions of main.py) and `Workflows`
(the `Session` class and the main loop).

## Model

| member | source | states |
|---|---|---|
| Table.Count | main.py:34 | a count query returns a number of rows between 0 and the table size |
| Table.CountZero | main.py:242 | a count of 0 holds exactly when no row satisfies the filter |
| Table.CountOne | main.py:79-80 | a count of 1 holds exactly when one row, and only that row, satisfies the filter |
| Table.FirstMatch | main.py:83 | `.first()` gives a matching row; every call site asks after a count of 1, where that row is the only match |
| Table.Remove | main.py:178 | after deleting a row, the table holds the old rows minus one copy of it |
| Table.RemoveKeepsOthers | main.py:178 | deleting a row leaves every other row in its original order |
| Table.AppendKeepsPairwise | main.py:64 | adding a row that differs on the keys from every stored row keeps the keys unique |
| Table.RemoveKeepsPairwise | main.py:176-178 | deleting keeps the keys unique, and the deleted row is no longer in the table |
| Table.SelectOne | main.py:75-84 | the shared retry loop: every missed attempt counted other than 1, and the returned row is the only match of the attempt that ended the loop |
| Table.SelectedIsDeterministic | main.py:77-84 | two selections over the same table and input end after the same misses with the same row |
| Table.CountAtMostOne | Department.py:28-31 | with pairwise unique keys, a key filter matches at most one row |
| Ordering.StrLeTransitive | main.py:189-190 | lexicographic string order is transitive |
| Ordering.StrLeAntisymmetric | main.py:189-190 | two strings ordered both ways are equal |
| Ordering.StrLeTotal | main.py:189-190 | any two strings are ordered one way or the other |
| Ordering.SortBy | main.py:188-190 | `order_by` gives a sorted permutation of the table |
| Departments.NewDepartment | Department.py:33-39 | the constructor of the `Department` record stores each argument in the field of the same name, and `chair_name` in `chairName` |
| Departments.FitsColumns | Department.py:12-22 | name, abbreviation, chair name, building and description fit their declared widths of 50, 6, 80, 10 and 80 |
| Departments.CandidateKeysDiffer | Department.py:28-31 | two departments differ on abbreviation, on chair name, on the (building, office) pair and on description; they may share a building or an office number, but not both |
| Departments.PrimaryKeyDiffers | Department.py:12 | two departments differ on the primary key `name` |
| Students.NewStudent | main.py:250 | the new student carries the entered last name, first name and e-mail, and the identity value |
| Rules.DepartmentViolations | main.py:34-55 | one attempt of `add_department`: one message per check whose count is positive, in check order; the attempt is admitted when there are none |
| Rules.FirstAdmitted | main.py:20-65 | the attempt `add_department` admits passes every check, and every earlier attempt fails one |
| Rules.DepartmentViolationsMeaning | main.py:34-55 | each of the four messages is printed exactly when a stored department shares that key, and the attempt passes exactly when none is shared |
| Rules.AdmittedDepartmentKeepsKeys | Department.py:28-31 | admitting an attempt that passed the checks keeps all four candidate keys unique |
| Rules.DepartmentQueryMatchesAtMostOne | Department.py:28-31 | while the candidate keys are unique, no department query matches more than one row |
| Rules.DepartmentNameNotChecked | main.py:27-55 | the entered name never changes the decision |
| Rules.DuplicateNameAdmitted | Department.py:12 | a department whose name is already stored is admitted, which breaks the primary key |
| Rules.StudentViolations | main.py:240-249 | one attempt of `add_student`: the name message if the name pair is taken, otherwise the e-mail message if the e-mail is taken, otherwise nothing |
| Rules.StudentViolationsMeaning | main.py:240-249 | a name collision alone is reported, the e-mail message only appears for a free name, and the attempt passes exactly when both are free |
| Rules.StudentQueryMatchesAtMostOne | main.py:236-251 | while student ids, name pairs and e-mails are unique, no student query matches more than one row |
| Rules.DepartmentSelectorFor | main.py:155-167 | the four known actions map to their selectors and back; any other action gives no selector |
| Rules.StudentSelectorFor | main.py:321-331 | "ID", "first/last name" and "email" map to their selectors and back; any other action gives no selector |
| Rules.DepartmentLe | main.py:189-190 | lexicographic order on (abbreviation, chairName, building, office, description) |
| Rules.StudentLe | main.py:354 | lexicographic order on (lastName, firstName) |
| Rules.DepartmentLeTotalPreorder | main.py:189-190 | ordering by (abbreviation, chairName, building, office, description) is total and transitive |
| Rules.StudentLeTotalPreorder | main.py:354 | ordering by (lastName, firstName) is total and transitive |
| Rules.ListDepartments | main.py:188-192 | the listing holds every department once, sorted by the five keys |
| Rules.ListStudents | main.py:354-356 | the listing holds every student once, sorted by last name then first name |
| Workflows.Session.Valid | Department.py:28-31 | the table invariant: the four department candidate keys are unique, departments fit their widths, and student ids, name pairs and e-mails are unique |
| Workflows.Session.constructor | main.py:401-406 | the session starts with empty tables and identity value 1 |
| Workflows.Session.CheckDepartment | main.py:21-55 | one pass prints exactly the violations of the entered values and admits exactly when there are none |
| Workflows.Session.AddDepartment | main.py:20-65 | the first attempt with no violation is appended through the constructor and nothing else changes; earlier attempts are rejected and their messages logged; with no such attempt the table is unchanged |
| Workflows.Session.AddStudent | main.py:228-251 | the first attempt with a free name and a free e-mail is appended with the next identity value; earlier attempts are rejected with their one message; the keys stay unique |
| Workflows.Session.SelectDepartment | main.py:75-84 | department form of the retry loop, with its own retry message |
| Workflows.Session.SelectDepartmentAbbreviation | main.py:69-84 | retry until exactly one department has the entered abbreviation, then return it |
| Workflows.Session.SelectDepartmentChairName | main.py:88-103 | retry until exactly one department has the entered chair name, then return it |
| Workflows.Session.SelectDepartmentBuildingOffice | main.py:107-126 | retry until exactly one department has the entered building and office, then return it |
| Workflows.Session.SelectDepartmentDescription | main.py:130-145 | retry until exactly one department has the entered description, then return it |
| Workflows.Session.FindDepartment | main.py:148-167 | an unknown action returns None with no output; a known one runs its selector and returns the selected department |
| Workflows.Session.DeleteDepartment | main.py:170-178 | a known action deletes the first answer that matches exactly one department: that row is removed, the others keep their order, and the invariants hold; `Pending` means every answer missed, and then the table is unchanged |
| Workflows.Session.SelectStudent | main.py:264-271 | student form of the retry loop, with its own retry message |
| Workflows.Session.SelectStudentId | main.py:254-271 | retry until exactly one student has the entered id, then return it |
| Workflows.Session.SelectStudentFirstAndLastName | main.py:274-293 | retry until exactly one student has the entered last and first name, then return it |
| Workflows.Session.SelectStudentEMail | main.py:296-311 | retry until exactly one student has the entered e-mail, then return it |
| Workflows.Session.FindStudent | main.py:314-331 | an unknown action returns None with no output; a known one runs its selector and returns the selected student |
| Workflows.Session.DeleteStudent | main.py:334-343 | a known action deletes the first answer that matches exactly one student: that row is removed, the others keep their order, and the invariants hold; `Pending` means every answer missed, and then the table is unchanged |
| Workflows.RunMainMenu | main.py:406-412 | the executed actions run up to and including the first exit action; commit happens exactly when the exit action arrives, or at once when the exit action is the empty string the loop starts from |

## Left out

- The `Menu` and `Option` classes, `menu_definitions` and `db_connection` are not part of this model. A menu's answer is a parameter: the action string of `FindDepartment`, `FindStudent` and `RunMainMenu`, and the exit action.
- Console input is not modelled: entered values are typed parameters, and `int(...)` parse failures are not modelled. Of the output, only the workflow messages are modelled, as the `log` results.
- Table.FirstMatch: the program promises no row order for `.first()`. The model takes the earliest row in table order, which matters only if several rows match, and no call site asks then.
- SQLAlchemy is not modelled: query building, `drop_all` / `create_all`, and flush and commit timing. A pending row counts in later queries, as under autoflush.
- The database rejects a duplicate primary-key `name` when it flushes. That error is not modelled, so the model's table can hold two departments with one name.
- Column widths are not enforced by the model. `AddDepartment` requires only the attempt it admits to fit, since rejected attempts never reach the database, and `Session.Valid()` keeps stored rows within the widths. The 32-bit range of `office` is not modelled.
- Student.py is not part of this model. The student record has only the attributes main.py uses. Its column widths and declared constraints are unknown.
- String order is code-point lexicographic. The database's collation is not modelled, and neither is the order of rows that tie on every sort key.
- Workflows.Session.SelectDepartmentBuildingOffice: takes the office as an integer, while the program passes the raw entered string to the query.
- Workflows.Session.DeleteDepartment: when the action is unknown, the program's `session.delete(None)` raises. The model reports this as `Unmapped` with the table unchanged. It does not model the exception ending the main loop without a commit.
- Workflows.Session.DeleteStudent: the same applies to `Unmapped` as in `DeleteDepartment`.
- Workflows.RunMainMenu: does not model what each executed action does. The `exec` dispatch of the action string and the `eval` of the logging level are left out, because they are dynamic code execution.
- `select_department_from_list` and `select_student_from_list` are left out. They depend on the `Menu` class and on the module-level session.
- `Department.__str__` is left out because it only formats text for display.
