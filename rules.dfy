/** The decisions main.py takes without changing the session: what each
    query matches, which uniqueness checks an entry fails (and so which
    messages it prints), which selector a menu action dispatches to, and
    the order of the two listings. */
module Rules {
  import opened Wrappers
  import opened Table
  import opened Ordering
  import opened Departments
  import opened Students

  /** The lines the workflows print, one constructor per distinct message. */
  datatype Message =
    | AbbreviationTaken            // "Invalid, pick a different abbreviation."
    | ChairNameTaken               // "Invalid, pick a different chair name."
    | OfficeTaken                  // "Invalid, pick a different office."
    | DescriptionTaken             // "Invalid, pick a different description."
    | StudentNameTaken             // "We already have a student by that name.  Try again."
    | StudentEMailTaken            // "We already have a student with that e-mail address.  Try again."
    | NoDepartmentWithAbbreviation // "No department with that abbreviation.  Try again."
    | NoDepartmentWithChairName    // "No department with that chair name.  Try again."
    | NoDepartmentAtBuildingOffice // "No department by that building/office.  Try again."
    | NoDepartmentWithDescription  // "No department with that description.  Try again."
    | NoStudentWithId              // "No student with that ID.  Try again."
    | NoStudentWithName            // "No student by that name.  Try again."
    | NoStudentWithEMail           // "No student with that email address.  Try again."
    | DeletingDepartment           // "deleting a department"
    | DeletingStudent              // "deleting a student"

  /** `n` copies of the same message: what a retry loop prints after `n` misses. */
  function Repeat(m: Message, n: nat): (r: seq<Message>)
    ensures |r| == n && forall k :: 0 <= k < n ==> r[k] == m
  {
    if n == 0 then [] else Repeat(m, n - 1) + [m]
  }

  // ---------------------------------------------------------------- queries

  /** The `filter(...)` clauses main.py puts on department queries. */
  datatype DepartmentFilter =
    | AbbreviationIs(abbreviation: string)
    | ChairNameIs(chairName: string)
    | BuildingOfficeIs(building: string, office: int)
    | DescriptionIs(description: string)

  predicate DepartmentMatches(d: Department, f: DepartmentFilter) {
    match f
    case AbbreviationIs(a) => d.abbreviation == a
    case ChairNameIs(c) => d.chairName == c
    case BuildingOfficeIs(b, o) => d.building == b && d.office == o
    case DescriptionIs(s) => d.description == s
  }

  /** The `filter(...)` clauses main.py puts on student queries. */
  datatype StudentFilter =
    | IdIs(studentId: int)
    | NameIs(lastName: string, firstName: string)
    | EMailIs(eMail: string)

  predicate StudentMatches(s: Student, f: StudentFilter) {
    match f
    case IdIs(id) => s.studentId == id
    case NameIs(l, n) => s.lastName == l && s.firstName == n
    case EMailIs(e) => s.eMail == e
  }

  // ------------------------------------------------- uniqueness-gated insert

  /** The messages one attempt of `add_department` prints: one per check
      whose count is positive, in the order the checks run. There is no
      message for the building alone (its flag is never cleared) and none for
      the name (it is never checked). The attempt is admitted exactly when
      this is empty. */
  function DepartmentViolations(table: seq<Department>, c: Department): seq<Message> {
    (if Count(table, AbbreviationIs(c.abbreviation), DepartmentMatches) > 0 then [AbbreviationTaken] else [])
    + (if Count(table, ChairNameIs(c.chairName), DepartmentMatches) > 0 then [ChairNameTaken] else [])
    + (if Count(table, BuildingOfficeIs(c.building, c.office), DepartmentMatches) > 0 then [OfficeTaken] else [])
    + (if Count(table, DescriptionIs(c.description), DepartmentMatches) > 0 then [DescriptionTaken] else [])
  }

  /** Attempt `k` is the one `add_department` admits: it passes every check
      and every earlier attempt failed one. Only this attempt reaches the table. */
  ghost predicate FirstAdmitted(table: seq<Department>, attempts: seq<Department>, k: int) {
    && 0 <= k < |attempts|
    && DepartmentViolations(table, attempts[k]) == []
    && forall j :: 0 <= j < k ==> DepartmentViolations(table, attempts[j]) != []
  }

  /** No stored department shares a candidate key with `c`. */
  ghost predicate DepartmentAdmissible(table: seq<Department>, c: Department) {
    forall i :: 0 <= i < |table| ==> CandidateKeysDiffer(table[i], c)
  }

  /** Each message of `add_department` is printed exactly when some stored
      department shares the corresponding key, and the attempt passes
      exactly when none shares any of the four. */
  lemma DepartmentViolationsMeaning(table: seq<Department>, c: Department)
    ensures AbbreviationTaken in DepartmentViolations(table, c) <==>
      exists i :: 0 <= i < |table| && table[i].abbreviation == c.abbreviation
    ensures ChairNameTaken in DepartmentViolations(table, c) <==>
      exists i :: 0 <= i < |table| && table[i].chairName == c.chairName
    ensures OfficeTaken in DepartmentViolations(table, c) <==>
      exists i :: 0 <= i < |table| && table[i].building == c.building && table[i].office == c.office
    ensures DescriptionTaken in DepartmentViolations(table, c) <==>
      exists i :: 0 <= i < |table| && table[i].description == c.description
    ensures DepartmentViolations(table, c) == [] <==> DepartmentAdmissible(table, c)
  {
    CountZero(table, AbbreviationIs(c.abbreviation), DepartmentMatches);
    CountZero(table, ChairNameIs(c.chairName), DepartmentMatches);
    CountZero(table, BuildingOfficeIs(c.building, c.office), DepartmentMatches);
    CountZero(table, DescriptionIs(c.description), DepartmentMatches);
  }

  /** Admitting an attempt that passed every check keeps the four candidate keys unique. */
  lemma AdmittedDepartmentKeepsKeys(table: seq<Department>, c: Department)
    requires Pairwise(table, CandidateKeysDiffer)
    requires DepartmentViolations(table, c) == []
    ensures Pairwise(table + [c], CandidateKeysDiffer)
  {
    DepartmentViolationsMeaning(table, c);
    AppendKeepsPairwise(table, c, CandidateKeysDiffer);
  }

  /** While the four candidate keys are unique, no department query matches
      more than one row: a selection miss then always means no match. */
  lemma DepartmentQueryMatchesAtMostOne(table: seq<Department>, f: DepartmentFilter)
    requires Pairwise(table, CandidateKeysDiffer)
    ensures Count(table, f, DepartmentMatches) <= 1
  {
    CountAtMostOne(table, f, DepartmentMatches, CandidateKeysDiffer);
  }

  /** The department name, the primary key, plays no part in the decision. */
  lemma DepartmentNameNotChecked(table: seq<Department>, c: Department, name: string)
    ensures DepartmentViolations(table, c.(name := name)) == DepartmentViolations(table, c)
  {
  }

  /** So `add_department` admits a second department with a stored name. */
  lemma DuplicateNameAdmitted()
    ensures var stored := Department("Math", "MATH", "Ada", "ECS", 101, "Numbers");
            var entered := Department("Math", "CECS", "Bob", "ECS", 102, "Programs");
            DepartmentViolations([stored], entered) == [] &&
            !Pairwise([stored, entered], PrimaryKeyDiffers)
  {
    var stored := Department("Math", "MATH", "Ada", "ECS", 101, "Numbers");
    var entered := Department("Math", "CECS", "Bob", "ECS", 102, "Programs");
    DepartmentViolationsMeaning([stored], entered);
    assert [stored, entered][0] == stored && [stored, entered][1] == entered;
  }

  /** The messages one attempt of `add_student` prints. The name pair is
      checked first; the e-mail is checked only when the name is free. */
  function StudentViolations(table: seq<Student>, e: StudentEntry): seq<Message> {
    if Count(table, NameIs(e.lastName, e.firstName), StudentMatches) != 0 then [StudentNameTaken]
    else if Count(table, EMailIs(e.eMail), StudentMatches) != 0 then [StudentEMailTaken]
    else []
  }

  /** No stored student has the entered name pair or the entered e-mail. */
  ghost predicate StudentAdmissible(table: seq<Student>, e: StudentEntry) {
    forall i :: 0 <= i < |table| ==>
      (table[i].lastName != e.lastName || table[i].firstName != e.firstName) && table[i].eMail != e.eMail
  }

  /** A name collision alone is reported; the e-mail message appears only
      for a free name; the attempt passes exactly when both are free. */
  lemma StudentViolationsMeaning(table: seq<Student>, e: StudentEntry)
    ensures StudentViolations(table, e) == [StudentNameTaken] <==>
      exists i :: 0 <= i < |table| && table[i].lastName == e.lastName && table[i].firstName == e.firstName
    ensures StudentViolations(table, e) == [StudentEMailTaken] <==>
      (forall i :: 0 <= i < |table| ==> table[i].lastName != e.lastName || table[i].firstName != e.firstName) &&
      (exists i :: 0 <= i < |table| && table[i].eMail == e.eMail)
    ensures StudentViolations(table, e) == [] <==> StudentAdmissible(table, e)
  {
    CountZero(table, NameIs(e.lastName, e.firstName), StudentMatches);
    CountZero(table, EMailIs(e.eMail), StudentMatches);
  }

  /** While student ids, name pairs and e-mails are unique, no student query
      matches more than one row. */
  lemma StudentQueryMatchesAtMostOne(table: seq<Student>, f: StudentFilter)
    requires Pairwise(table, StudentKeysDiffer)
    ensures Count(table, f, StudentMatches) <= 1
  {
    CountAtMostOne(table, f, StudentMatches, StudentKeysDiffer);
  }

  /** Every message printed by a run of rejected attempts, in order. */
  function RejectionLog<T, E>(table: T, attempts: seq<E>, violations: (T, E) -> seq<Message>): seq<Message> {
    if attempts == [] then []
    else RejectionLog(table, attempts[..|attempts| - 1], violations) + violations(table, attempts[|attempts| - 1])
  }

  // --------------------------------------------------------------- dispatch

  datatype DepartmentSelector = ByAbbreviation | ByChairName | ByBuildingOffice | ByDescription

  /** The action value the department-selection menu returns for each selector. */
  function DepartmentAction(s: DepartmentSelector): string {
    match s
    case ByAbbreviation => "abbreviation"
    case ByChairName => "chair_name"
    case ByBuildingOffice => "building/office"
    case ByDescription => "description"
  }

  /** The `match` of `find_department`: a known action picks its selector,
      anything else gives no selector. */
  function DepartmentSelectorFor(action: string): (r: Option<DepartmentSelector>)
    ensures r.Some? ==> DepartmentAction(r.value) == action
    ensures r.None? ==> forall s :: DepartmentAction(s) != action
  {
    match action
    case "abbreviation" => Some(ByAbbreviation)
    case "chair_name" => Some(ByChairName)
    case "building/office" => Some(ByBuildingOffice)
    case "description" => Some(ByDescription)
    case _ => None
  }

  datatype StudentSelector = ById | ByName | ByEMail

  /** The action value the student-selection menu returns for each selector. */
  function StudentAction(s: StudentSelector): string {
    match s
    case ById => "ID"
    case ByName => "first/last name"
    case ByEMail => "email"
  }

  /** The `match` of `find_student`. */
  function StudentSelectorFor(action: string): (r: Option<StudentSelector>)
    ensures r.Some? ==> StudentAction(r.value) == action
    ensures r.None? ==> forall s :: StudentAction(s) != action
  {
    match action
    case "ID" => Some(ById)
    case "first/last name" => Some(ByName)
    case "email" => Some(ByEMail)
    case _ => None
  }

  /** What the user types, attempt by attempt, to whichever department
      selector runs. */
  datatype DepartmentAnswers = DepartmentAnswers(
    abbreviations: seq<string>,
    chairNames: seq<string>,
    buildingOffices: seq<(string, int)>,
    descriptions: seq<string>)

  /** The filters a department selector queries with, one per attempt. */
  function DepartmentQueries(s: DepartmentSelector, answers: DepartmentAnswers): (q: seq<DepartmentFilter>)
    ensures s == ByAbbreviation ==> (|q| == |answers.abbreviations| &&
      forall k :: 0 <= k < |q| ==> q[k] == AbbreviationIs(answers.abbreviations[k]))
    ensures s == ByChairName ==> (|q| == |answers.chairNames| &&
      forall k :: 0 <= k < |q| ==> q[k] == ChairNameIs(answers.chairNames[k]))
    ensures s == ByBuildingOffice ==> (|q| == |answers.buildingOffices| &&
      forall k :: 0 <= k < |q| ==> q[k] == BuildingOfficeIs(answers.buildingOffices[k].0, answers.buildingOffices[k].1))
    ensures s == ByDescription ==> (|q| == |answers.descriptions| &&
      forall k :: 0 <= k < |q| ==> q[k] == DescriptionIs(answers.descriptions[k]))
  {
    match s
    case ByAbbreviation =>
      seq(|answers.abbreviations|, k requires 0 <= k < |answers.abbreviations| => AbbreviationIs(answers.abbreviations[k]))
    case ByChairName =>
      seq(|answers.chairNames|, k requires 0 <= k < |answers.chairNames| => ChairNameIs(answers.chairNames[k]))
    case ByBuildingOffice =>
      seq(|answers.buildingOffices|, k requires 0 <= k < |answers.buildingOffices| =>
        BuildingOfficeIs(answers.buildingOffices[k].0, answers.buildingOffices[k].1))
    case ByDescription =>
      seq(|answers.descriptions|, k requires 0 <= k < |answers.descriptions| => DescriptionIs(answers.descriptions[k]))
  }

  /** The retry message of each department selector. */
  function DepartmentMiss(s: DepartmentSelector): Message {
    match s
    case ByAbbreviation => NoDepartmentWithAbbreviation
    case ByChairName => NoDepartmentWithChairName
    case ByBuildingOffice => NoDepartmentAtBuildingOffice
    case ByDescription => NoDepartmentWithDescription
  }

  /** What the user types, attempt by attempt, to whichever student selector runs. */
  datatype StudentAnswers = StudentAnswers(
    ids: seq<int>,
    names: seq<(string, string)>,
    eMails: seq<string>)

  /** The filters a student selector queries with, one per attempt; a name
      answer is (lastName, firstName). */
  function StudentQueries(s: StudentSelector, answers: StudentAnswers): (q: seq<StudentFilter>)
    ensures s == ById ==> (|q| == |answers.ids| &&
      forall k :: 0 <= k < |q| ==> q[k] == IdIs(answers.ids[k]))
    ensures s == ByName ==> (|q| == |answers.names| &&
      forall k :: 0 <= k < |q| ==> q[k] == NameIs(answers.names[k].0, answers.names[k].1))
    ensures s == ByEMail ==> (|q| == |answers.eMails| &&
      forall k :: 0 <= k < |q| ==> q[k] == EMailIs(answers.eMails[k]))
  {
    match s
    case ById => seq(|answers.ids|, k requires 0 <= k < |answers.ids| => IdIs(answers.ids[k]))
    case ByName => seq(|answers.names|, k requires 0 <= k < |answers.names| => NameIs(answers.names[k].0, answers.names[k].1))
    case ByEMail => seq(|answers.eMails|, k requires 0 <= k < |answers.eMails| => EMailIs(answers.eMails[k]))
  }

  /** The retry message of each student selector. */
  function StudentMiss(s: StudentSelector): Message {
    match s
    case ById => NoStudentWithId
    case ByName => NoStudentWithName
    case ByEMail => NoStudentWithEMail
  }

  // --------------------------------------------------------------- listings

  /** `order_by(abbreviation, chairName, building, office, description)`. */
  predicate DepartmentLe(a: Department, b: Department) {
    || StrLt(a.abbreviation, b.abbreviation)
    || (a.abbreviation == b.abbreviation &&
        (|| StrLt(a.chairName, b.chairName)
         || (a.chairName == b.chairName &&
             (|| StrLt(a.building, b.building)
              || (a.building == b.building &&
                  (|| a.office < b.office
                   || (a.office == b.office && StrLe(a.description, b.description))))))))
  }

  /** `order_by(lastName, firstName)`. */
  predicate StudentLe(a: Student, b: Student) {
    StrLt(a.lastName, b.lastName) || (a.lastName == b.lastName && StrLe(a.firstName, b.firstName))
  }

  /** Facts about two or three strings that the lexicographic orders above rely on. */
  lemma StrOrderFacts(a: string, b: string, c: string)
    ensures StrLe(a, b) || StrLe(b, a)
    ensures StrLe(a, b) && StrLe(b, a) ==> a == b
    ensures StrLe(b, c) && StrLe(c, b) ==> b == c
    ensures StrLe(a, c) && StrLe(c, a) ==> a == c
    ensures StrLe(a, b) && StrLe(b, c) ==> StrLe(a, c)
  {
    StrLeTotal(a, b);
    if StrLe(a, b) && StrLe(b, a) { StrLeAntisymmetric(a, b); }
    if StrLe(b, c) && StrLe(c, b) { StrLeAntisymmetric(b, c); }
    if StrLe(a, c) && StrLe(c, a) { StrLeAntisymmetric(a, c); }
    if StrLe(a, b) && StrLe(b, c) { StrLeTransitive(a, b, c); }
  }

  lemma DepartmentLeTotalPreorder()
    ensures TotalPreorder(DepartmentLe)
  {
    forall a: Department, b: Department ensures DepartmentLe(a, b) || DepartmentLe(b, a) {
      StrOrderFacts(a.abbreviation, b.abbreviation, b.abbreviation);
      StrOrderFacts(a.chairName, b.chairName, b.chairName);
      StrOrderFacts(a.building, b.building, b.building);
      StrOrderFacts(a.description, b.description, b.description);
    }
    forall a: Department, b: Department, c: Department | DepartmentLe(a, b) && DepartmentLe(b, c)
      ensures DepartmentLe(a, c)
    {
      StrOrderFacts(a.abbreviation, b.abbreviation, c.abbreviation);
      StrOrderFacts(a.chairName, b.chairName, c.chairName);
      StrOrderFacts(a.building, b.building, c.building);
      StrOrderFacts(a.description, b.description, c.description);
    }
  }

  lemma StudentLeTotalPreorder()
    ensures TotalPreorder(StudentLe)
  {
    forall a: Student, b: Student ensures StudentLe(a, b) || StudentLe(b, a) {
      StrOrderFacts(a.lastName, b.lastName, b.lastName);
      StrOrderFacts(a.firstName, b.firstName, b.firstName);
    }
    forall a: Student, b: Student, c: Student | StudentLe(a, b) && StudentLe(b, c)
      ensures StudentLe(a, c)
    {
      StrOrderFacts(a.lastName, b.lastName, c.lastName);
      StrOrderFacts(a.firstName, b.firstName, c.firstName);
    }
  }

  /** `list_departments`: every stored department once, in sort-key order. */
  function ListDepartments(table: seq<Department>): (r: seq<Department>)
    ensures Sorted(r, DepartmentLe)
    ensures multiset(r) == multiset(table)
  {
    DepartmentLeTotalPreorder();
    SortBy(table, DepartmentLe)
  }

  /** `list_students`: every stored student once, by last name then first name. */
  function ListStudents(table: seq<Student>): (r: seq<Student>)
    ensures Sorted(r, StudentLe)
    ensures multiset(r) == multiset(table)
  {
    StudentLeTotalPreorder();
    SortBy(table, StudentLe)
  }
}
