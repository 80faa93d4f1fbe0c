/** The workflows of main.py over one open session. The session is an
    object whose two tables `session.add` and `session.delete` change in
    place; every retry loop consumes a finite sequence of attempts standing
    for what the user types, and reports `Waiting` when that input runs out
    before the loop would end. */
module Workflows {
  import opened Wrappers
  import opened Table
  import opened Departments
  import opened Students
  import opened Rules

  /** What `delete_department` / `delete_student` achieved: the found row is
      gone, or the find dispatched to no selector and `session.delete(None)`
      raised, or the selection loop was still prompting. */
  datatype Deletion<+R> = Deleted(record: R) | Unmapped | Pending

  class Session {
    var departments: seq<Department>
    var students: seq<Student>
    /** The value the identity column gives the next student. */
    var nextStudentId: int

    /** The table invariants: the four department candidate keys are unique
        and every department fits its column widths; student ids, name pairs
        and e-mails are unique and every id was handed out already. */
    ghost predicate Valid()
      reads this
    {
      && Pairwise(departments, CandidateKeysDiffer)
      && (forall i :: 0 <= i < |departments| ==> FitsColumns(departments[i]))
      && Pairwise(students, StudentKeysDiffer)
      && (forall i :: 0 <= i < |students| ==> students[i].studentId < nextStudentId)
    }

    /** The session over freshly created tables (`drop_all` then `create_all`). */
    constructor ()
      ensures Valid()
      ensures departments == [] && students == [] && nextStudentId == 1
    {
      departments := [];
      students := [];
      nextStudentId := 1;
    }

    /** One pass of the `add_department` loop body over the entered values:
        four count queries, a flag per check and one message per failed
        check. `unique_building` is never cleared, as in the program. */
    method CheckDepartment(entered: Department) returns (unique: bool, printed: seq<Message>)
      ensures printed == DepartmentViolations(departments, entered)
      ensures unique <==> printed == []
    {
      var uniqueAbbreviation, uniqueChairName, uniqueBuilding, uniqueOffice, uniqueDescription := true, true, true, true, true;
      printed := [];
      var abbreviationCount := Count(departments, AbbreviationIs(entered.abbreviation), DepartmentMatches);
      if abbreviationCount > 0 {
        printed := printed + [AbbreviationTaken];
        uniqueAbbreviation := false;
      }
      var chairCount := Count(departments, ChairNameIs(entered.chairName), DepartmentMatches);
      if chairCount > 0 {
        printed := printed + [ChairNameTaken];
        uniqueChairName := false;
      }
      var officeCount := Count(departments, BuildingOfficeIs(entered.building, entered.office), DepartmentMatches);
      if officeCount > 0 {
        printed := printed + [OfficeTaken];
        uniqueOffice := false;
      }
      var descriptionCount := Count(departments, DescriptionIs(entered.description), DepartmentMatches);
      if descriptionCount > 0 {
        printed := printed + [DescriptionTaken];
        uniqueDescription := false;
      }
      unique := uniqueAbbreviation && uniqueChairName && uniqueBuilding && uniqueOffice && uniqueDescription;
    }

    /** `add_department`: attempt after attempt, run the four uniqueness
        checks, print one message per failed check, and admit the first
        attempt that fails none; nothing changes for a rejected attempt. */
    method AddDepartment(attempts: seq<Department>) returns (admitted: Prompted<nat>, log: seq<Message>)
      requires Valid()
      requires forall k :: 0 <= k < |attempts| && FirstAdmitted(departments, attempts, k) ==> FitsColumns(attempts[k])
      modifies this
      ensures Valid()
      ensures students == old(students) && nextStudentId == old(nextStudentId)
      ensures admitted.Waiting? ==>
        && departments == old(departments)
        && (forall k :: 0 <= k < |attempts| ==> DepartmentViolations(old(departments), attempts[k]) != [])
        && log == RejectionLog(old(departments), attempts, DepartmentViolations)
      ensures admitted.Done? ==>
        && admitted.value < |attempts|
        && DepartmentViolations(old(departments), attempts[admitted.value]) == []
        && departments == old(departments) + [attempts[admitted.value]]
        && (forall k :: 0 <= k < admitted.value ==> DepartmentViolations(old(departments), attempts[k]) != [])
        && log == RejectionLog(old(departments), attempts[..admitted.value], DepartmentViolations)
    {
      log := [];
      var i := 0;
      var done := false;
      while !done && i < |attempts|
        invariant 0 <= i <= |attempts|
        invariant Valid()
        invariant students == old(students) && nextStudentId == old(nextStudentId)
        invariant done ==> i < |attempts| && DepartmentViolations(old(departments), attempts[i]) == []
        invariant departments == if done then old(departments) + [attempts[i]] else old(departments)
        invariant forall k :: 0 <= k < i ==> DepartmentViolations(old(departments), attempts[k]) != []
        invariant log == RejectionLog(old(departments), attempts[..i], DepartmentViolations)
        decreases |attempts| - i, if done then 0 else 1
      {
        var entered := attempts[i];
        var unique, printed := CheckDepartment(entered);
        if unique {
          AdmittedDepartmentKeepsKeys(departments, entered);
          var newDepartment := NewDepartment(entered.name, entered.abbreviation, entered.chairName,
                                             entered.building, entered.office, entered.description);
          departments := departments + [newDepartment];
          done := true;
        } else {
          assert attempts[..i + 1][..i] == attempts[..i];
          log := log + printed;
          i := i + 1;
        }
      }
      if done {
        admitted := Done(i);
      } else {
        assert attempts[..i] == attempts;
        admitted := Waiting;
      }
    }

    /** `add_student`: attempt after attempt, check the name pair, and only
        while it is free the e-mail; the first attempt with both free is added
        with the next identity value. */
    method AddStudent(attempts: seq<StudentEntry>) returns (added: Prompted<nat>, log: seq<Message>)
      requires Valid()
      modifies this
      ensures Valid()
      ensures departments == old(departments)
      ensures added.Waiting? ==>
        && students == old(students) && nextStudentId == old(nextStudentId)
        && (forall k :: 0 <= k < |attempts| ==> StudentViolations(old(students), attempts[k]) != [])
        && log == RejectionLog(old(students), attempts, StudentViolations)
      ensures added.Done? ==>
        && added.value < |attempts|
        && StudentViolations(old(students), attempts[added.value]) == []
        && students == old(students) + [NewStudent(old(nextStudentId), attempts[added.value])]
        && nextStudentId == old(nextStudentId) + 1
        && (forall k :: 0 <= k < added.value ==> StudentViolations(old(students), attempts[k]) != [])
        && log == RejectionLog(old(students), attempts[..added.value], StudentViolations)
    {
      var uniqueName := false;
      var uniqueEMail := false;
      log := [];
      var i := 0;
      while (!uniqueName || !uniqueEMail) && i < |attempts|
        invariant 0 <= i <= |attempts|
        invariant students == old(students) && departments == old(departments) && nextStudentId == old(nextStudentId)
        invariant uniqueEMail ==> uniqueName
        invariant uniqueName && uniqueEMail ==> 0 < i && StudentViolations(students, attempts[i - 1]) == []
        invariant var rejected := if uniqueName && uniqueEMail then i - 1 else i;
          && (forall k :: 0 <= k < rejected ==> StudentViolations(students, attempts[k]) != [])
          && log == RejectionLog(students, attempts[..rejected], StudentViolations)
      {
        var entered := attempts[i];
        var nameCount := Count(students, NameIs(entered.lastName, entered.firstName), StudentMatches);
        uniqueName := nameCount == 0;
        var printed: seq<Message> := [];
        if !uniqueName {
          printed := printed + [StudentNameTaken];
        }
        if uniqueName {
          var eMailCount := Count(students, EMailIs(entered.eMail), StudentMatches);
          uniqueEMail := eMailCount == 0;
          if !uniqueEMail {
            printed := printed + [StudentEMailTaken];
          }
        }
        assert printed == StudentViolations(students, entered);
        assert attempts[..i + 1][..i] == attempts[..i];
        log := log + printed;
        i := i + 1;
      }
      if uniqueName && uniqueEMail {
        var entered := attempts[i - 1];
        var newStudent := NewStudent(nextStudentId, entered);
        StudentViolationsMeaning(students, entered);
        AppendKeepsPairwise(students, newStudent, StudentKeysDiffer);
        students := students + [newStudent];
        nextStudentId := nextStudentId + 1;
        added := Done(i - 1);
      } else {
        assert attempts[..i] == attempts;
        added := Waiting;
      }
    }

    /** The selection loop every `select_department_*` shares: retry with
        message `miss` until a count of exactly 1, then `.first()`. */
    method SelectDepartment(queries: seq<DepartmentFilter>, miss: Message) returns (r: Prompted<Department>, log: seq<Message>)
      ensures Selected(departments, DepartmentMatches, queries, r, |log|)
      ensures log == Repeat(miss, |log|)
    {
      var found, misses := SelectOne(departments, DepartmentMatches, queries);
      r := if found.Done? then Done(departments[found.value]) else Waiting;
      log := Repeat(miss, misses);
    }

    /** `select_department_abbreviation`. */
    method SelectDepartmentAbbreviation(abbreviations: seq<string>) returns (r: Prompted<Department>, log: seq<Message>)
      ensures |log| <= |abbreviations| && log == Repeat(NoDepartmentWithAbbreviation, |log|)
      ensures forall k :: 0 <= k < |log| ==> Count(departments, AbbreviationIs(abbreviations[k]), DepartmentMatches) != 1
      ensures r.Waiting? <==> |log| == |abbreviations|
      ensures r.Done? ==> r.value in departments && r.value.abbreviation == abbreviations[|log|]
      ensures r.Done? ==> Count(departments, AbbreviationIs(abbreviations[|log|]), DepartmentMatches) == 1
    {
      r, log := SelectDepartment(DepartmentQueries(ByAbbreviation, DepartmentAnswers(abbreviations, [], [], [])), NoDepartmentWithAbbreviation);
    }

    /** `select_department_chair_name`. */
    method SelectDepartmentChairName(chairNames: seq<string>) returns (r: Prompted<Department>, log: seq<Message>)
      ensures |log| <= |chairNames| && log == Repeat(NoDepartmentWithChairName, |log|)
      ensures forall k :: 0 <= k < |log| ==> Count(departments, ChairNameIs(chairNames[k]), DepartmentMatches) != 1
      ensures r.Waiting? <==> |log| == |chairNames|
      ensures r.Done? ==> r.value in departments && r.value.chairName == chairNames[|log|]
      ensures r.Done? ==> Count(departments, ChairNameIs(chairNames[|log|]), DepartmentMatches) == 1
    {
      r, log := SelectDepartment(DepartmentQueries(ByChairName, DepartmentAnswers([], chairNames, [], [])), NoDepartmentWithChairName);
    }

    /** `select_department_building_office`. */
    method SelectDepartmentBuildingOffice(buildingOffices: seq<(string, int)>) returns (r: Prompted<Department>, log: seq<Message>)
      ensures |log| <= |buildingOffices| && log == Repeat(NoDepartmentAtBuildingOffice, |log|)
      ensures forall k :: 0 <= k < |log| ==>
        Count(departments, BuildingOfficeIs(buildingOffices[k].0, buildingOffices[k].1), DepartmentMatches) != 1
      ensures r.Waiting? <==> |log| == |buildingOffices|
      ensures r.Done? ==> r.value in departments && (r.value.building, r.value.office) == buildingOffices[|log|]
      ensures r.Done? ==>
        Count(departments, BuildingOfficeIs(buildingOffices[|log|].0, buildingOffices[|log|].1), DepartmentMatches) == 1
    {
      r, log := SelectDepartment(DepartmentQueries(ByBuildingOffice, DepartmentAnswers([], [], buildingOffices, [])), NoDepartmentAtBuildingOffice);
    }

    /** `select_department_description`. */
    method SelectDepartmentDescription(descriptions: seq<string>) returns (r: Prompted<Department>, log: seq<Message>)
      ensures |log| <= |descriptions| && log == Repeat(NoDepartmentWithDescription, |log|)
      ensures forall k :: 0 <= k < |log| ==> Count(departments, DescriptionIs(descriptions[k]), DepartmentMatches) != 1
      ensures r.Waiting? <==> |log| == |descriptions|
      ensures r.Done? ==> r.value in departments && r.value.description == descriptions[|log|]
      ensures r.Done? ==> Count(departments, DescriptionIs(descriptions[|log|]), DepartmentMatches) == 1
    {
      r, log := SelectDepartment(DepartmentQueries(ByDescription, DepartmentAnswers([], [], [], descriptions)), NoDepartmentWithDescription);
    }

    /** `find_department`: dispatch the menu action to its selector; an
        unknown action selects nothing. */
    method FindDepartment(action: string, answers: DepartmentAnswers) returns (r: Prompted<Option<Department>>, log: seq<Message>)
      ensures DepartmentSelectorFor(action).None? ==> r == Done(None) && log == []
      ensures DepartmentSelectorFor(action).Some? ==>
        var s := DepartmentSelectorFor(action).value;
        && (r.Done? ==> r.value.Some?)
        && log == Repeat(DepartmentMiss(s), |log|)
        && Selected(departments, DepartmentMatches, DepartmentQueries(s, answers),
                    if r.Done? && r.value.Some? then Done(r.value.value) else Waiting, |log|)
    {
      var selected: Prompted<Department>;
      match DepartmentSelectorFor(action) {
        case None =>
          return Done(None), [];
        case Some(ByAbbreviation) =>
          selected, log := SelectDepartmentAbbreviation(answers.abbreviations);
        case Some(ByChairName) =>
          selected, log := SelectDepartmentChairName(answers.chairNames);
        case Some(ByBuildingOffice) =>
          selected, log := SelectDepartmentBuildingOffice(answers.buildingOffices);
        case Some(ByDescription) =>
          selected, log := SelectDepartmentDescription(answers.descriptions);
      }
      r := if selected.Done? then Done(Some(selected.value)) else Waiting;
    }

    /** `delete_department`: print the banner, find a department and delete
        exactly that row; every other row stays, in its place. */
    method DeleteDepartment(action: string, answers: DepartmentAnswers) returns (outcome: Deletion<Department>, log: seq<Message>)
      requires Valid()
      modifies this
      ensures Valid()
      ensures students == old(students) && nextStudentId == old(nextStudentId)
      ensures |log| > 0 && log[0] == DeletingDepartment
      ensures outcome.Unmapped? ==> log == [DeletingDepartment]
      ensures DepartmentSelectorFor(action).Some? ==>
        log[1..] == Repeat(DepartmentMiss(DepartmentSelectorFor(action).value), |log| - 1)
      ensures outcome.Unmapped? <==> DepartmentSelectorFor(action).None?
      ensures outcome.Deleted? ==>
        && Selected(old(departments), DepartmentMatches, DepartmentQueries(DepartmentSelectorFor(action).value, answers),
                    Done(outcome.record), |log| - 1)
        && departments == Remove(old(departments), outcome.record)
        && outcome.record !in departments
      ensures outcome.Pending? ==>
        Selected(old(departments), DepartmentMatches, DepartmentQueries(DepartmentSelectorFor(action).value, answers),
                 Waiting, |log| - 1)
      ensures !outcome.Deleted? ==> departments == old(departments)
    {
      var found, findLog := FindDepartment(action, answers);
      log := [DeletingDepartment] + findLog;
      if found.Done? && found.value.Some? {
        var doomed := found.value.value;
        RemoveKeepsPairwise(departments, doomed, CandidateKeysDiffer);
        departments := Remove(departments, doomed);
        outcome := Deleted(doomed);
      } else if found.Done? {
        outcome := Unmapped;
      } else {
        outcome := Pending;
      }
    }

    /** The selection loop every `select_student_*` shares. */
    method SelectStudent(queries: seq<StudentFilter>, miss: Message) returns (r: Prompted<Student>, log: seq<Message>)
      ensures Selected(students, StudentMatches, queries, r, |log|)
      ensures log == Repeat(miss, |log|)
    {
      var found, misses := SelectOne(students, StudentMatches, queries);
      r := if found.Done? then Done(students[found.value]) else Waiting;
      log := Repeat(miss, misses);
    }

    /** `select_student_id`. */
    method SelectStudentId(ids: seq<int>) returns (r: Prompted<Student>, log: seq<Message>)
      ensures |log| <= |ids| && log == Repeat(NoStudentWithId, |log|)
      ensures forall k :: 0 <= k < |log| ==> Count(students, IdIs(ids[k]), StudentMatches) != 1
      ensures r.Waiting? <==> |log| == |ids|
      ensures r.Done? ==> r.value in students && r.value.studentId == ids[|log|]
      ensures r.Done? ==> Count(students, IdIs(ids[|log|]), StudentMatches) == 1
    {
      r, log := SelectStudent(StudentQueries(ById, StudentAnswers(ids, [], [])), NoStudentWithId);
    }

    /** `select_student_first_and_last_name`; each answer is (lastName, firstName). */
    method SelectStudentFirstAndLastName(names: seq<(string, string)>) returns (r: Prompted<Student>, log: seq<Message>)
      ensures |log| <= |names| && log == Repeat(NoStudentWithName, |log|)
      ensures forall k :: 0 <= k < |log| ==> Count(students, NameIs(names[k].0, names[k].1), StudentMatches) != 1
      ensures r.Waiting? <==> |log| == |names|
      ensures r.Done? ==> r.value in students && (r.value.lastName, r.value.firstName) == names[|log|]
      ensures r.Done? ==> Count(students, NameIs(names[|log|].0, names[|log|].1), StudentMatches) == 1
    {
      r, log := SelectStudent(StudentQueries(ByName, StudentAnswers([], names, [])), NoStudentWithName);
    }

    /** `select_student_email`. */
    method SelectStudentEMail(eMails: seq<string>) returns (r: Prompted<Student>, log: seq<Message>)
      ensures |log| <= |eMails| && log == Repeat(NoStudentWithEMail, |log|)
      ensures forall k :: 0 <= k < |log| ==> Count(students, EMailIs(eMails[k]), StudentMatches) != 1
      ensures r.Waiting? <==> |log| == |eMails|
      ensures r.Done? ==> r.value in students && r.value.eMail == eMails[|log|]
      ensures r.Done? ==> Count(students, EMailIs(eMails[|log|]), StudentMatches) == 1
    {
      r, log := SelectStudent(StudentQueries(ByEMail, StudentAnswers([], [], eMails)), NoStudentWithEMail);
    }

    /** `find_student`: dispatch the menu action to its selector; an unknown
        action selects nothing. */
    method FindStudent(action: string, answers: StudentAnswers) returns (r: Prompted<Option<Student>>, log: seq<Message>)
      ensures StudentSelectorFor(action).None? ==> r == Done(None) && log == []
      ensures StudentSelectorFor(action).Some? ==>
        var s := StudentSelectorFor(action).value;
        && (r.Done? ==> r.value.Some?)
        && log == Repeat(StudentMiss(s), |log|)
        && Selected(students, StudentMatches, StudentQueries(s, answers),
                    if r.Done? && r.value.Some? then Done(r.value.value) else Waiting, |log|)
    {
      var selected: Prompted<Student>;
      match StudentSelectorFor(action) {
        case None =>
          return Done(None), [];
        case Some(ById) =>
          selected, log := SelectStudentId(answers.ids);
        case Some(ByName) =>
          selected, log := SelectStudentFirstAndLastName(answers.names);
        case Some(ByEMail) =>
          selected, log := SelectStudentEMail(answers.eMails);
      }
      r := if selected.Done? then Done(Some(selected.value)) else Waiting;
    }

    /** `delete_student`: print the banner, find a student and delete exactly that row. */
    method DeleteStudent(action: string, answers: StudentAnswers) returns (outcome: Deletion<Student>, log: seq<Message>)
      requires Valid()
      modifies this
      ensures Valid()
      ensures departments == old(departments) && nextStudentId == old(nextStudentId)
      ensures |log| > 0 && log[0] == DeletingStudent
      ensures outcome.Unmapped? ==> log == [DeletingStudent]
      ensures StudentSelectorFor(action).Some? ==>
        log[1..] == Repeat(StudentMiss(StudentSelectorFor(action).value), |log| - 1)
      ensures outcome.Unmapped? <==> StudentSelectorFor(action).None?
      ensures outcome.Deleted? ==>
        && Selected(old(students), StudentMatches, StudentQueries(StudentSelectorFor(action).value, answers),
                    Done(outcome.record), |log| - 1)
        && students == Remove(old(students), outcome.record)
        && outcome.record !in students
      ensures outcome.Pending? ==>
        Selected(old(students), StudentMatches, StudentQueries(StudentSelectorFor(action).value, answers),
                 Waiting, |log| - 1)
      ensures !outcome.Deleted? ==> students == old(students)
    {
      var found, findLog := FindStudent(action, answers);
      log := [DeletingStudent] + findLog;
      if found.Done? && found.value.Some? {
        var doomed := found.value.value;
        RemoveKeepsPairwise(students, doomed, StudentKeysDiffer);
        students := Remove(students, doomed);
        outcome := Deleted(doomed);
      } else if found.Done? {
        outcome := Unmapped;
      } else {
        outcome := Pending;
      }
    }
  }

  /** The top-level loop's exit test: starting from the empty action, prompt
      for an action and execute it until the action just executed is the
      main menu's last action; then commit. The exit action itself is
      executed too. `executed` are the actions handed to the workflows. */
  method RunMainMenu(exitAction: string, actions: seq<string>) returns (executed: seq<string>, committed: bool)
    ensures executed <= actions
    ensures committed <==> exitAction == "" || exitAction in actions
    ensures exitAction == "" ==> executed == []
    ensures exitAction != "" && committed ==>
      |executed| > 0 && executed[|executed| - 1] == exitAction && exitAction !in executed[..|executed| - 1]
    ensures !committed ==> executed == actions
  {
    var mainAction := "";
    executed := [];
    var i := 0;
    while mainAction != exitAction && i < |actions|
      invariant 0 <= i <= |actions|
      invariant executed == actions[..i]
      invariant mainAction == if i == 0 then "" else actions[i - 1]
      invariant forall k :: 0 <= k < i - 1 ==> actions[k] != exitAction
      invariant exitAction == "" ==> i == 0
    {
      mainAction := actions[i];
      executed := executed + [mainAction];
      i := i + 1;
    }
    committed := mainAction == exitAction;
    if !committed {
      assert actions[..i] == actions;
    } else if exitAction != "" {
      assert executed[..|executed| - 1] == actions[..i - 1];
    }
  }
}
