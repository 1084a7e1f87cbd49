/** The record store: the list of records kept in memory, the data file it
    mirrors, and the menu operations on them. Keyboard input arrives as the
    answers given to each prompt, in order; the data file as its lines. */
module Store {
  import opened Text
  import opened Results
  import opened Salary
  import opened Validators
  import opened Records
  import opened Sorting
  import opened Persistence
  import opened Reports

  /** Position of the first record with this id, or -1 when there is none. */
  function IndexOfId(s: seq<Employee>, id: string): (r: int)
    ensures -1 <= r < |s|
    ensures r == -1 <==> !HasId(s, id)
    ensures r >= 0 ==> s[r].id == id && forall k :: 0 <= k < r ==> s[k].id != id
  {
    if s == [] then -1
    else if s[0].id == id then 0
    else
      var r := IndexOfId(s[1..], id);
      assert HasId(s, id) <==> HasId(s[1..], id) by {
        if HasId(s, id) {
          var k :| 0 <= k < |s| && s[k].id == id;
          assert s[1..][k - 1].id == id;
        }
        if HasId(s[1..], id) {
          var k :| 0 <= k < |s[1..]| && s[1..][k].id == id;
          assert s[k + 1].id == id;
        }
      }
      if r == -1 then -1 else r + 1
  }

  /** The first position holding true, if any: where a prompt loop that
      asks until an answer is acceptable stops. */
  function FirstTrue(flags: seq<bool>): (r: Option<nat>)
    ensures r.Some? ==> r.value < |flags| && flags[r.value]
    ensures forall k :: 0 <= k < |flags| && (r.None? || k < r.value) ==> !flags[k]
  {
    if flags == [] then None
    else if flags[0] then Some(0)
    else
      var rest := FirstTrue(flags[1..]);
      assert forall k :: 1 <= k < |flags| ==> flags[k] == flags[1..][k - 1];
      if rest.None? then None else Some(rest.value + 1)
  }

  /** The first position holding true is determined by the positions before
      it holding false. */
  lemma FirstTrueAt(flags: seq<bool>, i: nat)
    requires i < |flags| && flags[i] && forall k :: 0 <= k < i ==> !flags[k]
    ensures FirstTrue(flags) == Some(i)
  {
  }

  /** No position holds true. */
  lemma FirstTrueNone(flags: seq<bool>)
    requires forall k :: 0 <= k < |flags| ==> !flags[k]
    ensures FirstTrue(flags) == None
  {
  }

  /** An id that passes its validator and that no record has yet. */
  predicate FreshId(existing: seq<Employee>, id: string) {
    IdCheck(id).Accepted? && !HasId(existing, id)
  }

  /** For each answer to the id prompt, whether it is taken: stripped, it is a
      valid id that no record has yet. */
  function FreshIdFlags(existing: seq<Employee>, answers: seq<string>): seq<bool> {
    seq(|answers|, k requires 0 <= k < |answers| => FreshId(existing, Strip(answers[k])))
  }

  /** For each answer to a field prompt, whether the field's validator
      accepts it, stripped. */
  function AcceptedFlags(answers: seq<string>, check: string -> Verdict): seq<bool> {
    seq(|answers|, k requires 0 <= k < |answers| => check(Strip(answers[k])).Accepted?)
  }

  /** The answers typed at each prompt of the add dialogue, in order. */
  datatype AddAnswers = AddAnswers(
    ids: seq<string>, names: seq<string>, departments: seq<string>,
    salaries: seq<string>, emails: seq<string>, contacts: seq<string>)

  /** Every prompt of the add dialogue gets an acceptable answer. */
  predicate Answered(existing: seq<Employee>, a: AddAnswers) {
    && FirstTrue(FreshIdFlags(existing, a.ids)).Some? && FirstTrue(AcceptedFlags(a.names, NameCheck)).Some?
    && FirstTrue(AcceptedFlags(a.departments, DepartmentCheck)).Some?
    && FirstTrue(AcceptedFlags(a.salaries, SalaryCheck)).Some?
    && FirstTrue(AcceptedFlags(a.emails, EmailCheck)).Some?
    && FirstTrue(AcceptedFlags(a.contacts, ContactCheck)).Some?
  }

  /** The answer a field prompt takes, stripped. */
  function Taken(answers: seq<string>, check: string -> Verdict): string
    requires FirstTrue(AcceptedFlags(answers, check)).Some?
  {
    Strip(answers[FirstTrue(AcceptedFlags(answers, check)).value])
  }

  /** The answer a field prompt takes passes the field's validator and has
      nothing left to strip. */
  lemma TakenAccepted(answers: seq<string>, check: string -> Verdict)
    requires FirstTrue(AcceptedFlags(answers, check)).Some?
    ensures check(Taken(answers, check)).Accepted?
    ensures Strip(Taken(answers, check)) == Taken(answers, check)
  {
    var i := FirstTrue(AcceptedFlags(answers, check)).value;
    assert AcceptedFlags(answers, check)[i];
    StripIdempotent(answers[i]);
  }

  /** The id the id prompt takes, stripped. */
  function TakenId(existing: seq<Employee>, answers: seq<string>): string
    requires FirstTrue(FreshIdFlags(existing, answers)).Some?
  {
    Strip(answers[FirstTrue(FreshIdFlags(existing, answers)).value])
  }

  /** The id taken is valid and new. */
  lemma TakenIdFresh(existing: seq<Employee>, answers: seq<string>)
    requires FirstTrue(FreshIdFlags(existing, answers)).Some?
    ensures FreshId(existing, TakenId(existing, answers))
    ensures Strip(TakenId(existing, answers)) == TakenId(existing, answers)
  {
    var i := FirstTrue(FreshIdFlags(existing, answers)).value;
    assert FreshIdFlags(existing, answers)[i];
    StripIdempotent(answers[i]);
  }

  /** The record `add_employee` creates: every prompt takes its first
      acceptable answer, stripped; the salary is read as a number and handed
      to the constructor, which validates every field again. None when some
      prompt runs out of answers. */
  function Admission(existing: seq<Employee>, a: AddAnswers): Option<Employee>
  {
    if !Answered(existing, a) then None
    else
      TakenIdFresh(existing, a.ids);
      TakenAccepted(a.salaries, SalaryCheck);
      var amount := ParseAmount(Taken(a.salaries, SalaryCheck)).value;
      AdmissionCreates(existing, a, amount);
      Some(NewEmployee(TakenId(existing, a.ids), Taken(a.names, NameCheck), Taken(a.departments, DepartmentCheck),
                       FormatAmount(amount), Taken(a.emails, EmailCheck), Taken(a.contacts, ContactCheck)).value)
  }

  /** The answers taken pass the constructor's validation, the salary
      written back with two decimals included. */
  lemma AdmissionCreates(existing: seq<Employee>, a: AddAnswers, amount: int)
    requires Answered(existing, a)
    requires ParseAmount(Taken(a.salaries, SalaryCheck)) == Some(amount) && amount >= 0
    ensures NewEmployee(TakenId(existing, a.ids), Taken(a.names, NameCheck), Taken(a.departments, DepartmentCheck),
                        FormatAmount(amount), Taken(a.emails, EmailCheck), Taken(a.contacts, ContactCheck)).Ok?
  {
    TakenIdFresh(existing, a.ids);
    TakenAccepted(a.names, NameCheck);
    TakenAccepted(a.departments, DepartmentCheck);
    TakenAccepted(a.emails, EmailCheck);
    TakenAccepted(a.contacts, ContactCheck);
    AmountRoundTrip(amount);
  }

  /** A record is created exactly when every prompt gets an acceptable
      answer; it is valid, its id is new, and it holds the answers taken. */
  lemma AdmissionValid(existing: seq<Employee>, a: AddAnswers)
    ensures Admission(existing, a).Some? <==> Answered(existing, a)
    ensures Admission(existing, a).Some? ==>
      var e := Admission(existing, a).value;
      && Valid(e) && !HasId(existing, e.id)
      && e.id == TakenId(existing, a.ids) && e.name == Taken(a.names, NameCheck)
      && e.department == Taken(a.departments, DepartmentCheck)
      && ParseAmount(Taken(a.salaries, SalaryCheck)) == Some(e.salary as int)
      && e.email == Taken(a.emails, EmailCheck) && e.contact == Taken(a.contacts, ContactCheck)
  {
    if Answered(existing, a) {
      TakenIdFresh(existing, a.ids);
      TakenAccepted(a.names, NameCheck);
      TakenAccepted(a.departments, DepartmentCheck);
      TakenAccepted(a.salaries, SalaryCheck);
      TakenAccepted(a.emails, EmailCheck);
      TakenAccepted(a.contacts, ContactCheck);
      var c := ParseAmount(Taken(a.salaries, SalaryCheck)).value;
      AmountRoundTrip(c);
    }
  }

  /** Where each prompt stops determines the answers taken. */
  lemma TakenAt(existing: seq<Employee>, a: AddAnswers, i: nat, n: nat, d: nat, s: nat, m: nat, c: nat)
    requires FirstTrue(FreshIdFlags(existing, a.ids)) == Some(i)
    requires FirstTrue(AcceptedFlags(a.names, NameCheck)) == Some(n)
    requires FirstTrue(AcceptedFlags(a.departments, DepartmentCheck)) == Some(d)
    requires FirstTrue(AcceptedFlags(a.salaries, SalaryCheck)) == Some(s)
    requires FirstTrue(AcceptedFlags(a.emails, EmailCheck)) == Some(m)
    requires FirstTrue(AcceptedFlags(a.contacts, ContactCheck)) == Some(c)
    ensures Answered(existing, a)
    ensures TakenId(existing, a.ids) == Strip(a.ids[i]) && Taken(a.names, NameCheck) == Strip(a.names[n])
    ensures Taken(a.departments, DepartmentCheck) == Strip(a.departments[d])
    ensures Taken(a.salaries, SalaryCheck) == Strip(a.salaries[s])
    ensures Taken(a.emails, EmailCheck) == Strip(a.emails[m]) && Taken(a.contacts, ContactCheck) == Strip(a.contacts[c])
  {
  }

  /** The record admitted is the one the constructor makes of the answers
      taken. */
  lemma AdmissionOf(existing: seq<Employee>, a: AddAnswers,
                    id: string, name: string, department: string, salary: string, email: string, contact: string)
    requires Answered(existing, a)
    requires id == TakenId(existing, a.ids) && name == Taken(a.names, NameCheck)
    requires department == Taken(a.departments, DepartmentCheck) && salary == Taken(a.salaries, SalaryCheck)
    requires email == Taken(a.emails, EmailCheck) && contact == Taken(a.contacts, ContactCheck)
    ensures ParseAmount(salary).Some?
    ensures NewEmployee(id, name, department, FormatAmount(ParseAmount(salary).value), email, contact).Ok?
    ensures Admission(existing, a) == Some(NewEmployee(id, name, department, FormatAmount(ParseAmount(salary).value), email, contact).value)
  {
    TakenAccepted(a.salaries, SalaryCheck);
    AdmissionCreates(existing, a, ParseAmount(salary).value);
  }

  /** A non-blank answer, stripped, that its field's validator refuses. */
  predicate Refused(t: string, check: string -> Verdict) {
    t != [] && check(t).Rejected?
  }

  /** The answers typed at the update prompts; a blank answer keeps the
      current value. */
  datatype UpdateAnswers = UpdateAnswers(name: string, department: string, salary: string, email: string, contact: string)

  /** What the update dialogue does with a record: stop at the first
      refused answer, note that nothing was entered, or change the record. */
  datatype UpdatePlan = Abort(reason: Failure) | NoChange | Change(employee: Employee)

  /** A string field after the update: the stripped answer, or the current
      value when the answer is blank. */
  function Revised(t: string, current: string): (r: string)
    ensures r == current || (t != [] && r == t)
  {
    if t != [] then t else current
  }

  /** The salary after the update: the amount read from an accepted answer,
      or the current salary when the answer is blank. */
  function RevisedSalary(t: string, current: nat): (r: nat)
    requires t == [] || SalaryCheck(t).Accepted?
    ensures t != [] ==> ParseAmount(t) == Some(r as int)
    ensures t == [] ==> r == current
  {
    if t != [] then ParseAmount(t).value as nat else current
  }

  /** The answers of `update_employee`, stripped and validated one after the
      other. */
  function PlanUpdate(e: Employee, a: UpdateAnswers): (r: UpdatePlan)
    ensures r.Change? ==> r.employee.id == e.id
  {
    var name, department, salary := Strip(a.name), Strip(a.department), Strip(a.salary);
    var email, contact := Strip(a.email), Strip(a.contact);
    if Refused(name, NameCheck) then Abort(NameCheck(name).reason)
    else if Refused(department, DepartmentCheck) then Abort(DepartmentCheck(department).reason)
    else if Refused(salary, SalaryCheck) then Abort(SalaryCheck(salary).reason)
    else if Refused(email, EmailCheck) then Abort(EmailCheck(email).reason)
    // a non-blank contact always passes its validator
    else if name == [] && department == [] && salary == [] && email == [] && contact == [] then NoChange
    else Change(Revise(e, name, department, salary, email, contact))
  }

  /** The record with every non-blank answer in place of its field. */
  function Revise(e: Employee, name: string, department: string, salary: string, email: string, contact: string): (u: Employee)
    requires salary == [] || SalaryCheck(salary).Accepted?
    ensures u.id == e.id
  {
    Employee(e.id, Revised(name, e.name), Revised(department, e.department), RevisedSalary(salary, e.salary),
             Revised(email, e.email), Revised(contact, e.contact))
  }

  /** The update stops exactly when some non-blank answer is refused, and
      changes nothing exactly when every answer is blank. */
  lemma PlanUpdateOutcome(e: Employee, a: UpdateAnswers)
    ensures PlanUpdate(e, a).Abort? <==> || Refused(Strip(a.name), NameCheck) || Refused(Strip(a.department), DepartmentCheck)
                                         || Refused(Strip(a.salary), SalaryCheck) || Refused(Strip(a.email), EmailCheck)
    ensures PlanUpdate(e, a).NoChange? <==> && Strip(a.name) == [] && Strip(a.department) == [] && Strip(a.salary) == []
                                            && Strip(a.email) == [] && Strip(a.contact) == []
  {
  }

  /** The first refused answer is the reason the update stops. */
  lemma PlanUpdateReason(e: Employee, a: UpdateAnswers)
    ensures Refused(Strip(a.name), NameCheck) ==> PlanUpdate(e, a) == Abort(NameCheck(Strip(a.name)).reason)
    ensures !Refused(Strip(a.name), NameCheck) && Refused(Strip(a.department), DepartmentCheck)
      ==> PlanUpdate(e, a) == Abort(DepartmentCheck(Strip(a.department)).reason)
    ensures (!Refused(Strip(a.name), NameCheck) && !Refused(Strip(a.department), DepartmentCheck)
             && Refused(Strip(a.salary), SalaryCheck))
      ==> PlanUpdate(e, a) == Abort(SalaryCheck(Strip(a.salary)).reason)
    ensures (!Refused(Strip(a.name), NameCheck) && !Refused(Strip(a.department), DepartmentCheck)
             && !Refused(Strip(a.salary), SalaryCheck) && Refused(Strip(a.email), EmailCheck))
      ==> PlanUpdate(e, a) == Abort(EmailCheck(Strip(a.email)).reason)
  {
  }

  /** A changed record takes each non-blank answer, stripped, and keeps the
      current value where the answer is blank. */
  lemma PlanUpdateFields(e: Employee, a: UpdateAnswers)
    requires PlanUpdate(e, a).Change?
    ensures var u := PlanUpdate(e, a).employee;
      && (if Strip(a.name) == [] then u.name == e.name else u.name == Strip(a.name))
      && (if Strip(a.department) == [] then u.department == e.department else u.department == Strip(a.department))
      && (if Strip(a.salary) == [] then u.salary == e.salary else ParseAmount(a.salary) == Some(u.salary as int))
      && (if Strip(a.email) == [] then u.email == e.email else u.email == Strip(a.email))
      && (if Strip(a.contact) == [] then u.contact == e.contact else u.contact == Strip(a.contact))
  {
    StripIdempotent(a.salary);
  }

  /** A revised field is valid when the current value is and the answer is
      not refused. */
  lemma RevisedValid(t: string, current: string, check: string -> Verdict)
    requires !Refused(t, check) && t == Strip(t)
    requires check(current).Accepted? && Strip(current) == current
    ensures check(Revised(t, current)).Accepted? && Strip(Revised(t, current)) == Revised(t, current)
  {
  }

  /** An update leaves a valid record valid. */
  lemma PlanUpdateValid(e: Employee, a: UpdateAnswers)
    requires Valid(e) && PlanUpdate(e, a).Change?
    ensures Valid(PlanUpdate(e, a).employee)
  {
    StripIdempotent(a.name);
    StripIdempotent(a.department);
    StripIdempotent(a.email);
    StripIdempotent(a.contact);
    RevisedValid(Strip(a.name), e.name, NameCheck);
    RevisedValid(Strip(a.department), e.department, DepartmentCheck);
    RevisedValid(Strip(a.email), e.email, EmailCheck);
    RevisedValid(Strip(a.contact), e.contact, ContactCheck);
  }

  /** `answer.lower().strip() in ['yes', 'y']`. */
  predicate Confirmed(answer: string) {
    var c := Strip(Lower(answer));
    c == "yes" || c == "y"
  }

  /** The sort key of the full listing. */
  function IdOf(e: Employee): string {
    e.id
  }

  /** Some record's department is not empty and equals `name` once both are
      lower-cased. */
  predicate SameDepartment(s: seq<Employee>, name: string) {
    exists k :: 0 <= k < |s| && s[k].department != [] && Lower(s[k].department) == Lower(name)
  }

  /** What `list_all_employees` shows: the records by id, and their number. */
  datatype Listing = NoRecordsFound | Listing(rows: seq<Employee>, total: nat)

  /** How `update_employee` ends. */
  datatype UpdateOutcome =
    | NothingToUpdate
    | InvalidId(reason: Failure)
    | NotFound
    | Aborted(reason: Failure)
    | NoChanges
    | Cancelled
    | Updated(employee: Employee)

  /** How `delete_employee` ends. */
  datatype DeleteOutcome =
    | NothingToDelete
    | InvalidId(reason: Failure)
    | NotFound
    | Cancelled
    | Deleted(employee: Employee)

  /** How `add_employee` ends: with the record added, or with the input
      running out before every prompt got an acceptable answer. */
  datatype AddOutcome = Added(employee: Employee) | InputEnded

  /** The first loop of `generate_department_report`: each record joins
      the group of its department key, a new key opening a group under the
      record's display name. */
  method GroupByDepartment(employees: seq<Employee>) returns (g: Grouping)
    ensures g == GroupAll(employees, GroupKey, DisplayName)
  {
    var groups: map<string, Group> := map[];
    var order: seq<string> := [];
    for i := 0 to |employees|
      invariant Grouping(groups, order) == GroupAll(employees[..i], GroupKey, DisplayName)
    {
      var e := employees[i];
      var key := GroupKey(e);
      var display := DisplayName(e);
      GroupAllStep(employees, i, GroupKey, DisplayName);
      AddToGroupInTwoSteps(Grouping(groups, order), e, GroupKey, DisplayName);
      if key !in groups {
        groups := groups[key := Group(display, [])];
        order := order + [key];
      }
      groups := groups[key := groups[key].(members := groups[key].members + [e])];
    }
    assert employees[..|employees|] == employees;
    g := Grouping(groups, order);
  }

  /** The second loop of `generate_department_report`: the groups in order
      of display name, each with its records by name, and the running total. */
  method Tabulate(g: Grouping) returns (sections: seq<Section>, total: nat)
    requires WellKeyed(g)
    ensures sections == Sections(g, SortedKeys(g)) && total == SectionTotal(sections)
  {
    var sortedKeys := SortedKeys(g);
    sections := [];
    total := 0;
    for j := 0 to |sortedKeys|
      invariant sections == Sections(g, sortedKeys[..j])
      invariant total == SectionTotal(sections)
    {
      var key := sortedKeys[j];
      assert key in multiset(sortedKeys);
      assert key in g.order;
      var info := g.groups[key];
      var members := SortBy(info.members, NameOf);
      SectionsStep(g, sortedKeys, j);
      SectionTotalStep(sections, Section(info.display, members));
      sections := sections + [Section(info.display, members)];
      total := total + |info.members|;
    }
    assert sortedKeys[..|sortedKeys|] == sortedKeys;
  }

  class EmployeeManagementSystem {
    /** `_employees_list`. */
    var employees: seq<Employee>
    /** The data file's contents, as last read or written. */
    var disk: DataFile
    /** The warnings printed while the data file was read. */
    var loadNotes: seq<Note>
    const delimiter: char
    const keys: seq<string>

    /** Every record is valid and no two share an id. */
    ghost predicate Valid()
      reads this
    {
      AllValid(employees) && DistinctIds(employees)
    }

    /** `__init__`: reads the data file. */
    constructor(file: DataFile, delimiter: char, keys: seq<string>)
      ensures this.delimiter == delimiter && this.keys == keys && disk == file
      ensures LoadResult(employees, loadNotes) == Loaded(file, keys, delimiter)
      ensures Valid()
    {
      this.delimiter := delimiter;
      this.keys := keys;
      disk := file;
      var records, notes := LoadEmployees(file, keys, delimiter);
      employees := records;
      loadNotes := notes;
      LoadedValid(file, keys, delimiter);
    }

    /** `_save_employees`: writes the header and one line per record, each
        ended by `\n`. */
    method SaveEmployees()
      modifies this`disk
      ensures disk == Saved(employees, keys, delimiter)
    {
      var header := Join(keys, delimiter);
      var text := header + "\n";
      ghost var lines := [header];
      assert FileText(lines) == text by {
        assert lines[1..] == [];
      }
      for i := 0 to |employees|
        invariant lines == Rendered(employees[..i], keys, delimiter) && text == FileText(lines)
      {
        RenderedStep(employees, i, keys, delimiter);
        var values := RenderValues(employees[i], keys);
        var line := Join(values, delimiter);
        FileTextAppend(lines, line);
        text := text + line + "\n";
        lines := lines + [line];
      }
      assert employees[..|employees|] == employees;
      disk := Present(text);
    }

    /** `_find_employee_index_by_id`. */
    method FindEmployeeIndexById(id: string) returns (index: int)
      ensures index == IndexOfId(employees, id)
    {
      for i := 0 to |employees|
        invariant forall k :: 0 <= k < i ==> employees[k].id != id
      {
        if employees[i].id == id {
          return i;
        }
      }
      return -1;
    }

    /** `_find_employee_by_id`: the first record with the id, if any. */
    method FindEmployeeById(id: string) returns (found: Option<Employee>)
      ensures found.Some? <==> HasId(employees, id)
      ensures found.Some? ==> found.value == employees[IndexOfId(employees, id)]
    {
      for i := 0 to |employees|
        invariant forall k :: 0 <= k < i ==> employees[k].id != id
      {
        if employees[i].id == id {
          return Some(employees[i]);
        }
      }
      return None;
    }

    /** `_is_employee_id_unique`. */
    method IsEmployeeIdUnique(id: string) returns (unique: bool)
      ensures unique <==> !HasId(employees, id)
    {
      var found := FindEmployeeById(id);
      unique := found.None?;
    }

    /** `_does_department_exist`: compares case-insensitively, without
        stripping; an empty name never exists. */
    method DoesDepartmentExist(departmentName: string) returns (found: bool)
      ensures found <==> departmentName != [] && SameDepartment(employees, departmentName)
    {
      if departmentName == [] {
        return false;
      }
      var wanted := Lower(departmentName);
      for i := 0 to |employees|
        invariant forall k :: 0 <= k < i ==> !(employees[k].department != [] && Lower(employees[k].department) == wanted)
      {
        if employees[i].department != [] && Lower(employees[i].department) == wanted {
          return true;
        }
      }
      return false;
    }

    /** The id prompt: asks until an answer is a valid id not yet taken. */
    method PromptId(answers: seq<string>) returns (taken: Option<nat>)
      ensures taken == FirstTrue(FreshIdFlags(employees, answers))
    {
      ghost var flags := FreshIdFlags(employees, answers);
      for i := 0 to |answers|
        invariant forall k :: 0 <= k < i ==> !flags[k]
      {
        var id := Strip(answers[i]);
        if IdCheck(id).Rejected? {
          continue;
        }
        var unique := IsEmployeeIdUnique(id);
        if !unique {
          continue;
        }
        FirstTrueAt(flags, i);
        return Some(i);
      }
      FirstTrueNone(flags);
      return None;
    }

    /** A field prompt: asks until its validator accepts an answer. */
    static method Prompt(answers: seq<string>, check: string -> Verdict) returns (taken: Option<nat>)
      ensures taken == FirstTrue(AcceptedFlags(answers, check))
    {
      ghost var flags := AcceptedFlags(answers, check);
      for i := 0 to |answers|
        invariant forall k :: 0 <= k < i ==> !flags[k]
      {
        if check(Strip(answers[i])).Accepted? {
          FirstTrueAt(flags, i);
          return Some(i);
        }
      }
      FirstTrueNone(flags);
      return None;
    }

    /** `add_employee`: prompts for each field in turn, creates the record,
        appends it and saves the file. */
    method AddEmployee(a: AddAnswers) returns (outcome: AddOutcome)
      requires Valid()
      modifies this`employees, this`disk
      ensures Valid()
      ensures outcome.Added? <==> Admission(old(employees), a).Some?
      ensures outcome.Added? ==> && outcome.employee == Admission(old(employees), a).value
                                 && employees == old(employees) + [outcome.employee]
                                 && disk == Saved(employees, keys, delimiter)
      ensures outcome.InputEnded? ==> employees == old(employees) && disk == old(disk)
    {
      var i := PromptId(a.ids);
      var n := Prompt(a.names, NameCheck);
      var d := Prompt(a.departments, DepartmentCheck);
      var s := Prompt(a.salaries, SalaryCheck);
      var m := Prompt(a.emails, EmailCheck);
      var c := Prompt(a.contacts, ContactCheck);
      // the prompts run in this order, and input that ends at one of them
      // ends the dialogue there
      if i.None? || n.None? || d.None? || s.None? || m.None? || c.None? {
        AdmissionValid(employees, a);
        return InputEnded;
      }
      var id, name, department := Strip(a.ids[i.value]), Strip(a.names[n.value]), Strip(a.departments[d.value]);
      var salaryText, email, contact := Strip(a.salaries[s.value]), Strip(a.emails[m.value]), Strip(a.contacts[c.value]);
      TakenAt(employees, a, i.value, n.value, d.value, s.value, m.value, c.value);
      AdmissionOf(employees, a, id, name, department, salaryText, email, contact);
      var salary := ParseAmount(salaryText).value;
      var created := NewEmployee(id, name, department, FormatAmount(salary), email, contact);
      var e := created.value;
      AdmissionValid(employees, a);
      Append(e);
      outcome := Added(e);
    }

    /** Appends a record and saves the file. */
    method Append(e: Employee)
      requires Valid() && Records.Valid(e) && !HasId(employees, e.id)
      modifies this`employees, this`disk
      ensures Valid()
      ensures employees == old(employees) + [e] && disk == Saved(employees, keys, delimiter)
    {
      AllValidAppend(employees, e);
      DistinctIdsAppend(employees, e);
      employees := employees + [e];
      SaveEmployees();
    }

    /** `update_employee`. */
    method UpdateEmployee(idText: string, a: UpdateAnswers, confirmation: string) returns (outcome: UpdateOutcome)
      requires Valid()
      modifies this`employees, this`disk
      ensures Valid()
      ensures outcome.NothingToUpdate? <==> old(employees) == []
      ensures outcome.InvalidId? <==> old(employees) != [] && IdCheck(Strip(idText)).Rejected?
      ensures outcome.InvalidId? ==> outcome.reason == IdCheck(Strip(idText)).reason
      ensures outcome.NotFound? <==> old(employees) != [] && IdCheck(Strip(idText)).Accepted? && !HasId(old(employees), Strip(idText))
      ensures outcome.Aborted? || outcome.NoChanges? || outcome.Cancelled? || outcome.Updated? ==>
        && HasId(old(employees), Strip(idText))
        && var plan := PlanUpdate(old(employees)[IndexOfId(old(employees), Strip(idText))], a);
        && (outcome.Aborted? <==> plan.Abort?) && (outcome.Aborted? ==> outcome.reason == plan.reason)
        && (outcome.NoChanges? <==> plan.NoChange?)
        && (outcome.Cancelled? <==> plan.Change? && !Confirmed(confirmation))
        && (outcome.Updated? <==> plan.Change? && Confirmed(confirmation))
        && (outcome.Updated? ==> outcome.employee == plan.employee)
      ensures outcome.Updated? ==>
        && employees == old(employees)[IndexOfId(old(employees), Strip(idText)) := outcome.employee]
        && disk == Saved(employees, keys, delimiter)
      ensures !outcome.Updated? ==> employees == old(employees) && disk == old(disk)
    {
      if employees == [] {
        return NothingToUpdate;
      }
      var id := Strip(idText);
      if IdCheck(id).Rejected? {
        return UpdateOutcome.InvalidId(IdCheck(id).reason);
      }
      var index := FindEmployeeIndexById(id);
      if index == -1 {
        return UpdateOutcome.NotFound;
      }
      var current := employees[index];
      var plan := PlanUpdate(current, a);
      if plan.Abort? {
        outcome := Aborted(plan.reason);
      } else if plan.NoChange? {
        outcome := NoChanges;
      } else if Confirmed(confirmation) {
        PlanUpdateValid(current, a);
        Replace(index, plan.employee);
        outcome := Updated(plan.employee);
      } else {
        outcome := UpdateOutcome.Cancelled;
      }
    }

    /** Puts a record with the same id in place of the one at `index` and
        saves the file. */
    method Replace(index: nat, u: Employee)
      requires Valid() && index < |employees| && Records.Valid(u) && u.id == employees[index].id
      modifies this`employees, this`disk
      ensures Valid()
      ensures employees == old(employees)[index := u] && disk == Saved(employees, keys, delimiter)
    {
      AllValidReplace(employees, index, u);
      IdsReplace(employees, index, u);
      employees := employees[index := u];
      SaveEmployees();
    }

    /** `delete_employee`. */
    method DeleteEmployee(idText: string, confirmation: string) returns (outcome: DeleteOutcome)
      requires Valid()
      modifies this`employees, this`disk
      ensures Valid()
      ensures outcome.NothingToDelete? <==> old(employees) == []
      ensures outcome.InvalidId? <==> old(employees) != [] && IdCheck(Strip(idText)).Rejected?
      ensures outcome.InvalidId? ==> outcome.reason == IdCheck(Strip(idText)).reason
      ensures outcome.NotFound? <==> old(employees) != [] && IdCheck(Strip(idText)).Accepted? && !HasId(old(employees), Strip(idText))
      ensures outcome.Deleted? <==> old(employees) != [] && IdCheck(Strip(idText)).Accepted? && HasId(old(employees), Strip(idText))
                                    && Confirmed(confirmation)
      ensures outcome.Deleted? ==>
        && var i := IndexOfId(old(employees), Strip(idText));
        && outcome.employee == old(employees)[i]
        && employees == Without(old(employees), i)
        && !HasId(employees, Strip(idText))
        && disk == Saved(employees, keys, delimiter)
      ensures !outcome.Deleted? ==> employees == old(employees) && disk == old(disk)
    {
      if employees == [] {
        return NothingToDelete;
      }
      var id := Strip(idText);
      if IdCheck(id).Rejected? {
        return DeleteOutcome.InvalidId(IdCheck(id).reason);
      }
      var index := FindEmployeeIndexById(id);
      if index == -1 {
        return DeleteOutcome.NotFound;
      }
      var doomed := employees[index];
      if Confirmed(confirmation) {
        Remove(index);
        outcome := Deleted(doomed);
      } else {
        outcome := DeleteOutcome.Cancelled;
      }
    }

    /** Removes the record at `index` and saves the file. */
    method Remove(index: nat)
      requires Valid() && index < |employees|
      modifies this`employees, this`disk
      ensures Valid()
      ensures employees == Without(old(employees), index)
      ensures forall id :: HasId(employees, id) <==> HasId(old(employees), id) && id != old(employees)[index].id
      ensures disk == Saved(employees, keys, delimiter)
    {
      AllValidRemove(employees, index);
      IdsRemove(employees, index);
      employees := employees[..index] + employees[index + 1..];
      SaveEmployees();
    }

    /** `list_all_employees`: the records sorted by id, and how many. */
    method ListAllEmployees() returns (listing: Listing)
      ensures employees == [] <==> listing.NoRecordsFound?
      ensures listing.Listing? ==> && listing.rows == SortBy(employees, IdOf)
                                   && SortedBy(listing.rows, IdOf)
                                   && multiset(listing.rows) == multiset(employees)
                                   && listing.total == |employees|
    {
      if employees == [] {
        return NoRecordsFound;
      }
      var sorted := SortBy(employees, IdOf);
      listing := Listing(sorted, |employees|);
    }

    /** `generate_department_report`: groups the records by department key,
        then goes through the groups in order of display name, counting. */
    method GenerateDepartmentReport() returns (report: Report)
      ensures report == DepartmentReport(employees)
      ensures employees != [] ==> report.Report? && report.total == |employees| && report.departments == |report.sections|
    {
      if employees == [] {
        return NoRecords;
      }
      var g := GroupByDepartment(employees);
      GroupAllWellKeyed(employees, GroupKey, DisplayName);
      var sections, total := Tabulate(g);
      report := Report(sections, |g.groups|, total);
      ReportCounts(employees, GroupKey, DisplayName);
    }
  }
}
