/** One employee record: the constructor that validates and strips its
    inputs, and the conversions to and from the string mapping that the data
    file holds for each line. */
module Records {
  import opened Text
  import opened Results
  import opened Salary
  import opened Validators

  /** A record as the constructor leaves it: the string fields stripped and
      the salary in whole cents. */
  datatype Employee = Employee(
    id: string, name: string, department: string, salary: nat, email: string, contact: string)

  /** The column names, in the order the data file lists them. */
  const EmployeeKeys: seq<string> := ["Employee ID", "Name", "Department", "Salary", "Email", "Contact Details"]

  /** What every constructed record satisfies: each field passes its validator
      and no string field carries surrounding whitespace. */
  predicate Valid(e: Employee) {
    && IdCheck(e.id).Accepted? && NameCheck(e.name).Accepted? && DepartmentCheck(e.department).Accepted?
    && EmailCheck(e.email).Accepted? && ContactCheck(e.contact).Accepted?
    && Strip(e.name) == e.name && Strip(e.department) == e.department
    && Strip(e.email) == e.email && Strip(e.contact) == e.contact
  }

  /** Some record in `s` has this id. */
  predicate HasId(s: seq<Employee>, id: string) {
    exists k :: 0 <= k < |s| && s[k].id == id
  }

  /** No two records in `s` share an id. */
  predicate DistinctIds(s: seq<Employee>) {
    forall i, j :: 0 <= i < j < |s| ==> s[i].id != s[j].id
  }

  predicate AllValid(s: seq<Employee>) {
    forall i :: 0 <= i < |s| ==> Valid(s[i])
  }

  /** Appending a valid record keeps every record valid. */
  lemma AllValidAppend(s: seq<Employee>, e: Employee)
    requires AllValid(s) && Valid(e)
    ensures AllValid(s + [e])
  {
    forall i | 0 <= i < |s| + 1 ensures Valid((s + [e])[i]) {
      if i < |s| {
        assert (s + [e])[i] == s[i];
      }
    }
  }

  /** Appending a record whose id is new keeps the ids distinct. */
  lemma DistinctIdsAppend(s: seq<Employee>, e: Employee)
    requires DistinctIds(s) && !HasId(s, e.id)
    ensures DistinctIds(s + [e])
  {
    forall i, j | 0 <= i < j < |s| + 1 ensures (s + [e])[i].id != (s + [e])[j].id {
      assert (s + [e])[i] == s[i];
    }
  }

  /** Replacing a record by a valid one keeps every record valid. */
  lemma AllValidReplace(s: seq<Employee>, i: nat, e: Employee)
    requires i < |s| && AllValid(s) && Valid(e)
    ensures AllValid(s[i := e])
  {
    var r := s[i := e];
    forall k | 0 <= k < |r| ensures Valid(r[k]) {
      if k != i {
        assert r[k] == s[k];
      }
    }
  }

  /** Replacing a record by one with the same id keeps the set of ids, and
      keeps them distinct. */
  lemma IdsReplace(s: seq<Employee>, i: nat, e: Employee)
    requires i < |s| && e.id == s[i].id
    ensures DistinctIds(s) ==> DistinctIds(s[i := e])
    ensures forall id :: HasId(s[i := e], id) <==> HasId(s, id)
  {
    forall id ensures HasId(s[i := e], id) <==> HasId(s, id) {
      if HasId(s, id) {
        var k :| 0 <= k < |s| && s[k].id == id;
        assert s[i := e][k].id == id;
      }
      if HasId(s[i := e], id) {
        var k :| 0 <= k < |s| && s[i := e][k].id == id;
        assert s[k].id == id;
      }
    }
  }

  /** The records without the one at `i`, the others in their order. */
  function Without(s: seq<Employee>, i: nat): (r: seq<Employee>)
    requires i < |s|
    ensures |r| == |s| - 1
    ensures forall k :: 0 <= k < |r| ==> r[k] == s[if k < i then k else k + 1]
  {
    s[..i] + s[i + 1..]
  }

  /** Removing a record keeps every other record valid. */
  lemma AllValidRemove(s: seq<Employee>, i: nat)
    requires i < |s| && AllValid(s)
    ensures AllValid(Without(s, i))
  {
    var r := Without(s, i);
    forall k | 0 <= k < |r| ensures Valid(r[k]) {
      assert r[k] == s[if k < i then k else k + 1];
    }
  }

  /** Removing the record at `i` from records with distinct ids removes
      exactly its id. */
  lemma IdsRemove(s: seq<Employee>, i: nat)
    requires i < |s| && DistinctIds(s)
    ensures DistinctIds(Without(s, i))
    ensures forall id :: HasId(Without(s, i), id) <==> HasId(s, id) && id != s[i].id
  {
    var r := Without(s, i);
    forall id ensures HasId(r, id) <==> HasId(s, id) && id != s[i].id {
      if HasId(s, id) && id != s[i].id {
        var k :| 0 <= k < |s| && s[k].id == id;
        assert r[if k < i then k else k - 1].id == id;
      }
    }
  }

  /** Stripping inputs that pass their validators gives a valid record. */
  lemma StrippedFieldsValid(employeeId: string, name: string, department: string, salary: nat, email: string, contact: string)
    requires IdCheck(employeeId).Accepted? && NameCheck(name).Accepted? && DepartmentCheck(department).Accepted?
    requires EmailCheck(email).Accepted? && ContactCheck(contact).Accepted?
    ensures Valid(Employee(Strip(employeeId), Strip(name), Strip(department), salary, Strip(email), Strip(contact)))
  {
    ValidIdIsStripped(employeeId);
    assert IdCheck(Strip(employeeId)).Accepted?;
    NameCheckStripped(name);
    DepartmentCheckStripped(department);
    EmailCheckStripped(email);
    ContactCheckStripped(contact);
    StripIdempotent(name);
    StripIdempotent(department);
    StripIdempotent(email);
    StripIdempotent(contact);
  }

  /** `Employee(...)`: runs the six validators in order and fails with the
      reason of the first that rejects its input; otherwise keeps each string
      field stripped and the salary as read. The salary comes as text, the
      form the validator is given. */
  function NewEmployee(employeeId: string, name: string, department: string, salaryText: string, email: string, contact: string): (r: Result<Employee, Failure>)
    ensures r.Ok? <==> && IdCheck(employeeId).Accepted? && NameCheck(name).Accepted? && DepartmentCheck(department).Accepted?
                       && SalaryCheck(salaryText).Accepted? && EmailCheck(email).Accepted? && ContactCheck(contact).Accepted?
    // the first validator that rejects decides the error
    ensures IdCheck(employeeId).Rejected? ==> r == Err(IdCheck(employeeId).reason)
    ensures IdCheck(employeeId).Accepted? && NameCheck(name).Rejected? ==> r == Err(NameCheck(name).reason)
    ensures (IdCheck(employeeId).Accepted? && NameCheck(name).Accepted? && DepartmentCheck(department).Rejected?)
      ==> r == Err(DepartmentCheck(department).reason)
    ensures (IdCheck(employeeId).Accepted? && NameCheck(name).Accepted? && DepartmentCheck(department).Accepted?
             && SalaryCheck(salaryText).Rejected?)
      ==> r == Err(SalaryCheck(salaryText).reason)
    ensures (IdCheck(employeeId).Accepted? && NameCheck(name).Accepted? && DepartmentCheck(department).Accepted?
             && SalaryCheck(salaryText).Accepted? && EmailCheck(email).Rejected?)
      ==> r == Err(EmailCheck(email).reason)
    ensures (IdCheck(employeeId).Accepted? && NameCheck(name).Accepted? && DepartmentCheck(department).Accepted?
             && SalaryCheck(salaryText).Accepted? && EmailCheck(email).Accepted? && ContactCheck(contact).Rejected?)
      ==> r == Err(ContactCheck(contact).reason)
    ensures r.Ok? ==> Valid(r.value)
    ensures r.Ok? ==> && r.value.id == Strip(employeeId) && r.value.name == Strip(name)
                      && r.value.department == Strip(department) && r.value.email == Strip(email)
                      && r.value.contact == Strip(contact)
                      && ParseAmount(salaryText) == Some(r.value.salary as int)
  {
    if IdCheck(employeeId).Rejected? then Err(IdCheck(employeeId).reason)
    else if NameCheck(name).Rejected? then Err(NameCheck(name).reason)
    else if DepartmentCheck(department).Rejected? then Err(DepartmentCheck(department).reason)
    else if SalaryCheck(salaryText).Rejected? then Err(SalaryCheck(salaryText).reason)
    else if EmailCheck(email).Rejected? then Err(EmailCheck(email).reason)
    else if ContactCheck(contact).Rejected? then Err(ContactCheck(contact).reason)
    else
      var c := ParseAmount(salaryText).value;
      StrippedFieldsValid(employeeId, name, department, c, email, contact);
      Ok(Employee(Strip(employeeId), Strip(name), Strip(department), c, Strip(email), Strip(contact)))
  }

  /** `dict.get(key, default)`. */
  function Get(d: map<string, string>, key: string, default: string): string {
    if key in d then d[key] else default
  }

  /** `to_dict`: one entry per column, the salary written with two decimals. */
  function ToDict(e: Employee): (d: map<string, string>)
    ensures d.Keys == set k | k in EmployeeKeys
    ensures Get(d, "Salary", "0") == FormatAmount(e.salary)
  {
    map["Employee ID" := e.id, "Name" := e.name, "Department" := e.department,
        "Salary" := FormatAmount(e.salary), "Email" := e.email, "Contact Details" := e.contact]
  }

  /** The three ways `from_dict` can end: a record, `None` returned for a
      salary `float` cannot read, or the constructor's error raised again. */
  datatype FromDictOutcome = Created(employee: Employee) | NoneReturned | Raised(reason: Failure)

  /** `from_dict`: missing columns read as empty, a missing salary as "0". */
  function FromDict(d: map<string, string>): (r: FromDictOutcome)
    ensures r.NoneReturned? <==> ParseAmount(Get(d, "Salary", "0")).None?
    ensures r.Created? ==> Valid(r.employee) && ParseAmount(Get(d, "Salary", "0")) == Some(r.employee.salary as int)
    ensures r.Created? ==> r.employee.id == Get(d, "Employee ID", "") && r.employee.name == Strip(Get(d, "Name", ""))
    ensures r.Created? ==> && r.employee.department == Strip(Get(d, "Department", ""))
                           && r.employee.email == Strip(Get(d, "Email", ""))
                           && r.employee.contact == Strip(Get(d, "Contact Details", ""))
    // with a readable salary, the constructor's error is raised again unchanged
    ensures ParseAmount(Get(d, "Salary", "0")).Some? ==>
      && var made := NewEmployee(Get(d, "Employee ID", ""), Get(d, "Name", ""), Get(d, "Department", ""),
                                 FormatAmount(ParseAmount(Get(d, "Salary", "0")).value),
                                 Get(d, "Email", ""), Get(d, "Contact Details", ""));
      && (r.Raised? <==> made.Err?)
      && (r.Raised? ==> r.reason == made.error)
  {
    match ParseAmount(Get(d, "Salary", "0"))
    case None => NoneReturned
    case Some(c) =>
      AmountRoundTrip(c);
      match NewEmployee(Get(d, "Employee ID", ""), Get(d, "Name", ""), Get(d, "Department", ""),
                        FormatAmount(c), Get(d, "Email", ""), Get(d, "Contact Details", ""))
      case Ok(e) =>
        ValidIdIsStripped(Get(d, "Employee ID", ""));
        Created(e)
      case Err(m) => Raised(m)
  }

  /** A negative salary is read, then refused by the constructor, so the
      error is raised rather than `None` returned. */
  lemma {:induction false} NegativeSalaryRaises(d: map<string, string>)
    requires ParseAmount(Get(d, "Salary", "0")).Some? && ParseAmount(Get(d, "Salary", "0")).value < 0
    ensures FromDict(d).Raised?
  {
    var c := ParseAmount(Get(d, "Salary", "0")).value;
    AmountRoundTrip(c);
  }

  /** Each column of `to_dict` holds its field. */
  lemma ToDictColumns(e: Employee)
    ensures Get(ToDict(e), "Employee ID", "") == e.id && Get(ToDict(e), "Name", "") == e.name
    ensures Get(ToDict(e), "Department", "") == e.department && Get(ToDict(e), "Email", "") == e.email
    ensures Get(ToDict(e), "Contact Details", "") == e.contact && Get(ToDict(e), "Salary", "") == FormatAmount(e.salary)
  {
  }

  /** `from_dict(to_dict(e))` gives back `e`, field by field. */
  lemma DictRoundTrip(e: Employee)
    requires Valid(e)
    ensures FromDict(ToDict(e)) == Created(e)
  {
    ToDictColumns(e);
    AmountRoundTrip(e.salary);
    ValidIdIsStripped(e.id);
    var r := NewEmployee(e.id, e.name, e.department, FormatAmount(e.salary), e.email, e.contact);
    assert r.Ok?;
  }
}
