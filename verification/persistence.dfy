/** The delimited data file: reading it into records, line by line, and
    writing records back as a header and one line each. */
module Persistence {
  import opened Text
  import opened Results
  import opened Salary
  import opened Validators
  import opened Records

  /** The data file: missing, or present with this text. */
  datatype DataFile = Absent | Present(text: string)

  /** The lines reading the file gives, none when it is missing. */
  function FileLines(file: DataFile): (r: seq<string>)
    ensures forall i :: 0 <= i < |r| ==> Unbroken(r[i])
  {
    match file
    case Absent => []
    case Present(text) => Lines(text)
  }

  /** Why a line that is not blank gives no record. */
  datatype Skip =
    | Malformed(got: nat)         // the number of values is not the number of columns
    | SalaryUnreadable            // `from_dict` returned `None`
    | InvalidField(reason: Failure) // `from_dict` raised the constructor's error
    | DuplicateId(id: string)     // an earlier line already gave a record with this id

  /** The warning printed for a skipped line, with its line number in the file. */
  datatype Note = Note(line: nat, skip: Skip)

  datatype LoadResult = LoadResult(records: seq<Employee>, notes: seq<Note>)

  /** `dict(zip(keys, values))`: a later key overwrites an earlier equal one. */
  function ZipMap(keys: seq<string>, values: seq<string>): (m: map<string, string>)
    requires |keys| == |values|
    ensures m.Keys == set k | k in keys
  {
    if keys == [] then map[]
    else ZipMap(keys[..|keys| - 1], values[..|values| - 1])[keys[|keys| - 1] := values[|values| - 1]]
  }

  /** With distinct keys, each key maps to the value at its own position. */
  lemma {:induction false} ZipMapAt(keys: seq<string>, values: seq<string>, i: nat)
    requires |keys| == |values| && i < |keys|
    requires forall a, b :: 0 <= a < b < |keys| ==> keys[a] != keys[b]
    ensures ZipMap(keys, values)[keys[i]] == values[i]
  {
    if i < |keys| - 1 {
      ZipMapAt(keys[..|keys| - 1], values[..|values| - 1], i);
    }
  }

  /** What one line (after the header) comes to, before the duplicate check. */
  datatype LineOutcome = Blank | Skipped(skip: Skip) | Parsed(employee: Employee)

  /** The steps `_load_employees` takes with one line: strip it, ignore it if
      blank, split it, check the number of values, and build a record from
      the columns. */
  function ClassifyLine(line: string, keys: seq<string>, d: char): (r: LineOutcome)
    ensures r.Blank? <==> Strip(line) == []
    ensures r.Parsed? ==> Valid(r.employee)
    ensures r.Skipped? && r.skip.Malformed? ==> r.skip.got != |keys|
    ensures !r.Skipped? || !r.skip.DuplicateId?
    // a non-blank line with the wrong number of values is malformed
    ensures Strip(line) != [] && |Split(Strip(line), d)| != |keys| ==> r == Skipped(Malformed(|Split(Strip(line), d)|))
    // a record comes from the line's own columns
    ensures r.Parsed? ==> && |Split(Strip(line), d)| == |keys|
                          && FromDict(ZipMap(keys, Split(Strip(line), d))) == Created(r.employee)
    // a line of the right arity is skipped as unreadable exactly when its salary cannot be read,
    // and for a field the constructor refuses otherwise
    ensures Strip(line) != [] && |Split(Strip(line), d)| == |keys| ==>
      && (r == Skipped(SalaryUnreadable) <==> ParseAmount(Get(ZipMap(keys, Split(Strip(line), d)), "Salary", "0")).None?)
      && (r.Skipped? && r.skip.InvalidField? <==> FromDict(ZipMap(keys, Split(Strip(line), d))).Raised?)
      && (r.Skipped? && r.skip.InvalidField? ==> FromDict(ZipMap(keys, Split(Strip(line), d))) == Raised(r.skip.reason))
  {
    var t := Strip(line);
    if t == [] then Blank
    else
      var values := Split(t, d);
      if |values| != |keys| then Skipped(Malformed(|values|))
      else
        match FromDict(ZipMap(keys, values))
        case Created(e) => Parsed(e)
        case NoneReturned => Skipped(SalaryUnreadable)
        case Raised(f) => Skipped(InvalidField(f))
  }

  /** Each line after the header, taken on its own. */
  function Outcomes(rows: seq<string>, keys: seq<string>, d: char): (r: seq<LineOutcome>)
    ensures |r| == |rows|
    ensures forall i :: 0 <= i < |rows| ==> r[i] == ClassifyLine(rows[i], keys, d)
  {
    seq(|rows|, i requires 0 <= i < |rows| => ClassifyLine(rows[i], keys, d))
  }

  /** The records the lines would give if no id were repeated, in file order. */
  function Candidates(outcomes: seq<LineOutcome>): seq<Employee>
  {
    if outcomes == [] then []
    else
      var prev := Candidates(outcomes[..|outcomes| - 1]);
      match outcomes[|outcomes| - 1]
      case Parsed(e) => prev + [e]
      case _ => prev
  }

  /** Every candidate is the record of some parsed line. */
  lemma {:induction false} CandidateParsed(outcomes: seq<LineOutcome>, c: Employee)
    requires c in Candidates(outcomes)
    ensures exists j :: 0 <= j < |outcomes| && outcomes[j] == Parsed(c)
  {
    var p := outcomes[..|outcomes| - 1];
    var last := outcomes[|outcomes| - 1];
    if c in Candidates(p) {
      CandidateParsed(p, c);
      var j :| 0 <= j < |p| && p[j] == Parsed(c);
      assert outcomes[j] == Parsed(c);
    } else {
      assert last == Parsed(c);
    }
  }

  /** No earlier element of `s` has the id of `s[j]`. */
  predicate IsFirst(s: seq<Employee>, j: nat)
    requires j < |s|
  {
    forall k :: 0 <= k < j ==> s[k].id != s[j].id
  }

  /** The elements of `s` that are the first with their id, in order. */
  function FirstOnly(s: seq<Employee>): (r: seq<Employee>)
    ensures |r| <= |s|
  {
    if s == [] then []
    else if IsFirst(s, |s| - 1) then FirstOnly(s[..|s| - 1]) + [s[|s| - 1]]
    else FirstOnly(s[..|s| - 1])
  }

  /** Keeping first occurrences keeps every id and only ids of `s`, and
      only elements of `s`. */
  lemma {:induction false} FirstOnlyIds(s: seq<Employee>)
    ensures forall id :: HasId(FirstOnly(s), id) <==> HasId(s, id)
    ensures forall x :: x in FirstOnly(s) ==> x in s
  {
    if s != [] {
      var p, e := s[..|s| - 1], s[|s| - 1];
      assert s == p + [e];
      FirstOnlyIds(p);
      HasIdAppend(p, e);
      if IsFirst(s, |s| - 1) {
        HasIdAppend(FirstOnly(p), e);
      } else {
        var k :| 0 <= k < |s| - 1 && s[k].id == e.id;
        assert p[k].id == e.id;
      }
    }
  }

  /** Appending a record adds exactly its id. */
  lemma HasIdAppend(s: seq<Employee>, e: Employee)
    ensures forall id :: HasId(s + [e], id) <==> HasId(s, id) || id == e.id
  {
    forall id ensures HasId(s + [e], id) <==> HasId(s, id) || id == e.id {
      if HasId(s, id) {
        var k :| 0 <= k < |s| && s[k].id == id;
        assert (s + [e])[k] == s[k];
      }
      if id == e.id {
        assert (s + [e])[|s|] == e;
      }
      if HasId(s + [e], id) && id != e.id {
        var k :| 0 <= k < |s + [e]| && (s + [e])[k].id == id;
        assert s[k].id == id;
      }
    }
  }

  /** The loop of `_load_employees` over the lines after the header; the
      outcome at index `i` is that of line `i + 2` of the file. A record whose
      id an earlier record already has is skipped with a warning. */
  function LoadFrom(outcomes: seq<LineOutcome>): (r: LoadResult)
    ensures DistinctIds(r.records)
  {
    if outcomes == [] then LoadResult([], [])
    else
      var p := outcomes[..|outcomes| - 1];
      var prev := LoadFrom(p);
      var line := |outcomes| + 1;
      match outcomes[|outcomes| - 1]
      case Blank => prev
      case Skipped(s) => LoadResult(prev.records, prev.notes + [Note(line, s)])
      case Parsed(e) =>
        if HasId(prev.records, e.id) then
          LoadResult(prev.records, prev.notes + [Note(line, DuplicateId(e.id))])
        else
          assert forall k :: 0 <= k < |prev.records| ==> prev.records[k].id != e.id;
          LoadResult(prev.records + [e], prev.notes)
  }

  /** `_load_employees`: no file gives no records; otherwise the first line is
      the header, read and ignored. */
  function Loaded(file: DataFile, keys: seq<string>, d: char): LoadResult
  {
    var lines := FileLines(file);
    if lines == [] then LoadResult([], []) else LoadFrom(Outcomes(lines[1..], keys, d))
  }

  /** Every record loaded is the record of some line after the header. */
  lemma LoadedFromLine(file: DataFile, keys: seq<string>, d: char, x: Employee)
    requires x in Loaded(file, keys, d).records
    ensures exists j :: 1 <= j < |FileLines(file)| && ClassifyLine(FileLines(file)[j], keys, d) == Parsed(x)
  {
    var lines := FileLines(file);
    var rows := lines[1..];
    var outcomes := Outcomes(rows, keys, d);
    LoadKeepsFirstOccurrences(outcomes);
    FirstOnlyIds(Candidates(outcomes));
    CandidateParsed(outcomes, x);
    var j :| 0 <= j < |outcomes| && outcomes[j] == Parsed(x);
    assert lines[j + 1] == rows[j];
  }

  /** Every record loaded passes validation: it is the record of a line that
      `from_dict` accepted. */
  lemma LoadedValid(file: DataFile, keys: seq<string>, d: char)
    ensures AllValid(Loaded(file, keys, d).records)
  {
    var r := Loaded(file, keys, d);
    forall i | 0 <= i < |r.records| ensures Valid(r.records[i]) {
      LoadedFromLine(file, keys, d, r.records[i]);
    }
  }

  /** Warnings carry the line numbers of their lines, from 2 on, in file
      order. */
  lemma {:induction false} NoteLines(outcomes: seq<LineOutcome>)
    ensures forall k :: 0 <= k < |LoadFrom(outcomes).notes| ==> 2 <= LoadFrom(outcomes).notes[k].line <= |outcomes| + 1
    ensures forall k, m :: 0 <= k < m < |LoadFrom(outcomes).notes| ==> LoadFrom(outcomes).notes[k].line < LoadFrom(outcomes).notes[m].line
  {
    if outcomes != [] {
      NoteLines(outcomes[..|outcomes| - 1]);
    }
  }

  /** The loader keeps, of the records the lines give, exactly the first one
      with each id, in file order. */
  lemma {:induction false} LoadKeepsFirstOccurrences(outcomes: seq<LineOutcome>)
    ensures LoadFrom(outcomes).records == FirstOnly(Candidates(outcomes))
  {
    if outcomes != [] {
      var p := outcomes[..|outcomes| - 1];
      LoadKeepsFirstOccurrences(p);
      var c := Candidates(p);
      FirstOnlyIds(c);
      match outcomes[|outcomes| - 1]
      case Blank =>
      case Skipped(_) =>
      case Parsed(e) =>
        var cs := c + [e];
        assert cs[..|cs| - 1] == c;
        assert IsFirst(cs, |cs| - 1) <==> !HasId(c, e.id) by {
          if !IsFirst(cs, |cs| - 1) {
            var k :| 0 <= k < |cs| - 1 && cs[k].id == cs[|cs| - 1].id;
            assert c[k].id == e.id;
          }
          if HasId(c, e.id) {
            var k :| 0 <= k < |c| && c[k].id == e.id;
            assert cs[k].id == e.id;
          }
        }
    }
  }

  /** The candidates of two runs of lines, one after the other. */
  lemma {:induction false} CandidatesAppend(a: seq<LineOutcome>, b: seq<LineOutcome>)
    ensures Candidates(a + b) == Candidates(a) + Candidates(b)
  {
    if b == [] {
      assert a + b == a;
    } else {
      var b' := b[..|b| - 1];
      CandidatesAppend(a, b');
      assert (a + b)[..|a + b| - 1] == a + b';
      assert (a + b)[|a + b| - 1] == b[|b| - 1];
    }
  }

  /** A line that gives no record (blank, malformed, unreadable salary,
      invalid field) has no effect on the records loaded: taking it out of the
      file leaves them as they are. */
  lemma SkippedLineContributesNothing(outcomes: seq<LineOutcome>, j: nat)
    requires j < |outcomes| && !outcomes[j].Parsed?
    ensures LoadFrom(outcomes[..j] + outcomes[j + 1..]).records == LoadFrom(outcomes).records
  {
    var a, o, b := outcomes[..j], outcomes[j], outcomes[j + 1..];
    assert outcomes == a + [o] + b;
    CandidatesAppend(a + [o], b);
    CandidatesAppend(a, [o]);
    CandidatesAppend(a, b);
    assert [o][..0] == [];
    assert Candidates([o]) == [];
    LoadKeepsFirstOccurrences(outcomes);
    LoadKeepsFirstOccurrences(a + b);
  }

  /** One more line through the loader. */
  lemma LoadFromStep(outcomes: seq<LineOutcome>, i: nat)
    requires i < |outcomes|
    ensures var prev := LoadFrom(outcomes[..i]);
      LoadFrom(outcomes[..i + 1]) ==
        match outcomes[i]
        case Blank => prev
        case Skipped(s) => LoadResult(prev.records, prev.notes + [Note(i + 2, s)])
        case Parsed(e) =>
          if HasId(prev.records, e.id) then LoadResult(prev.records, prev.notes + [Note(i + 2, DuplicateId(e.id))])
          else LoadResult(prev.records + [e], prev.notes)
  {
    assert outcomes[..i + 1][..i] == outcomes[..i];
  }

  /** The duplicate scan in `_load_employees`: stops at the first record
      with the id. */
  method IsIdUnseen(records: seq<Employee>, id: string) returns (isUnique: bool)
    ensures isUnique <==> !HasId(records, id)
  {
    isUnique := true;
    var j := 0;
    while j < |records|
      invariant 0 <= j <= |records|
      invariant isUnique
      invariant forall k :: 0 <= k < j ==> records[k].id != id
    {
      if records[j].id == id {
        isUnique := false;
        break;
      }
      j := j + 1;
    }
  }

  /** `_load_employees` as the loop it is: each line after the header is
      read, and its record appended unless an earlier record has its id; line
      numbers start at 2. */
  method LoadEmployees(file: DataFile, keys: seq<string>, d: char) returns (records: seq<Employee>, notes: seq<Note>)
    ensures LoadResult(records, notes) == Loaded(file, keys, d)
  {
    records, notes := [], [];
    var lines := FileLines(file);
    if lines == [] {
      return;
    }
    var rows := lines[1..];
    ghost var outcomes := Outcomes(rows, keys, d);
    for i := 0 to |rows|
      invariant LoadResult(records, notes) == LoadFrom(outcomes[..i])
    {
      LoadFromStep(outcomes, i);
      var o := ClassifyLine(rows[i], keys, d);
      assert o == outcomes[i];
      match o
      case Blank =>
      case Skipped(s) =>
        notes := notes + [Note(i + 2, s)];
      case Parsed(e) =>
        var isUnique := IsIdUnseen(records, e.id);
        if isUnique {
          records := records + [e];
        } else {
          notes := notes + [Note(i + 2, DuplicateId(e.id))];
        }
    }
    assert outcomes[..|rows|] == outcomes;
  }

  /** The values `_save_employees` writes for a record: its `to_dict` entry
      for each column, empty for a column `to_dict` lacks. */
  function RenderValues(e: Employee, keys: seq<string>): (r: seq<string>)
    ensures |r| == |keys|
  {
    seq(|keys|, i requires 0 <= i < |keys| => Get(ToDict(e), keys[i], ""))
  }

  function RenderLine(e: Employee, keys: seq<string>, d: char): string {
    Join(RenderValues(e, keys), d)
  }

  /** What `_save_employees` writes: the header, then one line per record in
      list order. */
  function Rendered(records: seq<Employee>, keys: seq<string>, d: char): (r: seq<string>)
    ensures |r| == |records| + 1
  {
    [Join(keys, d)] + seq(|records|, i requires 0 <= i < |records| => RenderLine(records[i], keys, d))
  }

  /** Writing one more record adds its line at the end. */
  lemma RenderedStep(records: seq<Employee>, i: nat, keys: seq<string>, d: char)
    requires i < |records|
    ensures Rendered(records[..i + 1], keys, d) == Rendered(records[..i], keys, d) + [RenderLine(records[i], keys, d)]
  {
    var a, b := Rendered(records[..i + 1], keys, d), Rendered(records[..i], keys, d) + [RenderLine(records[i], keys, d)];
    assert |a| == |b|;
    forall k | 0 <= k < |a| ensures a[k] == b[k] {
      if 1 <= k <= i {
        assert records[..i + 1][k - 1] == records[..i][k - 1];
      }
    }
  }

  /** No value written for the record contains the delimiter. */
  predicate DelimiterFree(e: Employee, d: char) {
    d !in e.id && d !in e.name && d !in e.department && d !in FormatAmount(e.salary)
    && d !in e.email && d !in e.contact
  }

  /** The standard column names are pairwise different (their lengths are). */
  lemma EmployeeKeysDistinct()
    ensures forall a, b :: 0 <= a < b < |EmployeeKeys| ==> EmployeeKeys[a] != EmployeeKeys[b]
  {
    assert forall a, b :: 0 <= a < b < |EmployeeKeys| ==> |EmployeeKeys[a]| != |EmployeeKeys[b]|;
  }

  /** Under the standard columns a record is written as its six fields. */
  lemma StandardColumns(e: Employee)
    ensures RenderValues(e, EmployeeKeys) == [e.id, e.name, e.department, FormatAmount(e.salary), e.email, e.contact]
  {
    ToDictColumns(e);
  }

  /** The standard columns of a record, zipped back with their names, give
      its `to_dict`. */
  lemma ZipRenderedColumns(e: Employee)
    ensures ZipMap(EmployeeKeys, RenderValues(e, EmployeeKeys)) == ToDict(e)
  {
    var vals := RenderValues(e, EmployeeKeys);
    var m := ZipMap(EmployeeKeys, vals);
    var t := ToDict(e);
    EmployeeKeysDistinct();
    forall i | 0 <= i < |EmployeeKeys| ensures m[EmployeeKeys[i]] == t[EmployeeKeys[i]] {
      ZipMapAt(EmployeeKeys, vals, i);
    }
  }

  /** A valid record's line starts with the id and ends with the contact
      details, neither of which is blank at that end. */
  lemma ValidEnds(e: Employee)
    requires Valid(e)
    ensures e.id != [] && !IsSpace(e.id[0]) && e.contact != [] && !IsSpace(e.contact[|e.contact| - 1])
  {
    assert IsAlnum(e.id[0]);
  }

  /** A saved line whose first and last values do not start or end with
      whitespace is not blank and has none around it. */
  lemma LineStripped(e: Employee, d: char)
    requires e.id != [] && !IsSpace(e.id[0]) && e.contact != [] && !IsSpace(e.contact[|e.contact| - 1])
    ensures RenderLine(e, EmployeeKeys, d) != []
    ensures Strip(RenderLine(e, EmployeeKeys, d)) == RenderLine(e, EmployeeKeys, d)
  {
    var vals := RenderValues(e, EmployeeKeys);
    StandardColumns(e);
    JoinFirst(vals, d);
    JoinLast(vals, d);
    StripFixed(Join(vals, d));
  }

  /** A saved line of a valid record splits back into the record's values
      when none of them holds the delimiter. */
  lemma LineSplits(e: Employee, d: char)
    requires DelimiterFree(e, d)
    ensures Split(RenderLine(e, EmployeeKeys, d), d) == RenderValues(e, EmployeeKeys)
  {
    StandardColumns(e);
    SplitJoin(RenderValues(e, EmployeeKeys), d);
  }

  /** A saved line of a valid record reads back as that record. */
  lemma LineRoundTrip(e: Employee, d: char)
    requires Valid(e) && DelimiterFree(e, d)
    ensures ClassifyLine(RenderLine(e, EmployeeKeys, d), EmployeeKeys, d) == Parsed(e)
  {
    ValidEnds(e);
    LineStripped(e, d);
    LineSplits(e, d);
    ZipRenderedColumns(e);
    DictRoundTrip(e);
  }

  /** Lines that each give a new record load as exactly those records. */
  lemma {:induction false} LoadAllParsed(records: seq<Employee>)
    requires DistinctIds(records)
    ensures LoadFrom(seq(|records|, i requires 0 <= i < |records| => Parsed(records[i]))) == LoadResult(records, [])
  {
    var outcomes := seq(|records|, i requires 0 <= i < |records| => Parsed(records[i]));
    if records != [] {
      var p := records[..|records| - 1];
      LoadAllParsed(p);
      assert outcomes[..|outcomes| - 1] == seq(|p|, i requires 0 <= i < |p| => Parsed(p[i]));
      assert !HasId(p, records[|records| - 1].id);
      assert p + [records[|records| - 1]] == records;
    }
  }

  /** What `_save_employees` leaves in the file: each line of `Rendered`
      followed by `\n`, written with no newline translation. */
  function Saved(records: seq<Employee>, keys: seq<string>, d: char): DataFile {
    Present(FileText(Rendered(records, keys, d)))
  }

  /** `dict(zip(keys, values))` maps every key to one of the values. */
  lemma {:induction false} ZipMapValues(keys: seq<string>, values: seq<string>, k: string)
    requires |keys| == |values| && k in ZipMap(keys, values)
    ensures exists i :: 0 <= i < |values| && ZipMap(keys, values)[k] == values[i]
  {
    var n := |keys| - 1;
    if k == keys[n] {
      assert ZipMap(keys, values)[k] == values[n];
    } else {
      ZipMapValues(keys[..n], values[..n], k);
      var i :| 0 <= i < n && ZipMap(keys[..n], values[..n])[k] == values[..n][i];
      assert values[..n][i] == values[i];
    }
  }

  /** Of a valid record's values, only the contact details can hold a line
      break: the other validators admit no whitespace, and an amount is
      written with digits, a point and perhaps a sign. */
  lemma ValidUnbroken(e: Employee)
    requires Valid(e)
    ensures Unbroken(e.id) && Unbroken(e.name) && Unbroken(e.department) && Unbroken(e.email)
    ensures Unbroken(FormatAmount(e.salary))
  {
    assert forall k :: 0 <= k < |e.name| ==> IsNameChar(e.name[k]);
    assert forall k :: 0 <= k < |e.department| ==> IsDepartmentChar(e.department[k]);
    assert forall k :: 0 <= k < |e.email| ==> !IsSpace(e.email[k]);
    FormatAmountUnbroken(e.salary);
  }

  /** The header line holds no line break unless the delimiter is one. */
  lemma HeaderUnbroken(d: char)
    requires !IsLineBreak(d)
    ensures Unbroken(Join(EmployeeKeys, d))
  {
    assert forall i :: 0 <= i < |EmployeeKeys| ==> Unbroken(EmployeeKeys[i]);
    JoinOmits(EmployeeKeys, d, '\n');
    JoinOmits(EmployeeKeys, d, '\r');
  }

  /** A valid record's saved line holds no line break when neither its
      contact details nor the delimiter does. */
  lemma LineUnbroken(e: Employee, d: char)
    requires Valid(e) && Unbroken(e.contact) && !IsLineBreak(d)
    ensures Unbroken(RenderLine(e, EmployeeKeys, d))
  {
    ValidUnbroken(e);
    StandardColumns(e);
    var vals := RenderValues(e, EmployeeKeys);
    JoinOmits(vals, d, '\n');
    JoinOmits(vals, d, '\r');
  }

  /** Then reading the saved file gives back exactly the lines written. */
  lemma SavedLines(records: seq<Employee>, d: char)
    requires AllValid(records) && !IsLineBreak(d)
    requires forall i :: 0 <= i < |records| ==> Unbroken(records[i].contact)
    ensures FileLines(Saved(records, EmployeeKeys, d)) == Rendered(records, EmployeeKeys, d)
  {
    var lines := Rendered(records, EmployeeKeys, d);
    HeaderUnbroken(d);
    forall i | 0 <= i < |lines| ensures Unbroken(lines[i]) {
      if i > 0 {
        LineUnbroken(records[i - 1], d);
      }
    }
    LinesFileText(lines);
  }

  /** Saving and loading again gives back the list, provided the file uses
      the standard columns, no value contains the delimiter, and neither
      the delimiter nor any contact details hold a line break. */
  lemma SaveLoadRoundTrip(records: seq<Employee>, d: char)
    requires AllValid(records) && DistinctIds(records) && !IsLineBreak(d)
    requires forall i :: 0 <= i < |records| ==> DelimiterFree(records[i], d) && Unbroken(records[i].contact)
    ensures Loaded(Saved(records, EmployeeKeys, d), EmployeeKeys, d) == LoadResult(records, [])
  {
    SavedLines(records, d);
    var lines := Rendered(records, EmployeeKeys, d);
    var rows := lines[1..];
    assert rows == seq(|records|, i requires 0 <= i < |records| => RenderLine(records[i], EmployeeKeys, d));
    var outcomes := Outcomes(rows, EmployeeKeys, d);
    forall i | 0 <= i < |records| ensures outcomes[i] == Parsed(records[i]) {
      LineRoundTrip(records[i], d);
    }
    assert outcomes == seq(|records|, i requires 0 <= i < |records| => Parsed(records[i]));
    LoadAllParsed(records);
  }

  /** A loaded record's contact details hold no line break, whatever the
      file: they come from inside one line. */
  lemma LoadedUnbroken(file: DataFile, keys: seq<string>, d: char, x: Employee)
    requires x in Loaded(file, keys, d).records
    ensures Unbroken(x.contact)
  {
    LoadedFromLine(file, keys, d, x);
    var j :| 1 <= j < |FileLines(file)| && ClassifyLine(FileLines(file)[j], keys, d) == Parsed(x);
    var t := Strip(FileLines(file)[j]);
    StripOmits(FileLines(file)[j], '\n');
    StripOmits(FileLines(file)[j], '\r');
    var values := Split(t, d);
    SplitOmits(t, d, '\n');
    SplitOmits(t, d, '\r');
    var m := ZipMap(keys, values);
    var c := Get(m, "Contact Details", "");
    assert Unbroken(c) by {
      if "Contact Details" in m {
        ZipMapValues(keys, values, "Contact Details");
      }
    }
    StripOmits(c, '\n');
    StripOmits(c, '\r');
  }

  /** With a line break as the delimiter no line holds it, so none splits
      into more than one value and nothing loads. */
  lemma BreakDelimiterLoadsNothing(file: DataFile, keys: seq<string>, d: char)
    requires IsLineBreak(d) && |keys| != 1
    ensures Loaded(file, keys, d).records == []
  {
    var r := Loaded(file, keys, d).records;
    if r != [] {
      LoadedFromLine(file, keys, d, r[0]);
      var j :| 1 <= j < |FileLines(file)| && ClassifyLine(FileLines(file)[j], keys, d) == Parsed(r[0]);
      StripOmits(FileLines(file)[j], d);
      SplitWhole(Strip(FileLines(file)[j]), d);
    }
  }

  /** The loader keeps at most one record per line. */
  lemma {:induction false} LoadFromLength(outcomes: seq<LineOutcome>)
    ensures |LoadFrom(outcomes).records| <= |outcomes|
  {
    if outcomes != [] {
      LoadFromLength(outcomes[..|outcomes| - 1]);
    }
  }

  /** A saved line of a valid record that has the delimiter inside one of
      its values splits into more values than there are columns, and is
      skipped as malformed. */
  lemma DelimiterBreaksLine(e: Employee, d: char)
    requires Valid(e) && !DelimiterFree(e, d)
    ensures ClassifyLine(RenderLine(e, EmployeeKeys, d), EmployeeKeys, d).Skipped?
  {
    var vals := RenderValues(e, EmployeeKeys);
    StandardColumns(e);
    ValidEnds(e);
    LineStripped(e, d);
    var i := if d in e.id then 0 else if d in e.name then 1 else if d in e.department then 2
      else if d in FormatAmount(e.salary) then 3 else if d in e.email then 4 else 5;
    SplitJoinTooMany(vals, d, i);
  }

  /** When some record holds the delimiter, saving and loading again loses
      records. */
  lemma SaveLoadLoses(records: seq<Employee>, d: char, i: nat)
    requires AllValid(records) && !IsLineBreak(d)
    requires forall k :: 0 <= k < |records| ==> Unbroken(records[k].contact)
    requires i < |records| && !DelimiterFree(records[i], d)
    ensures |Loaded(Saved(records, EmployeeKeys, d), EmployeeKeys, d).records| < |records|
  {
    SavedLines(records, d);
    var rows := Rendered(records, EmployeeKeys, d)[1..];
    var outcomes := Outcomes(rows, EmployeeKeys, d);
    assert rows[i] == RenderLine(records[i], EmployeeKeys, d);
    DelimiterBreaksLine(records[i], d);
    SkippedLineContributesNothing(outcomes, i);
    LoadFromLength(outcomes[..i] + outcomes[i + 1..]);
  }

  /** A record whose contact details hold a line break is not among those
      loaded back: its line is cut in two. */
  lemma SaveLoadCutsLine(records: seq<Employee>, d: char, i: nat)
    requires i < |records| && !Unbroken(records[i].contact)
    ensures records[i] !in Loaded(Saved(records, EmployeeKeys, d), EmployeeKeys, d).records
  {
    if records[i] in Loaded(Saved(records, EmployeeKeys, d), EmployeeKeys, d).records {
      LoadedUnbroken(Saved(records, EmployeeKeys, d), EmployeeKeys, d, records[i]);
    }
  }

  /** Saving and loading again gives back the list exactly when the list is
      empty, or the delimiter is not a line break and no record holds the
      delimiter in a value or a line break in its contact details. */
  lemma SaveLoadExactly(records: seq<Employee>, d: char)
    requires AllValid(records) && DistinctIds(records)
    ensures Loaded(Saved(records, EmployeeKeys, d), EmployeeKeys, d).records == records
      <==> records == [] || (!IsLineBreak(d) && forall i :: 0 <= i < |records| ==> DelimiterFree(records[i], d) && Unbroken(records[i].contact))
  {
    if IsLineBreak(d) {
      BreakDelimiterLoadsNothing(Saved(records, EmployeeKeys, d), EmployeeKeys, d);
    } else if forall i :: 0 <= i < |records| ==> DelimiterFree(records[i], d) && Unbroken(records[i].contact) {
      SaveLoadRoundTrip(records, d);
    } else if i :| 0 <= i < |records| && !Unbroken(records[i].contact) {
      SaveLoadCutsLine(records, d, i);
    } else {
      var i :| 0 <= i < |records| && !DelimiterFree(records[i], d);
      SaveLoadLoses(records, d, i);
    }
  }
}
