/** The department-wise report: records grouped by department, the groups
    in order of their display names, each group's records in order of name.
    The grouping is stated for any key and display function; the report
    groups by `GroupKey` and shows `DisplayName`. */
module Reports {
  import opened Text
  import opened Records
  import opened Sorting

  /** The key a record is grouped under: its department stripped and
      lower-cased, or "uncategorized" when the department is empty. */
  function GroupKey(e: Employee): string {
    if e.department == [] then "uncategorized" else Lower(Strip(e.department))
  }

  /** The name a group is shown under, taken from the record that opens it. */
  function DisplayName(e: Employee): string {
    if e.department == [] then "Uncategorized" else Strip(e.department)
  }

  /** The sort key of the records within a section. */
  function NameOf(e: Employee): string {
    e.name
  }

  /** One entry of `departments_data`. */
  datatype Group = Group(display: string, members: seq<Employee>)

  /** `departments_data`: the groups by key, and the keys in the order they
      were first met (the order a Python dictionary keeps). */
  datatype Grouping = Grouping(groups: map<string, Group>, order: seq<string>)

  ghost predicate Distinct(s: seq<string>) {
    forall i, j :: 0 <= i < j < |s| ==> s[i] != s[j]
  }

  /** The keys are listed once each, and are exactly the keys of the map. */
  ghost predicate WellKeyed(g: Grouping) {
    (forall k :: k in g.groups <==> k in g.order) && Distinct(g.order)
  }

  /** Every group is non-empty and holds only records with its key. */
  ghost predicate GroupsConsistent(g: Grouping, key: Employee -> string) {
    forall k :: k in g.groups ==>
      g.groups[k].members != [] && forall m :: m in g.groups[k].members ==> key(m) == k
  }

  /** One turn of the grouping loop: the record joins the group of its key,
      or opens a new group shown under its display name. */
  function AddToGroup(g: Grouping, e: Employee, key: Employee -> string, display: Employee -> string): (r: Grouping)
    ensures key(e) in r.groups && r.groups[key(e)].members != [] && r.groups[key(e)].members[|r.groups[key(e)].members| - 1] == e
    ensures forall k :: k in g.groups ==> k in r.groups
  {
    var k := key(e);
    if k in g.groups then
      Grouping(g.groups[k := g.groups[k].(members := g.groups[k].members + [e])], g.order)
    else
      Grouping(g.groups[k := Group(display(e), [e])], g.order + [k])
  }

  /** The loop that fills `departments_data`. */
  function GroupAll(employees: seq<Employee>, key: Employee -> string, display: Employee -> string): (g: Grouping)
  {
    if employees == [] then Grouping(map[], [])
    else AddToGroup(GroupAll(employees[..|employees| - 1], key, display), employees[|employees| - 1], key, display)
  }

  /** A turn of the loop keeps each key listed once and only keys of groups. */
  lemma AddToGroupWellKeyed(g: Grouping, e: Employee, key: Employee -> string, display: Employee -> string)
    requires WellKeyed(g)
    ensures WellKeyed(AddToGroup(g, e, key, display))
  {
  }

  /** The keys of the grouping are listed once each, in `order`. */
  lemma {:induction false} GroupAllWellKeyed(employees: seq<Employee>, key: Employee -> string, display: Employee -> string)
    ensures WellKeyed(GroupAll(employees, key, display))
  {
    if employees != [] {
      var p := employees[..|employees| - 1];
      GroupAllWellKeyed(p, key, display);
      AddToGroupWellKeyed(GroupAll(p, key, display), employees[|employees| - 1], key, display);
    }
  }

  /** The grouping of one more record is one more turn of the loop. */
  lemma GroupAllStep(employees: seq<Employee>, i: nat, key: Employee -> string, display: Employee -> string)
    requires i < |employees|
    ensures GroupAll(employees[..i + 1], key, display) == AddToGroup(GroupAll(employees[..i], key, display), employees[i], key, display)
  {
    assert employees[..i + 1][..i] == employees[..i];
  }

  /** A turn of the loop as the source writes it: open an empty group for a
      new key, then append the record to the group of its key. */
  lemma AddToGroupInTwoSteps(g: Grouping, e: Employee, key: Employee -> string, display: Employee -> string)
    ensures var started := if key(e) in g.groups then g else Grouping(g.groups[key(e) := Group(display(e), [])], g.order + [key(e)]);
      var grp := started.groups[key(e)];
      AddToGroup(g, e, key, display) == Grouping(started.groups[key(e) := grp.(members := grp.members + [e])], started.order)
  {
    if key(e) !in g.groups {
      assert [] + [e] == [e];
      var m := g.groups[key(e) := Group(display(e), [])];
      assert m[key(e) := Group(display(e), [e])] == g.groups[key(e) := Group(display(e), [e])];
    }
  }

  /** A turn of the loop keeps the display name of every group already
      open, and a group it opens is for the record's key, shown under the
      record's display name. */
  lemma AddToGroupDisplay(g: Grouping, e: Employee, key: Employee -> string, display: Employee -> string, k: string)
    requires k in AddToGroup(g, e, key, display).groups
    ensures k in g.groups ==> AddToGroup(g, e, key, display).groups[k].display == g.groups[k].display
    ensures k !in g.groups ==> k == key(e) && AddToGroup(g, e, key, display).groups[k].display == display(e)
  {
  }

  /** A turn of the loop keeps every group non-empty and of its own key. */
  lemma AddToGroupConsistent(g: Grouping, e: Employee, key: Employee -> string, display: Employee -> string)
    requires GroupsConsistent(g, key)
    ensures GroupsConsistent(AddToGroup(g, e, key, display), key)
  {
    var r := AddToGroup(g, e, key, display);
    forall k | k in r.groups ensures r.groups[k].members != [] && forall m :: m in r.groups[k].members ==> key(m) == k {
      if k != key(e) {
        assert r.groups[k] == g.groups[k];
      }
    }
  }

  /** Each group holds records of its own key only. */
  lemma {:induction false} GroupAllConsistent(employees: seq<Employee>, key: Employee -> string, display: Employee -> string)
    ensures GroupsConsistent(GroupAll(employees, key, display), key)
  {
    if employees != [] {
      GroupAllConsistent(employees[..|employees| - 1], key, display);
      AddToGroupConsistent(GroupAll(employees[..|employees| - 1], key, display), employees[|employees| - 1], key, display);
    }
  }

  /** Every record lands in the group of its key. */
  lemma {:induction false} GroupAllCovers(employees: seq<Employee>, key: Employee -> string, display: Employee -> string, e: Employee)
    requires e in employees
    ensures key(e) in GroupAll(employees, key, display).groups
    ensures e in GroupAll(employees, key, display).groups[key(e)].members
  {
    var p := employees[..|employees| - 1];
    var last := employees[|employees| - 1];
    assert employees == p + [last];
    if e != last {
      GroupAllCovers(p, key, display, e);
    }
  }

  /** `employees[j]` is the first record with key `k`. */
  ghost predicate FirstOfKey(employees: seq<Employee>, key: Employee -> string, j: int, k: string) {
    0 <= j < |employees| && key(employees[j]) == k && forall j' :: 0 <= j' < j ==> key(employees[j']) != k
  }

  /** The first record of a key stays first when a record is appended. */
  lemma FirstOfKeyExtend(p: seq<Employee>, e: Employee, key: Employee -> string, j: int, k: string)
    requires FirstOfKey(p, key, j, k)
    ensures FirstOfKey(p + [e], key, j, k)
  {
    forall j' | 0 <= j' <= j ensures (p + [e])[j'] == p[j'] {}
  }

  /** An appended record whose key no earlier record has is the first of
      its key. */
  lemma FirstOfKeyNew(p: seq<Employee>, e: Employee, key: Employee -> string)
    requires forall m :: m in p ==> key(m) != key(e)
    ensures FirstOfKey(p + [e], key, |p|, key(e))
  {
    forall j' | 0 <= j' < |p| ensures key((p + [e])[j']) != key(e) {
      assert (p + [e])[j'] == p[j'];
    }
  }

  /** A group opens with the first record of its key and is shown under that
      record's display name: the first spelling of a department wins. */
  lemma {:induction false} GroupOpener(employees: seq<Employee>, key: Employee -> string, display: Employee -> string, k: string)
    requires k in GroupAll(employees, key, display).groups
    ensures exists j :: FirstOfKey(employees, key, j, k) && GroupAll(employees, key, display).groups[k].display == display(employees[j])
  {
    var p := employees[..|employees| - 1];
    var e := employees[|employees| - 1];
    var before := GroupAll(p, key, display);
    assert employees == p + [e];
    AddToGroupDisplay(before, e, key, display, k);
    if k in before.groups {
      GroupOpener(p, key, display, k);
      var j :| FirstOfKey(p, key, j, k) && before.groups[k].display == display(p[j]);
      FirstOfKeyExtend(p, e, key, j, k);
      assert employees[j] == p[j];
    } else {
      forall m | m in p ensures key(m) != k {
        if key(m) == k {
          GroupAllCovers(p, key, display, m);
        }
      }
      FirstOfKeyNew(p, e, key);
      assert FirstOfKey(employees, key, |p|, k);
    }
  }

  /** The number of records in the groups listed in `order`. */
  function SumSizes(groups: map<string, Group>, order: seq<string>): nat {
    if order == [] then 0
    else
      SumSizes(groups, order[..|order| - 1])
      + (if order[|order| - 1] in groups then |groups[order[|order| - 1]].members| else 0)
  }

  /** Changing a group not listed in `order` leaves the sum alone. */
  lemma {:induction false} SumSizesOther(groups: map<string, Group>, order: seq<string>, k: string, grp: Group)
    requires k !in order
    ensures SumSizes(groups[k := grp], order) == SumSizes(groups, order)
  {
    if order != [] {
      SumSizesOther(groups, order[..|order| - 1], k, grp);
    }
  }

  /** Growing one group listed once in `order` by one record adds one. */
  lemma {:induction false} SumSizesGrow(groups: map<string, Group>, order: seq<string>, k: string, e: Employee)
    requires k in groups && k in order && Distinct(order)
    ensures SumSizes(groups[k := groups[k].(members := groups[k].members + [e])], order) == SumSizes(groups, order) + 1
  {
    var p := order[..|order| - 1];
    if order[|order| - 1] == k {
      assert k !in p;
      SumSizesOther(groups, p, k, groups[k].(members := groups[k].members + [e]));
    } else {
      assert k in p;
      SumSizesGrow(groups, p, k, e);
    }
  }

  /** The groups partition the records: their sizes add up to the number of
      records. */
  lemma {:induction false} GroupSizesSum(employees: seq<Employee>, key: Employee -> string, display: Employee -> string)
    ensures SumSizes(GroupAll(employees, key, display).groups, GroupAll(employees, key, display).order) == |employees|
  {
    if employees != [] {
      var p := employees[..|employees| - 1];
      var e := employees[|employees| - 1];
      var prev := GroupAll(p, key, display);
      var k := key(e);
      GroupSizesSum(p, key, display);
      GroupAllWellKeyed(p, key, display);
      if k in prev.groups {
        SumSizesGrow(prev.groups, prev.order, k, e);
      } else {
        SumSizesOther(prev.groups, prev.order, k, Group(display(e), [e]));
        var o := prev.order + [k];
        assert o[..|o| - 1] == prev.order;
      }
    }
  }

  /** Splitting the key list splits the sum. */
  lemma {:induction false} SumSizesAppend(groups: map<string, Group>, a: seq<string>, b: seq<string>)
    ensures SumSizes(groups, a + b) == SumSizes(groups, a) + SumSizes(groups, b)
  {
    if b != [] {
      var ab := a + b;
      assert ab[..|ab| - 1] == a + b[..|b| - 1];
      SumSizesAppend(groups, a, b[..|b| - 1]);
    } else {
      assert a + b == a;
    }
  }

  /** Taking the key at `i` out of the list takes its group's size off the sum. */
  lemma SumSizesRemove(groups: map<string, Group>, b: seq<string>, i: nat)
    requires i < |b|
    ensures SumSizes(groups, b) == SumSizes(groups, b[..i] + b[i + 1..]) + SumSizes(groups, [b[i]])
  {
    var front, back := b[..i], b[i + 1..];
    assert b == (front + [b[i]]) + back;
    SumSizesAppend(groups, front + [b[i]], back);
    SumSizesAppend(groups, front, [b[i]]);
    SumSizesAppend(groups, front, back);
  }

  /** The sum does not depend on the order the keys are listed in. */
  lemma {:induction false} SumSizesPermutation(groups: map<string, Group>, a: seq<string>, b: seq<string>)
    requires multiset(a) == multiset(b)
    ensures SumSizes(groups, a) == SumSizes(groups, b)
    decreases |a|
  {
    if a == [] {
      assert b == [] by { assert |b| == |multiset(b)|; }
    } else {
      var x := a[|a| - 1];
      var p := a[..|a| - 1];
      assert a == p + [x];
      assert x in multiset(b);
      var i :| 0 <= i < |b| && b[i] == x;
      RemoveAt(b, i);
      SumSizesPermutation(groups, p, b[..i] + b[i + 1..]);
      SumSizesRemove(groups, b, i);
      SumSizesAppend(groups, p, [x]);
    }
  }

  /** Removing the element at `i` removes one copy of it. */
  lemma RemoveAt(b: seq<string>, i: nat)
    requires i < |b|
    ensures multiset(b[..i] + b[i + 1..]) == multiset(b) - multiset{b[i]}
  {
    assert b == b[..i] + [b[i]] + b[i + 1..];
  }

  /** A list of distinct keys has as many elements as the set of them. */
  lemma {:induction false} DistinctCard(s: seq<string>)
    requires Distinct(s)
    ensures |set k | k in s| == |s|
  {
    if s != [] {
      var p := s[..|s| - 1];
      var x := s[|s| - 1];
      DistinctCard(p);
      assert (set k | k in s) == (set k | k in p) + {x};
      assert x !in (set k | k in p);
    }
  }

  /** A list of distinct keys holds each key at most once. */
  lemma {:induction false} DistinctCount(s: seq<string>, x: string)
    requires Distinct(s)
    ensures multiset(s)[x] <= 1
  {
    if s != [] {
      var p := s[..|s| - 1];
      assert s == p + [s[|s| - 1]];
      DistinctCount(p, x);
      if s[|s| - 1] == x {
        assert x !in p;
      }
    }
  }

  /** A reordering of a list of distinct keys has distinct keys. */
  lemma PermutationDistinct(a: seq<string>, b: seq<string>)
    requires multiset(a) == multiset(b) && Distinct(a)
    ensures Distinct(b)
  {
    forall i, j | 0 <= i < j < |b| ensures b[i] != b[j] {
      if b[i] == b[j] {
        var x := b[i];
        assert b == b[..i] + [x] + b[i + 1..j] + [x] + b[j + 1..];
        assert multiset(b)[x] >= 2;
        DistinctCount(a, x);
        assert false;
      }
    }
  }

  /** One department of the report: its display name and its records. */
  datatype Section = Section(name: string, members: seq<Employee>)

  /** What `generate_department_report` prints, without the layout and the
      salary totals: nothing for an empty list, otherwise the sections, the
      number of departments and the number of records counted over them. */
  datatype Report = NoRecords | Report(sections: seq<Section>, departments: nat, total: nat)

  /** The section for one key: the group's display name and its records
      sorted by name. */
  function SectionOf(g: Grouping, k: string): Section {
    if k in g.groups then Section(g.groups[k].display, SortBy(g.groups[k].members, NameOf))
    else Section(k, [])
  }

  /** The group keys in order of their display names. */
  function SortedKeys(g: Grouping): seq<string> {
    SortBy(g.order, k => if k in g.groups then g.groups[k].display else "")
  }

  function Sections(g: Grouping, keys: seq<string>): seq<Section> {
    seq(|keys|, i requires 0 <= i < |keys| => SectionOf(g, keys[i]))
  }

  /** The sum of the section sizes, as the report's running total adds it up. */
  function SectionTotal(sections: seq<Section>): nat {
    if sections == [] then 0 else SectionTotal(sections[..|sections| - 1]) + |sections[|sections| - 1].members|
  }

  /** The sections of one more key end with that key's section. */
  lemma SectionsStep(g: Grouping, keys: seq<string>, j: nat)
    requires j < |keys|
    ensures Sections(g, keys[..j + 1]) == Sections(g, keys[..j]) + [SectionOf(g, keys[j])]
  {
  }

  /** The running total grows by the size of the section added. */
  lemma SectionTotalStep(sections: seq<Section>, sec: Section)
    ensures SectionTotal(sections + [sec]) == SectionTotal(sections) + |sec.members|
  {
    assert (sections + [sec])[..|sections|] == sections;
  }

  /** The report over any grouping key and display name. */
  function ReportBy(employees: seq<Employee>, key: Employee -> string, display: Employee -> string): Report {
    if employees == [] then NoRecords
    else
      var g := GroupAll(employees, key, display);
      var sections := Sections(g, SortedKeys(g));
      Report(sections, |g.groups|, SectionTotal(sections))
  }

  /** `generate_department_report`. */
  function DepartmentReport(employees: seq<Employee>): Report {
    ReportBy(employees, GroupKey, DisplayName)
  }

  /** The report's running total counts the records of its sections. */
  lemma {:induction false} SectionTotalSizes(g: Grouping, keys: seq<string>)
    ensures SectionTotal(Sections(g, keys)) == SumSizes(g.groups, keys)
  {
    if keys != [] {
      var p := keys[..|keys| - 1];
      SectionTotalSizes(g, p);
      assert Sections(g, keys)[..|keys| - 1] == Sections(g, p);
    }
  }

  /** The report counts every record once, and one department per group. */
  lemma ReportCounts(employees: seq<Employee>, key: Employee -> string, display: Employee -> string)
    requires employees != []
    ensures ReportBy(employees, key, display).Report?
    ensures ReportBy(employees, key, display).total == |employees|
    ensures ReportBy(employees, key, display).departments == |ReportBy(employees, key, display).sections|
  {
    var g := GroupAll(employees, key, display);
    var keys := SortedKeys(g);
    SectionTotalSizes(g, keys);
    GroupAllWellKeyed(employees, key, display);
    SumSizesPermutation(g.groups, keys, g.order);
    GroupSizesSum(employees, key, display);
    DistinctCard(g.order);
    assert g.groups.Keys == set k | k in g.order;
  }

  /** The section at position `i` is the one for the `i`-th sorted key, a key
      of the grouping. */
  lemma SectionAt(employees: seq<Employee>, key: Employee -> string, display: Employee -> string, i: nat)
    requires employees != [] && i < |ReportBy(employees, key, display).sections|
    ensures SortedKeys(GroupAll(employees, key, display))[i] in GroupAll(employees, key, display).groups
    ensures ReportBy(employees, key, display).sections[i]
      == SectionOf(GroupAll(employees, key, display), SortedKeys(GroupAll(employees, key, display))[i])
  {
    var g := GroupAll(employees, key, display);
    GroupAllWellKeyed(employees, key, display);
    assert SortedKeys(g)[i] in multiset(SortedKeys(g));
  }

  /** The sections come in order of their names, the records of each in
      order of theirs. */
  lemma ReportSorted(employees: seq<Employee>, key: Employee -> string, display: Employee -> string)
    requires employees != []
    ensures forall i, j :: 0 <= i < j < |ReportBy(employees, key, display).sections| ==>
      Le(ReportBy(employees, key, display).sections[i].name, ReportBy(employees, key, display).sections[j].name)
    ensures forall i :: 0 <= i < |ReportBy(employees, key, display).sections| ==>
      SortedBy(ReportBy(employees, key, display).sections[i].members, NameOf)
  {
    var r := ReportBy(employees, key, display);
    forall i | 0 <= i < |r.sections| ensures SortedBy(r.sections[i].members, NameOf) {
      SectionAt(employees, key, display, i);
    }
    forall i, j | 0 <= i < j < |r.sections| ensures Le(r.sections[i].name, r.sections[j].name) {
      SectionAt(employees, key, display, i);
      SectionAt(employees, key, display, j);
    }
  }

  /** Each section is non-empty and holds the records of a single key. */
  lemma ReportSection(employees: seq<Employee>, key: Employee -> string, display: Employee -> string, i: nat)
    requires employees != [] && i < |ReportBy(employees, key, display).sections|
    ensures ReportBy(employees, key, display).sections[i].members != []
    ensures forall m :: m in ReportBy(employees, key, display).sections[i].members ==>
      key(m) == key(ReportBy(employees, key, display).sections[i].members[0])
  {
    var g := GroupAll(employees, key, display);
    var k := SortedKeys(g)[i];
    SectionAt(employees, key, display, i);
    GroupAllConsistent(employees, key, display);
    var sec := ReportBy(employees, key, display).sections[i];
    assert multiset(sec.members) == multiset(g.groups[k].members);
    assert sec.members[0] in multiset(g.groups[k].members);
    forall m | m in sec.members ensures key(m) == k {
      assert m in multiset(g.groups[k].members);
    }
  }

  /** A section is named after the first record of its key in the list. */
  lemma ReportSectionName(employees: seq<Employee>, key: Employee -> string, display: Employee -> string, i: nat)
    requires employees != [] && i < |ReportBy(employees, key, display).sections|
    ensures ReportBy(employees, key, display).sections[i].members != []
    ensures var sec := ReportBy(employees, key, display).sections[i];
      exists j :: FirstOfKey(employees, key, j, key(sec.members[0])) && sec.name == display(employees[j])
  {
    var g := GroupAll(employees, key, display);
    var k := SortedKeys(g)[i];
    ReportSection(employees, key, display, i);
    SectionAt(employees, key, display, i);
    GroupAllConsistent(employees, key, display);
    var sec := ReportBy(employees, key, display).sections[i];
    assert sec.members[0] in multiset(g.groups[k].members);
    assert key(sec.members[0]) == k;
    GroupOpener(employees, key, display, k);
  }

  /** No two sections are for the same key. */
  lemma ReportKeysDistinct(employees: seq<Employee>, key: Employee -> string, display: Employee -> string, i: nat, j: nat)
    requires employees != [] && i < j < |ReportBy(employees, key, display).sections|
    ensures ReportBy(employees, key, display).sections[i].members != []
    ensures ReportBy(employees, key, display).sections[j].members != []
    ensures key(ReportBy(employees, key, display).sections[i].members[0])
      != key(ReportBy(employees, key, display).sections[j].members[0])
  {
    var g := GroupAll(employees, key, display);
    ReportSection(employees, key, display, i);
    ReportSection(employees, key, display, j);
    SectionAt(employees, key, display, i);
    SectionAt(employees, key, display, j);
    GroupAllConsistent(employees, key, display);
    GroupAllWellKeyed(employees, key, display);
    PermutationDistinct(g.order, SortedKeys(g));
    var r := ReportBy(employees, key, display);
    assert r.sections[i].members[0] in multiset(g.groups[SortedKeys(g)[i]].members);
    assert r.sections[j].members[0] in multiset(g.groups[SortedKeys(g)[j]].members);
  }

  /** Every record appears in some section. */
  lemma ReportCovers(employees: seq<Employee>, key: Employee -> string, display: Employee -> string, e: Employee)
    requires e in employees
    ensures ReportBy(employees, key, display).Report?
    ensures exists i :: 0 <= i < |ReportBy(employees, key, display).sections| && e in ReportBy(employees, key, display).sections[i].members
  {
    var g := GroupAll(employees, key, display);
    var keys := SortedKeys(g);
    GroupAllCovers(employees, key, display, e);
    GroupAllWellKeyed(employees, key, display);
    var k := key(e);
    assert k in multiset(keys);
    var i :| 0 <= i < |keys| && keys[i] == k;
    SectionAt(employees, key, display, i);
    assert e in multiset(g.groups[k].members);
    assert e in multiset(ReportBy(employees, key, display).sections[i].members);
  }
}
