/** The radial certification graph (src/graph.py): rows are grouped by main
    certification, three rings of nodes are laid out around a center node,
    and edges link the center, the main certifications, the sub-certifications
    and, optionally, the skills. */
module Graph {
  import opened Rows
  import opened Seqs

  const MAIN_CERT_RADIUS: int := 333
  const SUB_CERT_RADIUS: int := 666
  const SKILL_RADIUS: int := 1000

  const CENTER_COLOR: string := "#FF5733"
  const MAIN_CERT_COLOR: string := "#FFC300"
  const SUB_CERT_COLOR: string := "#DAF7A6"
  const SKILL_COLOR: string := "#FF69B4"

  /** Slot `index` of `count` evenly spaced slots on the circle of `radius`
      around the origin, at angle 2·π·index/count. The trigonometry is not
      modelled: a position is named by its slot, and distances between
      positions are a parameter of the layout. */
  datatype Pos = Pos(radius: int, index: nat, count: nat)

  datatype Node = Node(id: int, name: string, color: string, pos: Pos, size: real)

  datatype Edge = Edge(source: int, target: int)

  /** The workload slot of a ring item: a number, the NaN that pandas holds
      for a missing workload, or Python's `None` (skill items). */
  datatype NodeWorkload = Known(hours: real) | NaN | Null

  /** A ring item: a pair (label, workload) or a triple (label, workload, parent). */
  datatype Item =
    | Pair(name: string, workload: NodeWorkload)
    | Triple(name: string, workload: NodeWorkload, parent: Option<string>)

  /** The insertion-ordered dictionary from main certification to its rows. */
  datatype Groups = Groups(keys: seq<string>, members: map<string, seq<Row>>)

  /** The center node that every fresh network starts with. */
  const CENTER: Node := Node(0, "Gael", CENTER_COLOR, Pos(0, 0, 1), 50.0)

  // ---------------------------------------------------------------------
  // Grouping rows by main certification
  // ---------------------------------------------------------------------

  ghost predicate WellFormed(g: Groups)
  {
    && NoDup(g.keys)
    && (forall i :: 0 <= i < |g.keys| ==> g.keys[i] in g.members)
    && (forall k :: k in g.members ==> k in g.keys)
  }

  predicate Unaffiliated(r: Row)
  {
    r.mainCert.None?
  }

  function InGroup(k: string): Row -> bool
  {
    (r: Row) => r.mainCert == Some(k)
  }

  /** The main certifications of the rows that have one, in row order. */
  function MainCertsOf(rows: seq<Row>): seq<string>
  {
    if rows == [] then []
    else
      var r := rows[|rows| - 1];
      MainCertsOf(rows[..|rows| - 1]) + if r.mainCert.Some? then [r.mainCert.value] else []
  }

  lemma {:induction false} MainCertsMember(rows: seq<Row>, k: string)
    ensures k in MainCertsOf(rows) <==> exists i :: 0 <= i < |rows| && rows[i].mainCert == Some(k)
  {
    if rows != [] {
      var n := |rows| - 1;
      MainCertsMember(rows[..n], k);
      if exists i :: 0 <= i < |rows| && rows[i].mainCert == Some(k) {
        var i :| 0 <= i < |rows| && rows[i].mainCert == Some(k);
        if i < n {
          assert rows[..n][i] == rows[i];
        }
      }
      if exists i :: 0 <= i < n && rows[..n][i].mainCert == Some(k) {
        var i :| 0 <= i < n && rows[..n][i].mainCert == Some(k);
        assert rows[..n][i] == rows[i];
      }
    }
  }

  /** One step of the grouping loop: append the row to its main certification's
      list, opening the list when the key is new; unaffiliated rows are not grouped. */
  function AddToGroup(g: Groups, r: Row): Groups
  {
    if r.mainCert.None? then g
    else
      var k := r.mainCert.value;
      if k in g.members then Groups(g.keys, g.members[k := g.members[k] + [r]])
      else Groups(g.keys + [k], g.members[k := [r]])
  }

  function GroupRows(rows: seq<Row>): (g: Groups)
    ensures WellFormed(g)
  {
    if rows == [] then Groups([], map[])
    else AddToGroup(GroupRows(rows[..|rows| - 1]), rows[|rows| - 1])
  }

  function GroupLists(g: Groups): (lists: seq<seq<Row>>)
    requires WellFormed(g)
    ensures |lists| == |g.keys|
  {
    seq(|g.keys|, i requires 0 <= i < |g.keys| => g.members[g.keys[i]])
  }

  /** The grouped rows, group after group. */
  function GroupedRows(g: Groups): seq<Row>
    requires WellFormed(g)
  {
    Flatten(GroupLists(g))
  }

  /** Grouping one more row of a prefix is one grouping step. */
  lemma {:induction false} GroupRowsStep(rows: seq<Row>, i: nat)
    requires i < |rows|
    ensures GroupRows(rows[..i + 1]) == AddToGroup(GroupRows(rows[..i]), rows[i])
  {
    assert rows[..i + 1][..i] == rows[..i];
  }

  /** The keys of the grouping are the distinct main certifications in order
      of first appearance. */
  lemma {:induction false} GroupKeys(rows: seq<Row>)
    ensures GroupRows(rows).keys == Distinct(MainCertsOf(rows))
  {
    if rows != [] {
      var n := |rows| - 1;
      var p, r := rows[..n], rows[n];
      GroupKeys(p);
      var g := GroupRows(p);
      var ms := MainCertsOf(p);
      assert GroupRows(rows) == AddToGroup(g, r);
      if r.mainCert.Some? {
        var k := r.mainCert.value;
        assert MainCertsOf(rows) == ms + [k];
        assert (ms + [k])[..|ms|] == ms;
        assert Distinct(ms + [k]) == if k in Distinct(ms) then Distinct(ms) else Distinct(ms) + [k];
        assert k in g.members <==> k in g.keys;
      } else {
        assert MainCertsOf(rows) == ms;
      }
    }
  }

  /** Each key's list holds exactly the rows with that main certification, in
      input order, and the keys are exactly the main certifications present. */
  lemma {:induction false} GroupMembers(rows: seq<Row>, k: string)
    ensures k in GroupRows(rows).members <==> k in MainCertsOf(rows)
    ensures k in GroupRows(rows).members ==> GroupRows(rows).members[k] == Filter(rows, InGroup(k))
    ensures k !in GroupRows(rows).members ==> Filter(rows, InGroup(k)) == []
  {
    if rows != [] {
      var n := |rows| - 1;
      GroupMembers(rows[..n], k);
      AddToGroupEntry(GroupRows(rows[..n]), rows[n], k);
      assert k in MainCertsOf(rows) <==> k in MainCertsOf(rows[..n]) || rows[n].mainCert == Some(k);
      assert Filter(rows, InGroup(k))
             == Filter(rows[..n], InGroup(k)) + (if rows[n].mainCert == Some(k) then [rows[n]] else []);
    }
  }

  /** One grouping step touches only the list of the row's own key. */
  lemma {:induction false} AddToGroupEntry(g: Groups, r: Row, k: string)
    ensures k in AddToGroup(g, r).members <==> k in g.members || r.mainCert == Some(k)
    ensures k in AddToGroup(g, r).members ==>
              AddToGroup(g, r).members[k]
              == (if k in g.members then g.members[k] else []) + (if r.mainCert == Some(k) then [r] else [])
  {
    if k !in g.members && r.mainCert == Some(k) {
      assert [] + [r] == [r];
    }
  }

  /** Appending one row to one of the lists adds exactly that row to the
      flattened multiset. */
  lemma {:induction false} FlattenUpdateMultiset(ss: seq<seq<Row>>, j: nat, r: Row)
    requires j < |ss|
    ensures multiset(Flatten(ss[j := ss[j] + [r]])) == multiset(Flatten(ss)) + multiset{r}
  {
    var n := |ss| - 1;
    assert Flatten(ss) == Flatten(ss[..n]) + ss[n];
    assert Flatten(ss[j := ss[j] + [r]]) == Flatten(ss[j := ss[j] + [r]][..n]) + ss[j := ss[j] + [r]][n];
    if j == n {
      assert ss[j := ss[j] + [r]][..n] == ss[..n];
      calc {
        multiset(Flatten(ss[j := ss[j] + [r]]));
        multiset(Flatten(ss[..n]) + (ss[n] + [r]));
        multiset(Flatten(ss[..n])) + multiset(ss[n]) + multiset{r};
        multiset(Flatten(ss)) + multiset{r};
      }
    } else {
      assert ss[j := ss[j] + [r]][..n] == ss[..n][j := ss[..n][j] + [r]];
      FlattenUpdateMultiset(ss[..n], j, r);
      calc {
        multiset(Flatten(ss[j := ss[j] + [r]]));
        multiset(Flatten(ss[..n][j := ss[..n][j] + [r]]) + ss[n]);
        multiset(Flatten(ss[..n])) + multiset{r} + multiset(ss[n]);
        multiset(Flatten(ss)) + multiset{r};
      }
    }
  }

  /** A row joining an open group extends that group's list only. */
  lemma {:induction false} GroupListsExtend(g: Groups, r: Row, j: nat)
    requires WellFormed(g)
    requires j < |g.keys| && r.mainCert == Some(g.keys[j])
    ensures WellFormed(AddToGroup(g, r))
    ensures GroupLists(AddToGroup(g, r)) == GroupLists(g)[j := GroupLists(g)[j] + [r]]
  {
    var k := g.keys[j];
    var g' := AddToGroup(g, r);
    assert g'.keys == g.keys && g'.members == g.members[k := g.members[k] + [r]];
    forall i | 0 <= i < |g.keys| ensures GroupLists(g')[i] == GroupLists(g)[j := GroupLists(g)[j] + [r]][i] {
      if i != j {
        assert g.keys[i] != k;
      }
    }
  }

  /** A row with a new main certification opens a group at the end. */
  lemma {:induction false} GroupListsOpen(g: Groups, r: Row)
    requires WellFormed(g)
    requires r.mainCert.Some? && r.mainCert.value !in g.members
    ensures WellFormed(AddToGroup(g, r))
    ensures GroupLists(AddToGroup(g, r)) == GroupLists(g) + [[r]]
  {
    var k := r.mainCert.value;
    var g' := AddToGroup(g, r);
    assert k !in g.keys;
    assert g'.keys == g.keys + [k] && g'.members == g.members[k := [r]];
    assert NoDup(g'.keys);
    forall i | 0 <= i < |g'.keys| ensures g'.keys[i] in g'.members {
    }
  }

  /** One grouping step adds the row to the grouped rows exactly when it has
      a main certification. */
  lemma {:induction false} GroupStepMultiset(g: Groups, r: Row)
    requires WellFormed(g)
    ensures WellFormed(AddToGroup(g, r))
    ensures multiset(GroupedRows(AddToGroup(g, r)))
            == multiset(GroupedRows(g)) + (if r.mainCert.Some? then multiset{r} else multiset{})
  {
    var lists := GroupLists(g);
    if r.mainCert.Some? {
      var k := r.mainCert.value;
      if k in g.members {
        var j :| 0 <= j < |g.keys| && g.keys[j] == k;
        GroupListsExtend(g, r, j);
        FlattenUpdateMultiset(lists, j, r);
      } else {
        GroupListsOpen(g, r);
        FlattenAppend(lists, [[r]]);
        assert Flatten([[r]]) == [r] by {
          assert [[r]][..0] == [];
        }
      }
    }
  }

  /** The last row goes either to the grouped rows or to the unaffiliated ones. */
  lemma {:induction false} GroupingLastRow(rows: seq<Row>)
    requires rows != []
    ensures var n := |rows| - 1;
            multiset(GroupedRows(GroupRows(rows))) + multiset(Filter(rows, Unaffiliated))
            == multiset(GroupedRows(GroupRows(rows[..n]))) + multiset(Filter(rows[..n], Unaffiliated)) + multiset{rows[n]}
  {
    var n := |rows| - 1;
    assert rows[..n + 1] == rows;
    GroupRowsStep(rows, n);
    FilterStep(rows, n, Unaffiliated);
    GroupStepMultiset(GroupRows(rows[..n]), rows[n]);
  }

  /** Grouping partitions the rows: the grouped rows and the unaffiliated rows
      together are the input rows, none lost and none duplicated. */
  lemma {:induction false} GroupingPartitions(rows: seq<Row>)
    ensures multiset(GroupedRows(GroupRows(rows)) + Filter(rows, Unaffiliated)) == multiset(rows)
  {
    if rows != [] {
      var n := |rows| - 1;
      var p, r := rows[..n], rows[n];
      var a, u := GroupedRows(GroupRows(p)), Filter(p, Unaffiliated);
      var a', u' := GroupedRows(GroupRows(rows)), Filter(rows, Unaffiliated);
      assert multiset(a + u) == multiset(p) by {
        GroupingPartitions(p);
      }
      assert multiset(a') + multiset(u') == multiset(a) + multiset(u) + multiset{r} by {
        GroupingLastRow(rows);
      }
      MultisetStep(a, u, a', u', p, r);
      assert p + [r] == rows;
    }
  }

  /** Hence there are as many grouped and unaffiliated rows as input rows. */
  lemma {:induction false} GroupingKeepsCount(rows: seq<Row>)
    ensures |GroupedRows(GroupRows(rows))| + |Filter(rows, Unaffiliated)| == |rows|
  {
    GroupingPartitions(rows);
    var all := GroupedRows(GroupRows(rows)) + Filter(rows, Unaffiliated);
    assert |multiset(all)| == |multiset(rows)|;
  }

  // ---------------------------------------------------------------------
  // Node lists
  // ---------------------------------------------------------------------

  /** A row's workload as a ring item carries it: missing becomes NaN. */
  function RowWorkload(r: Row): NodeWorkload
  {
    if r.workload.Some? then Known(r.workload.value) else NaN
  }

  function MainItem(g: Groups, k: string): Item
    requires k in g.members
  {
    Pair(k, Known(TotalHours(g.members[k])))
  }

  /** One (label, total workload) pair per group, in key order. */
  function MainItems(g: Groups): (items: seq<Item>)
    requires WellFormed(g)
    ensures |items| == |g.keys|
  {
    seq(|g.keys|, i requires 0 <= i < |g.keys| => MainItem(g, g.keys[i]))
  }

  /** The (name, workload, parent) triples of some rows under one parent. */
  function SubItemsUnder(rows: seq<Row>, parent: Option<string>): (items: seq<Item>)
    ensures |items| == |rows|
  {
    seq(|rows|, i requires 0 <= i < |rows| => Triple(rows[i].name, RowWorkload(rows[i]), parent))
  }

  function GroupSubItems(g: Groups): (lists: seq<seq<Item>>)
    requires WellFormed(g)
    ensures |lists| == |g.keys|
  {
    seq(|g.keys|, i requires 0 <= i < |g.keys| => SubItemsUnder(g.members[g.keys[i]], Some(g.keys[i])))
  }

  /** The sub-certification triples: grouped rows group by group under their
      key, then the unaffiliated rows with no parent. */
  function SubItems(g: Groups, nonSpecialized: seq<Row>): seq<Item>
    requires WellFormed(g)
  {
    Flatten(GroupSubItems(g)) + SubItemsUnder(nonSpecialized, None)
  }

  /** The triple a row becomes when its parent is its own main certification. */
  function SubItemOf(r: Row): Item
  {
    Triple(r.name, RowWorkload(r), r.mainCert)
  }

  function SubItemsOf(rows: seq<Row>): (items: seq<Item>)
    ensures |items| == |rows|
  {
    seq(|rows|, i requires 0 <= i < |rows| => SubItemOf(rows[i]))
  }

  /** The skills listed in a row whose skills cell is text. */
  function RowSkillSet(r: Row): set<string>
  {
    set x | x in TextSkills(r)
  }

  /** One more row of the inner loop: one more triple, and its text skills. */
  lemma {:induction false} CollectRowStep(certs: seq<Row>, j: nat, parent: Option<string>)
    requires j < |certs|
    ensures SubItemsUnder(certs[..j + 1], parent)
            == SubItemsUnder(certs[..j], parent) + [Triple(certs[j].name, RowWorkload(certs[j]), parent)]
    ensures TextSkillSet(certs[..j + 1]) == TextSkillSet(certs[..j]) + RowSkillSet(certs[j])
  {
    assert certs[..j + 1][..j] == certs[..j];
  }

  /** The union of the decoded skill lists of the rows whose skills cell is text. */
  function TextSkillSet(rows: seq<Row>): set<string>
  {
    if rows == [] then {}
    else TextSkillSet(rows[..|rows| - 1]) + RowSkillSet(rows[|rows| - 1])
  }

  lemma {:induction false} TextSkillSetMember(rows: seq<Row>, x: string)
    ensures x in TextSkillSet(rows) <==> exists i :: 0 <= i < |rows| && x in TextSkills(rows[i])
  {
    if rows != [] {
      var n := |rows| - 1;
      TextSkillSetMember(rows[..n], x);
      if exists i :: 0 <= i < |rows| && x in TextSkills(rows[i]) {
        var i :| 0 <= i < |rows| && x in TextSkills(rows[i]);
        if i < n {
          assert rows[..n][i] == rows[i];
        }
      }
      if exists i :: 0 <= i < n && x in TextSkills(rows[..n][i]) {
        var i :| 0 <= i < n && x in TextSkills(rows[..n][i]);
        assert rows[..n][i] == rows[i];
      }
    }
  }

  lemma {:induction false} TextSkillSetAppend(a: seq<Row>, b: seq<Row>)
    ensures TextSkillSet(a + b) == TextSkillSet(a) + TextSkillSet(b)
    decreases |b|
  {
    if b == [] {
      assert a + b == a;
    } else {
      var n := |b| - 1;
      assert (a + b)[..|a + b| - 1] == a + b[..n];
      TextSkillSetAppend(a, b[..n]);
    }
  }

  /** The skill items: one (skill, None) pair per skill of the set, no repeats. */
  ghost predicate IsSkillList(items: seq<Item>, skills: set<string>)
  {
    && (forall i :: 0 <= i < |items| ==> items[i] == Pair(items[i].name, Null))
    && (forall i, j :: 0 <= i < j < |items| ==> items[i].name != items[j].name)
    && (forall i :: 0 <= i < |items| ==> items[i].name in skills)
    && (forall s :: s in skills ==> exists i :: 0 <= i < |items| && items[i].name == s)
  }

  /** Partway through turning a set into a list: the items listed so far are
      distinct (skill, None) pairs for the skills no longer in `rest`. */
  ghost predicate SkillListSoFar(items: seq<Item>, rest: set<string>, skills: set<string>)
  {
    && (forall i :: 0 <= i < |items| ==> items[i] == Pair(items[i].name, Null))
    && (forall i, j :: 0 <= i < j < |items| ==> items[i].name != items[j].name)
    && (forall i :: 0 <= i < |items| ==> items[i].name in skills - rest)
    && (forall s :: s in skills ==> s in rest || exists i :: 0 <= i < |items| && items[i].name == s)
  }

  /** Moving one skill from `rest` to the list keeps the list a partial one. */
  lemma {:induction false} SkillListStep(items: seq<Item>, rest: set<string>, skills: set<string>, s: string)
    requires rest <= skills && s in rest
    requires SkillListSoFar(items, rest, skills)
    ensures SkillListSoFar(items + [Pair(s, Null)], rest - {s}, skills)
  {
    var items' := items + [Pair(s, Null)];
    forall x | x in skills && x !in rest - {s}
      ensures exists i :: 0 <= i < |items'| && items'[i].name == x
    {
      if x == s {
        assert items'[|items|].name == x;
      } else {
        var i :| 0 <= i < |items| && items[i].name == x;
        assert items'[i].name == x;
      }
    }
  }

  function Labels(items: seq<Item>): (ls: seq<string>)
    ensures |ls| == |items|
  {
    seq(|items|, i requires 0 <= i < |items| => items[i].name)
  }

  /** The main items describe each main certification once, in order of first
      appearance, with the summed known workload of its rows. */
  lemma {:induction false} MainItemsFromTable(rows: seq<Row>)
    ensures Labels(MainItems(GroupRows(rows))) == Distinct(MainCertsOf(rows))
    ensures forall i :: 0 <= i < |MainItems(GroupRows(rows))| ==>
              MainItems(GroupRows(rows))[i].workload
              == Known(TotalHours(Filter(rows, InGroup(MainItems(GroupRows(rows))[i].name))))
  {
    GroupKeys(rows);
    var g := GroupRows(rows);
    forall i | 0 <= i < |g.keys|
      ensures MainItems(g)[i].workload == Known(TotalHours(Filter(rows, InGroup(g.keys[i]))))
    {
      GroupMembers(rows, g.keys[i]);
    }
  }

  lemma {:induction false} SubItemsOfAppend(a: seq<Row>, b: seq<Row>)
    ensures SubItemsOf(a + b) == SubItemsOf(a) + SubItemsOf(b)
  {
    assert forall i :: 0 <= i < |a + b| ==> SubItemsOf(a + b)[i] == (SubItemsOf(a) + SubItemsOf(b))[i];
  }

  /** When every row of list `i` has main certification `keys[i]`, recording
      `keys[i]` as parent is recording each row's own main certification. */
  lemma {:induction false} FlattenSubItems(ss: seq<seq<Row>>, keys: seq<string>)
    requires |ss| == |keys|
    requires forall i, j :: 0 <= i < |ss| && 0 <= j < |ss[i]| ==> ss[i][j].mainCert == Some(keys[i])
    ensures Flatten(seq(|ss|, i requires 0 <= i < |ss| => SubItemsUnder(ss[i], Some(keys[i]))))
            == SubItemsOf(Flatten(ss))
  {
    var subs := seq(|ss|, i requires 0 <= i < |ss| => SubItemsUnder(ss[i], Some(keys[i])));
    if ss != [] {
      var n := |ss| - 1;
      FlattenSubItems(ss[..n], keys[..n]);
      assert subs[..n] == seq(n, i requires 0 <= i < n => SubItemsUnder(ss[..n][i], Some(keys[..n][i])));
      assert SubItemsUnder(ss[n], Some(keys[n])) == SubItemsOf(ss[n]);
      SubItemsOfAppend(Flatten(ss[..n]), ss[n]);
    }
  }

  /** There is one sub item per row: the grouped rows, then the unaffiliated
      ones, each with its own main certification as parent. */
  lemma {:induction false} SubItemsFromTable(rows: seq<Row>)
    ensures SubItems(GroupRows(rows), Filter(rows, Unaffiliated))
            == SubItemsOf(GroupedRows(GroupRows(rows)) + Filter(rows, Unaffiliated))
    ensures |SubItems(GroupRows(rows), Filter(rows, Unaffiliated))| == |rows|
  {
    var g := GroupRows(rows);
    var u := Filter(rows, Unaffiliated);
    var lists: seq<seq<Row>> := GroupLists(g);
    forall i: int, j: int | 0 <= i < |lists| && 0 <= j < |lists[i]| ensures lists[i][j].mainCert == Some(g.keys[i]) {
      GroupMembers(rows, g.keys[i]);
      assert lists[i][j] in Filter(rows, InGroup(g.keys[i]));
    }
    FlattenSubItems(lists, g.keys);
    assert GroupSubItems(g) == seq(|lists|, i requires 0 <= i < |lists| => SubItemsUnder(lists[i], Some(g.keys[i])));
    GroupingKeepsCount(rows);
    assert SubItemsUnder(u, None) == SubItemsOf(u) by {
      forall i | 0 <= i < |u| ensures u[i].mainCert == None {
        assert Unaffiliated(u[i]);
      }
    }
    SubItemsOfAppend(GroupedRows(g), u);
  }

  /** The skills collected from the groups are those of the whole table. */
  lemma {:induction false} SkillSetFromTable(rows: seq<Row>)
    ensures TextSkillSet(GroupedRows(GroupRows(rows)) + Filter(rows, Unaffiliated)) == TextSkillSet(rows)
  {
    var all := GroupedRows(GroupRows(rows)) + Filter(rows, Unaffiliated);
    GroupingPartitions(rows);
    forall x ensures x in TextSkillSet(all) <==> x in TextSkillSet(rows) {
      TextSkillSetMember(all, x);
      TextSkillSetMember(rows, x);
      if x in TextSkillSet(all) {
        var i :| 0 <= i < |all| && x in TextSkills(all[i]);
        assert all[i] in multiset(rows);
      }
      if x in TextSkillSet(rows) {
        var i :| 0 <= i < |rows| && x in TextSkills(rows[i]);
        assert rows[i] in multiset(all);
      }
    }
  }

  // ---------------------------------------------------------------------
  // Node sizes
  // ---------------------------------------------------------------------

  /** `_get_node_size`: missing workloads get 20, others half the workload
      clamped to [20, 50]. */
  function GetNodeSize(w: NodeWorkload): (size: real)
    ensures 20.0 <= size <= 50.0
    ensures !w.Known? ==> size == 20.0
    ensures w.Known? && 40.0 <= w.hours <= 100.0 ==> size == w.hours / 2.0
  {
    if !w.Known? then 20.0
    else
      var half := w.hours / 2.0;
      var capped := if half < 50.0 then half else 50.0;
      if capped > 20.0 then capped else 20.0
  }

  /** Larger workloads never give smaller nodes. */
  lemma {:induction false} NodeSizeMonotone(a: real, b: real)
    requires a <= b
    ensures GetNodeSize(Known(a)) <= GetNodeSize(Known(b))
  {
  }

  /** The size of a ring node: `None` workloads (skills) get 15. */
  function ItemSize(it: Item): (size: real)
    ensures 15.0 <= size <= 50.0
    ensures it.workload.Null? <==> size == 15.0
  {
    if it.workload.Null? then 15.0 else GetNodeSize(it.workload)
  }

  // ---------------------------------------------------------------------
  // Rings: nodes, edges, ids
  // ---------------------------------------------------------------------

  function ParentOf(it: Item): Option<string>
  {
    match it
    case Triple(_, _, p) => p
    case Pair(_, _) => None
  }

  /** Python truthiness of an optional string: present and non-empty. */
  predicate Truthy(p: Option<string>)
  {
    p.Some? && p.value != ""
  }

  /** Python truthiness of the optional `main_cert_dict`: present and non-empty. */
  predicate DictTruthy(d: Option<map<string, int>>)
  {
    d.Some? && |d.value| > 0
  }

  predicate SkillRing(radius: int, isMainCert: bool)
  {
    !isMainCert && radius != SUB_CERT_RADIUS && radius == SKILL_RADIUS
  }

  function RingNode(items: seq<Item>, i: nat, radius: int, color: string, startId: int): Node
    requires i < |items|
  {
    Node(startId + i, items[i].name, color, Pos(radius, i, |items|), ItemSize(items[i]))
  }

  /** The nodes of the first `k` items of a ring. */
  function RingNodes(items: seq<Item>, k: nat, radius: int, color: string, startId: int): (ns: seq<Node>)
    requires k <= |items|
    ensures |ns| == k
  {
    seq(k, i requires 0 <= i < k => RingNode(items, i, radius, color, startId))
  }

  /** `min(range(1, startId), key=distance)`: the id among 1..startId-1 of
      the node nearest to `p`; `min` replaces its candidate only on a strictly
      smaller key, so a tie keeps the earliest id. `placed[j]` is the node with
      id `j`. */
  function Nearest(placed: seq<Node>, startId: int, p: Pos, dist: (Pos, Pos) -> real): (id: int)
    requires 1 < startId <= |placed|
    ensures 1 <= id < startId
    decreases startId
  {
    if startId == 2 then 1
    else
      var best := Nearest(placed, startId - 1, p, dist);
      if dist(placed[startId - 1].pos, p) < dist(placed[best].pos, p) then startId - 1 else best
  }

  /** The nearest id is a first minimum of the distance over ids 1..startId-1. */
  lemma {:induction false} NearestIsFirstMin(placed: seq<Node>, startId: int, p: Pos, dist: (Pos, Pos) -> real)
    requires 1 < startId <= |placed|
    ensures forall j :: 1 <= j < startId ==>
              dist(placed[Nearest(placed, startId, p, dist)].pos, p) <= dist(placed[j].pos, p)
    ensures forall j :: 1 <= j < Nearest(placed, startId, p, dist) ==>
              dist(placed[Nearest(placed, startId, p, dist)].pos, p) < dist(placed[j].pos, p)
    decreases startId
  {
    if startId > 2 {
      NearestIsFirstMin(placed, startId - 1, p, dist);
    }
  }

  predicate NearestDefined(items: seq<Item>, radius: int, startId: int, isMainCert: bool, placed: seq<Node>)
  {
    SkillRing(radius, isMainCert) && |items| > 0 ==> 1 < startId <= |placed|
  }

  /** The edge that item `i` of a ring gets (none outside the three rings). */
  function RingEdge(items: seq<Item>, i: nat, radius: int, startId: int,
                    mainCertDict: Option<map<string, int>>, isMainCert: bool,
                    placed: seq<Node>, dist: (Pos, Pos) -> real): (es: seq<Edge>)
    requires i < |items|
    requires NearestDefined(items, radius, startId, isMainCert, placed)
    ensures |es| == if isMainCert || radius == SUB_CERT_RADIUS || radius == SKILL_RADIUS then 1 else 0
  {
    var nodeId := startId + i;
    if isMainCert then [Edge(0, nodeId)]
    else if radius == SUB_CERT_RADIUS then
      var parent := ParentOf(items[i]);
      if Truthy(parent) && DictTruthy(mainCertDict) && parent.value in mainCertDict.value
      then [Edge(mainCertDict.value[parent.value], nodeId)]
      else [Edge(0, nodeId)]
    else if radius == SKILL_RADIUS then
      [Edge(Nearest(placed, startId, Pos(radius, i, |items|), dist), nodeId)]
    else []
  }

  lemma {:induction false} RingNodesStep(items: seq<Item>, i: nat, radius: int, color: string, startId: int)
    requires i < |items|
    ensures RingNodes(items, i + 1, radius, color, startId)
            == RingNodes(items, i, radius, color, startId) + [RingNode(items, i, radius, color, startId)]
  {
  }

  /** The edges of the first `k` items of a ring. */
  function RingEdges(items: seq<Item>, k: nat, radius: int, startId: int,
                     mainCertDict: Option<map<string, int>>, isMainCert: bool,
                     placed: seq<Node>, dist: (Pos, Pos) -> real): (es: seq<Edge>)
    requires k <= |items|
    requires NearestDefined(items, radius, startId, isMainCert, placed)
    ensures |es| == if isMainCert || radius == SUB_CERT_RADIUS || radius == SKILL_RADIUS then k else 0
  {
    if k == 0 then []
    else RingEdges(items, k - 1, radius, startId, mainCertDict, isMainCert, placed, dist)
         + RingEdge(items, k - 1, radius, startId, mainCertDict, isMainCert, placed, dist)
  }

  lemma {:induction false} RingEdgesStep(items: seq<Item>, i: nat, radius: int, startId: int,
                      mainCertDict: Option<map<string, int>>, isMainCert: bool,
                      placed: seq<Node>, dist: (Pos, Pos) -> real)
    requires i < |items|
    requires NearestDefined(items, radius, startId, isMainCert, placed)
    ensures RingEdges(items, i + 1, radius, startId, mainCertDict, isMainCert, placed, dist)
            == RingEdges(items, i, radius, startId, mainCertDict, isMainCert, placed, dist)
               + RingEdge(items, i, radius, startId, mainCertDict, isMainCert, placed, dist)
  {
  }

  /** The label -> id dictionary of the first `k` items (later labels win). */
  function RingIds(items: seq<Item>, k: nat, startId: int): map<string, int>
    requires k <= |items|
  {
    if k == 0 then map[]
    else RingIds(items, k - 1, startId)[items[k - 1].name := startId + k - 1]
  }

  // ---------------------------------------------------------------------
  // The whole graph
  // ---------------------------------------------------------------------

  /** Only the nodes with ids below `startId` decide the nearest one. */
  lemma {:induction false} NearestPrefix(a: seq<Node>, b: seq<Node>, startId: int, p: Pos, dist: (Pos, Pos) -> real)
    requires 1 < startId <= |a| <= |b|
    requires b[..|a|] == a
    ensures Nearest(a, startId, p, dist) == Nearest(b, startId, p, dist)
    decreases startId
  {
    assert forall k :: 0 <= k < |a| ==> b[k] == a[k] by {
      assert forall k :: 0 <= k < |a| ==> b[k] == b[..|a|][k];
    }
    if startId > 2 {
      NearestPrefix(a, b, startId - 1, p, dist);
    }
  }

  /** The nodes placed before the skill ring. */
  function CertNodes(mains: seq<Item>, subs: seq<Item>): (ns: seq<Node>)
    ensures |ns| == 1 + |mains| + |subs|
  {
    [CENTER]
    + RingNodes(mains, |mains|, MAIN_CERT_RADIUS, MAIN_CERT_COLOR, 1)
    + RingNodes(subs, |subs|, SUB_CERT_RADIUS, SUB_CERT_COLOR, 1 + |mains|)
  }

  function GraphNodes(mains: seq<Item>, subs: seq<Item>, skills: seq<Item>, showSkills: bool): (ns: seq<Node>)
    ensures |ns| == 1 + |mains| + |subs| + (if showSkills then |skills| else 0)
  {
    CertNodes(mains, subs)
    + (if showSkills then RingNodes(skills, |skills|, SKILL_RADIUS, SKILL_COLOR, 1 + |mains| + |subs|) else [])
  }

  /** A skill ring needs an earlier node to attach to (Python's `min` of an
      empty range would raise). */
  predicate SkillsAttachable(mains: seq<Item>, subs: seq<Item>, skills: seq<Item>, showSkills: bool)
  {
    showSkills && |skills| > 0 ==> |mains| + |subs| > 0
  }

  function GraphEdges(mains: seq<Item>, subs: seq<Item>, skills: seq<Item>, showSkills: bool,
                      dist: (Pos, Pos) -> real): (es: seq<Edge>)
    requires SkillsAttachable(mains, subs, skills, showSkills)
    ensures |es| == |mains| + |subs| + (if showSkills then |skills| else 0)
  {
    var m, s := |mains|, |subs|;
    RingEdges(mains, m, MAIN_CERT_RADIUS, 1, None, true, [CENTER], dist)
    + RingEdges(subs, s, SUB_CERT_RADIUS, 1 + m, Some(RingIds(mains, m, 1)), false,
                [CENTER] + RingNodes(mains, m, MAIN_CERT_RADIUS, MAIN_CERT_COLOR, 1), dist)
    + (if showSkills
       then RingEdges(skills, |skills|, SKILL_RADIUS, 1 + m + s, None, false, CertNodes(mains, subs), dist)
       else [])
  }

  /** The nodes of the graph are those of its rings, in ring order. */
  lemma {:induction false} GraphNodesSplit(mains: seq<Item>, subs: seq<Item>, skills: seq<Item>, showSkills: bool)
    ensures GraphNodes(mains, subs, skills, showSkills)
            == CertNodes(mains, subs)
               + (if showSkills then RingNodes(skills, |skills|, SKILL_RADIUS, SKILL_COLOR, 1 + |mains| + |subs|) else [])
  {
  }

  /** The edges of the graph are those of its three rings, in ring order. */
  lemma {:induction false} GraphEdgesSplit(mains: seq<Item>, subs: seq<Item>, skills: seq<Item>, showSkills: bool,
                        dist: (Pos, Pos) -> real)
    requires SkillsAttachable(mains, subs, skills, showSkills)
    ensures GraphEdges(mains, subs, skills, showSkills, dist)
            == RingEdges(mains, |mains|, MAIN_CERT_RADIUS, 1, None, true, [CENTER], dist)
               + RingEdges(subs, |subs|, SUB_CERT_RADIUS, 1 + |mains|, Some(RingIds(mains, |mains|, 1)), false,
                           [CENTER] + RingNodes(mains, |mains|, MAIN_CERT_RADIUS, MAIN_CERT_COLOR, 1), dist)
               + (if showSkills
                  then RingEdges(skills, |skills|, SKILL_RADIUS, 1 + |mains| + |subs|, None, false,
                                 CertNodes(mains, subs), dist)
                  else [])
  {
  }

  // ---------------------------------------------------------------------
  // The pyvis network and the graph object
  // ---------------------------------------------------------------------

  /** The network under construction: nodes and edges in insertion order. */
  class Network {
    var nodes: seq<Node>
    var edges: seq<Edge>

    constructor ()
      ensures nodes == [] && edges == []
    {
      nodes := [];
      edges := [];
    }

    method AddNode(n: Node)
      modifies this
      ensures nodes == old(nodes) + [n] && edges == old(edges)
    {
      nodes := nodes + [n];
    }

    method AddEdge(source: int, target: int)
      modifies this
      ensures edges == old(edges) + [Edge(source, target)] && nodes == old(nodes)
    {
      edges := edges + [Edge(source, target)];
    }
  }

  class CertificationGraph {
    const df: seq<Row>
    var net: Network
    // set once by the constructor, never reassigned afterwards
    const certGroups: Groups
    const nonSpecializedCerts: seq<Row>
    const mainCerts: seq<Item>
    const subCerts: seq<Item>
    const skills: seq<Item>

    /** The derived lists are those of the table. */
    ghost predicate Valid()
    {
      && certGroups == GroupRows(df)
      && nonSpecializedCerts == Filter(df, Unaffiliated)
      && mainCerts == MainItems(certGroups)
      && subCerts == SubItems(certGroups, nonSpecializedCerts)
      && IsSkillList(skills, TextSkillSet(GroupedRows(certGroups) + nonSpecializedCerts))
    }

    constructor (df: seq<Row>)
      ensures this.df == df && Valid()
      ensures fresh(net) && net.nodes == [CENTER] && net.edges == []
    {
      this.df := df;
      var n := CertificationGraph.CreateNetwork();
      net := n;
      var groups, nonSpecialized := CertificationGraph.GroupCertifications(df);
      certGroups, nonSpecializedCerts := groups, nonSpecialized;
      var mains, subs, skillItems := CertificationGraph.CollectNodesAndLeaves(groups, nonSpecialized);
      mainCerts, subCerts, skills := mains, subs, skillItems;
    }

    static method CreateNetwork() returns (net: Network)
      ensures fresh(net) && net.nodes == [CENTER] && net.edges == []
    {
      net := new Network();
      net.AddNode(CENTER);
    }

    static method GroupCertifications(df: seq<Row>) returns (groups: Groups, nonSpecialized: seq<Row>)
      ensures groups == GroupRows(df)
      ensures nonSpecialized == Filter(df, Unaffiliated)
    {
      groups := Groups([], map[]);
      nonSpecialized := [];
      var i := 0;
      while i < |df|
        invariant 0 <= i <= |df|
        invariant groups == GroupRows(df[..i])
        invariant nonSpecialized == Filter(df[..i], Unaffiliated)
      {
        var row := df[i];
        GroupRowsStep(df, i);
        FilterStep(df, i, Unaffiliated);
        if row.mainCert.Some? {
          var key := row.mainCert.value;
          if key in groups.members {
            groups := Groups(groups.keys, groups.members[key := groups.members[key] + [row]]);
          } else {
            groups := Groups(groups.keys + [key], groups.members[key := [row]]);
          }
        } else {
          nonSpecialized := nonSpecialized + [row];
        }
        i := i + 1;
      }
      assert df[..i] == df;
    }

    /** Walks the table's groups, then the unaffiliated rows: one main item per
        group, one sub item per row, and the set of text skills met on the way. */
    static method CollectNodesAndLeaves(certGroups: Groups, nonSpecializedCerts: seq<Row>)
      returns (mains: seq<Item>, subs: seq<Item>, skillItems: seq<Item>)
      requires WellFormed(certGroups)
      ensures mains == MainItems(certGroups)
      ensures subs == SubItems(certGroups, nonSpecializedCerts)
      ensures IsSkillList(skillItems, TextSkillSet(GroupedRows(certGroups) + nonSpecializedCerts))
    {
      var g := certGroups;
      ghost var lists: seq<seq<Row>> := GroupLists(g);
      ghost var subLists := GroupSubItems(g);
      mains, subs := [], [];
      var skillSet: set<string> := {};
      var i := 0;
      while i < |g.keys|
        invariant 0 <= i <= |g.keys|
        invariant mains == MainItems(g)[..i]
        invariant subs == Flatten(subLists[..i])
        invariant skillSet == TextSkillSet(Flatten(lists[..i]))
      {
        mains, subs, skillSet := CollectGroup(g, i, mains, subs, skillSet);
        i := i + 1;
      }
      assert subLists[..i] == subLists && lists[..i] == lists;
      subs, skillSet := CollectRows(nonSpecializedCerts, None, subs, skillSet);
      TextSkillSetAppend(Flatten(lists), nonSpecializedCerts);
      skillItems := SkillList(skillSet);
    }

    /** One group of the walk: its main item (the group's summed hours), then
        its rows under it. */
    static method CollectGroup(g: Groups, i: nat, mains0: seq<Item>, subs0: seq<Item>, skills0: set<string>)
      returns (mains: seq<Item>, subs: seq<Item>, skillSet: set<string>)
      requires WellFormed(g) && i < |g.keys|
      requires mains0 == MainItems(g)[..i]
      requires subs0 == Flatten(GroupSubItems(g)[..i])
      requires skills0 == TextSkillSet(Flatten(GroupLists(g)[..i]))
      ensures mains == MainItems(g)[..i + 1]
      ensures subs == Flatten(GroupSubItems(g)[..i + 1])
      ensures skillSet == TextSkillSet(Flatten(GroupLists(g)[..i + 1]))
    {
      var mainCert := g.keys[i];
      var certs := g.members[mainCert];
      mains := mains0 + [Pair(mainCert, Known(TotalHours(certs)))];
      subs, skillSet := CollectRows(certs, Some(mainCert), subs0, skills0);
      TextSkillSetAppend(Flatten(GroupLists(g)[..i]), certs);
      FlattenPrefixStep(GroupSubItems(g), i);
      FlattenPrefixStep(GroupLists(g), i);
    }

    /** The inner loop over some rows: one (name, workload, parent) triple per
        row, and the row's text skills added to the set. */
    static method CollectRows(certs: seq<Row>, parent: Option<string>, subs0: seq<Item>, skills0: set<string>)
      returns (subs: seq<Item>, skillSet: set<string>)
      ensures subs == subs0 + SubItemsUnder(certs, parent)
      ensures skillSet == skills0 + TextSkillSet(certs)
    {
      subs, skillSet := subs0, skills0;
      assert certs[..0] == [];
      assert subs == subs0 + SubItemsUnder(certs[..0], parent) by {
        assert SubItemsUnder(certs[..0], parent) == [];
        assert subs0 + [] == subs0;
      }
      var j := 0;
      while j < |certs|
        invariant 0 <= j <= |certs|
        invariant subs == subs0 + SubItemsUnder(certs[..j], parent)
        invariant skillSet == skills0 + TextSkillSet(certs[..j])
      {
        var cert := certs[j];
        subs := subs + [Triple(cert.name, RowWorkload(cert), parent)];
        if cert.skills.Text? {
          skillSet := skillSet + (set x | x in cert.skills.decoded);
        }
        CollectRowStep(certs, j, parent);
        j := j + 1;
      }
      assert certs[..j] == certs;
    }

    /** The set becomes a list in the set's own (unspecified) iteration order:
        one (skill, None) pair per skill. */
    static method SkillList(skillSet: set<string>) returns (skillItems: seq<Item>)
      ensures IsSkillList(skillItems, skillSet)
    {
      skillItems := [];
      var rest := skillSet;
      while rest != {}
        invariant rest <= skillSet
        invariant SkillListSoFar(skillItems, rest, skillSet)
        decreases |rest|
      {
        var s :| s in rest;
        SkillListStep(skillItems, rest, skillSet, s);
        skillItems := skillItems + [Pair(s, Null)];
        rest := rest - {s};
      }
    }

    /** Adds one ring of nodes with ids startId, startId + 1, ... and their edges. */
    method AddNodesInCircle(items: seq<Item>, radius: int, color: string, startId: int,
                            mainCertDict: Option<map<string, int>>, isMainCert: bool,
                            dist: (Pos, Pos) -> real)
      returns (nextId: int, nodeIds: map<string, int>)
      requires NearestDefined(items, radius, startId, isMainCert, net.nodes)
      modifies net
      ensures net.nodes == old(net.nodes) + RingNodes(items, |items|, radius, color, startId)
      ensures net.edges == old(net.edges)
                           + RingEdges(items, |items|, radius, startId, mainCertDict, isMainCert, old(net.nodes), dist)
      ensures nextId == startId + |items|
      ensures nodeIds == if isMainCert then RingIds(items, |items|, startId) else map[]
    {
      nodeIds := map[];
      var totalItems := |items|;
      ghost var placed := net.nodes;
      assert net.nodes == placed + RingNodes(items, 0, radius, color, startId) by {
        assert RingNodes(items, 0, radius, color, startId) == [];
        assert placed + [] == placed;
      }
      assert net.edges == old(net.edges) + RingEdges(items, 0, radius, startId, mainCertDict, isMainCert, placed, dist) by {
        assert old(net.edges) + [] == old(net.edges);
      }
      var i := 0;
      while i < totalItems
        invariant 0 <= i <= totalItems
        invariant net.nodes == placed + RingNodes(items, i, radius, color, startId)
        invariant net.edges == old(net.edges)
                               + RingEdges(items, i, radius, startId, mainCertDict, isMainCert, placed, dist)
        invariant nodeIds == if isMainCert then RingIds(items, i, startId) else map[]
      {
        nodeIds := PlaceItem(items, i, radius, color, startId, mainCertDict, isMainCert, dist, nodeIds,
                             placed, old(net.edges));
        i := i + 1;
      }
      nextId := startId + totalItems;
    }

    /** One pass of the loop over a ring: the node of item `i` at its slot,
        sized by its workload (15 without one), then its edge. */
    method PlaceItem(items: seq<Item>, i: nat, radius: int, color: string, startId: int,
                     mainCertDict: Option<map<string, int>>, isMainCert: bool,
                     dist: (Pos, Pos) -> real, nodeIds0: map<string, int>,
                     ghost placed: seq<Node>, ghost edges0: seq<Edge>)
      returns (nodeIds: map<string, int>)
      requires i < |items|
      requires NearestDefined(items, radius, startId, isMainCert, placed)
      requires net.nodes == placed + RingNodes(items, i, radius, color, startId)
      requires net.edges == edges0 + RingEdges(items, i, radius, startId, mainCertDict, isMainCert, placed, dist)
      requires nodeIds0 == if isMainCert then RingIds(items, i, startId) else map[]
      modifies net
      ensures net.nodes == placed + RingNodes(items, i + 1, radius, color, startId)
      ensures net.edges == edges0 + RingEdges(items, i + 1, radius, startId, mainCertDict, isMainCert, placed, dist)
      ensures nodeIds == if isMainCert then RingIds(items, i + 1, startId) else map[]
    {
      var pos := Pos(radius, i, |items|);
      var nodeId := startId + i;
      var nodeLabel, workload := items[i].name, items[i].workload;
      var size := if !workload.Null? then GetNodeSize(workload) else 15.0;
      net.AddNode(Node(nodeId, nodeLabel, color, pos, size));
      assert net.nodes == placed + RingNodes(items, i + 1, radius, color, startId) by {
        RingNodesStep(items, i, radius, color, startId);
      }
      nodeIds := LinkNode(items, i, radius, startId, mainCertDict, isMainCert, dist, nodeIds0, placed);
      RingEdgesStep(items, i, radius, startId, mainCertDict, isMainCert, placed, dist);
    }

    /** The edge of ring item `i`, whose node is already placed after the
        nodes `placed`: from the center for a main certification, from the
        parent's node or the center for a sub-certification, from the nearest
        earlier node for a skill. A main certification's id is recorded. */
    method LinkNode(items: seq<Item>, i: nat, radius: int, startId: int,
                    mainCertDict: Option<map<string, int>>, isMainCert: bool,
                    dist: (Pos, Pos) -> real, nodeIds0: map<string, int>, ghost placed: seq<Node>)
      returns (nodeIds: map<string, int>)
      requires i < |items|
      requires NearestDefined(items, radius, startId, isMainCert, placed)
      requires |placed| <= |net.nodes| && net.nodes[..|placed|] == placed
      modifies net
      ensures net.nodes == old(net.nodes)
      ensures net.edges == old(net.edges) + RingEdge(items, i, radius, startId, mainCertDict, isMainCert, placed, dist)
      ensures nodeIds == if isMainCert then nodeIds0[items[i].name := startId + i] else nodeIds0
    {
      nodeIds := nodeIds0;
      var nodeId := startId + i;
      var nodeLabel, parentCert := items[i].name, ParentOf(items[i]);
      if isMainCert {
        net.AddEdge(0, nodeId);
        nodeIds := nodeIds[nodeLabel := nodeId];
      } else if radius == SUB_CERT_RADIUS {
        if Truthy(parentCert) && DictTruthy(mainCertDict) && parentCert.value in mainCertDict.value {
          net.AddEdge(mainCertDict.value[parentCert.value], nodeId);
        } else {
          net.AddEdge(0, nodeId);
        }
      } else if radius == SKILL_RADIUS {
        var pos := Pos(radius, i, |items|);
        var closest := Nearest(net.nodes, startId, pos, dist);
        NearestPrefix(placed, net.nodes, startId, pos, dist);
        net.AddEdge(closest, nodeId);
      }
    }

    /** Rebuilds the network from scratch: the center, the main ring, the sub
        ring and, when asked, the skill ring. */
    method CreateGraph(showSkills: bool, dist: (Pos, Pos) -> real)
      requires Valid()
      modifies this
      ensures fresh(net)
      ensures SkillsAttachable(mainCerts, subCerts, skills, showSkills)
      ensures net.nodes == GraphNodes(mainCerts, subCerts, skills, showSkills)
      ensures net.edges == GraphEdges(mainCerts, subCerts, skills, showSkills, dist)
    {
      SkillsNeedRows(this);
      var mains, subs, skillItems := mainCerts, subCerts, skills;
      net := CreateNetwork();
      var mainEnd, mainCertDict := AddNodesInCircle(mains, MAIN_CERT_RADIUS, MAIN_CERT_COLOR, 1, None, true, dist);
      ghost var n1, e1 := net.nodes, net.edges;
      var subEnd, subIds := AddNodesInCircle(subs, SUB_CERT_RADIUS, SUB_CERT_COLOR, mainEnd, Some(mainCertDict), false, dist);
      ghost var n2, e2 := net.nodes, net.edges;
      if showSkills {
        CertNodesLength(n1, n2, mains, subs, mainEnd);
        var skillEnd, skillIds := AddNodesInCircle(skillItems, SKILL_RADIUS, SKILL_COLOR, subEnd, None, false, dist);
      }
      CertRingsAssembled(mains, subs, dist, n1, e1, n2, e2, mainEnd, mainCertDict);
      GraphNodesAssembled(mains, subs, skillItems, showSkills, n2, net.nodes, subEnd);
      GraphEdgesAssembled(mains, subs, skillItems, showSkills, dist, n2, e2, net.edges, subEnd);
    }
  }

  /** After the two certification rings the network holds one node per id
      below the next free one. */
  lemma {:induction false} CertNodesLength(n1: seq<Node>, n2: seq<Node>,
                                          mains: seq<Item>, subs: seq<Item>, mainEnd: int)
    requires n1 == [CENTER] + RingNodes(mains, |mains|, MAIN_CERT_RADIUS, MAIN_CERT_COLOR, 1)
    requires n2 == n1 + RingNodes(subs, |subs|, SUB_CERT_RADIUS, SUB_CERT_COLOR, mainEnd)
    ensures |n2| == 1 + |mains| + |subs|
  {
  }

  /** The two certification rings laid one after the other, the sub ring
      numbered from where the main ring stopped and linked through the main
      ring's label -> id dictionary, are the certification part of the graph. */
  lemma {:induction false} CertRingsAssembled(mains: seq<Item>, subs: seq<Item>, dist: (Pos, Pos) -> real,
                                             n1: seq<Node>, e1: seq<Edge>, n2: seq<Node>, e2: seq<Edge>,
                                             mainEnd: int, mainCertDict: map<string, int>)
    requires n1 == [CENTER] + RingNodes(mains, |mains|, MAIN_CERT_RADIUS, MAIN_CERT_COLOR, 1)
    requires e1 == [] + RingEdges(mains, |mains|, MAIN_CERT_RADIUS, 1, None, true, [CENTER], dist)
    requires mainEnd == 1 + |mains| && mainCertDict == RingIds(mains, |mains|, 1)
    requires n2 == n1 + RingNodes(subs, |subs|, SUB_CERT_RADIUS, SUB_CERT_COLOR, mainEnd)
    requires e2 == e1 + RingEdges(subs, |subs|, SUB_CERT_RADIUS, mainEnd, Some(mainCertDict), false, n1, dist)
    ensures n2 == CertNodes(mains, subs)
    ensures e2 == RingEdges(mains, |mains|, MAIN_CERT_RADIUS, 1, None, true, [CENTER], dist)
                  + RingEdges(subs, |subs|, SUB_CERT_RADIUS, 1 + |mains|, Some(RingIds(mains, |mains|, 1)), false,
                              [CENTER] + RingNodes(mains, |mains|, MAIN_CERT_RADIUS, MAIN_CERT_COLOR, 1), dist)
  {
    assert e1 == RingEdges(mains, |mains|, MAIN_CERT_RADIUS, 1, None, true, [CENTER], dist) by {
      assert [] + RingEdges(mains, |mains|, MAIN_CERT_RADIUS, 1, None, true, [CENTER], dist)
             == RingEdges(mains, |mains|, MAIN_CERT_RADIUS, 1, None, true, [CENTER], dist);
    }
  }

  /** The skill ring's nodes, when shown, come after the certification nodes:
      together they are the graph's nodes. */
  lemma {:induction false} GraphNodesAssembled(mains: seq<Item>, subs: seq<Item>, skills: seq<Item>,
                                              showSkills: bool, n2: seq<Node>, n3: seq<Node>, subEnd: int)
    requires n2 == CertNodes(mains, subs)
    requires subEnd == 1 + |mains| + |subs|
    requires showSkills ==> n3 == n2 + RingNodes(skills, |skills|, SKILL_RADIUS, SKILL_COLOR, subEnd)
    requires !showSkills ==> n3 == n2
    ensures n3 == GraphNodes(mains, subs, skills, showSkills)
  {
    GraphNodesSplit(mains, subs, skills, showSkills);
    if !showSkills {
      assert n3 == n2 + [];
    }
  }

  /** The skill ring's edges, when shown, come after the certification edges
      and link into the certification nodes: together they are the graph's
      edges. */
  lemma {:induction false} GraphEdgesAssembled(mains: seq<Item>, subs: seq<Item>, skills: seq<Item>, showSkills: bool,
                                              dist: (Pos, Pos) -> real, n2: seq<Node>, e2: seq<Edge>, e3: seq<Edge>,
                                              subEnd: int)
    requires SkillsAttachable(mains, subs, skills, showSkills)
    requires n2 == CertNodes(mains, subs)
    requires e2 == RingEdges(mains, |mains|, MAIN_CERT_RADIUS, 1, None, true, [CENTER], dist)
                   + RingEdges(subs, |subs|, SUB_CERT_RADIUS, 1 + |mains|, Some(RingIds(mains, |mains|, 1)), false,
                               [CENTER] + RingNodes(mains, |mains|, MAIN_CERT_RADIUS, MAIN_CERT_COLOR, 1), dist)
    requires subEnd == 1 + |mains| + |subs|
    requires showSkills ==> NearestDefined(skills, SKILL_RADIUS, subEnd, false, n2)
    requires showSkills ==> e3 == e2 + RingEdges(skills, |skills|, SKILL_RADIUS, subEnd, None, false, n2, dist)
    requires !showSkills ==> e3 == e2
    ensures e3 == GraphEdges(mains, subs, skills, showSkills, dist)
  {
    GraphEdgesSplit(mains, subs, skills, showSkills, dist);
    if !showSkills {
      assert e3 == e2 + [];
    }
  }

  /** A table with skills has rows, hence sub-certification nodes. */
  lemma {:induction false} SkillsNeedRows(g: CertificationGraph)
    requires g.Valid()
    ensures |g.skills| > 0 ==> |g.subCerts| > 0
  {
    SubItemsFromTable(g.df);
    SkillSetFromTable(g.df);
    if |g.skills| > 0 {
      assert g.skills[0].name in TextSkillSet(g.df);
    }
  }

  // ---------------------------------------------------------------------
  // Properties of the built graph
  // ---------------------------------------------------------------------

  /** Node `k` of the graph: the center, then the main ring, the sub ring and
      the skill ring, each numbered on from the previous one. */
  lemma {:induction false} GraphNodeAt(mains: seq<Item>, subs: seq<Item>, skills: seq<Item>, showSkills: bool, k: int)
    requires 0 <= k < |GraphNodes(mains, subs, skills, showSkills)|
    ensures GraphNodes(mains, subs, skills, showSkills)[k]
            == if k == 0 then CENTER
               else if k < 1 + |mains| then RingNode(mains, k - 1, MAIN_CERT_RADIUS, MAIN_CERT_COLOR, 1)
               else if k < 1 + |mains| + |subs| then
                 RingNode(subs, k - 1 - |mains|, SUB_CERT_RADIUS, SUB_CERT_COLOR, 1 + |mains|)
               else if showSkills then
                 RingNode(skills, k - 1 - |mains| - |subs|, SKILL_RADIUS, SKILL_COLOR, 1 + |mains| + |subs|)
               else CENTER
  {
    var a := [CENTER] + RingNodes(mains, |mains|, MAIN_CERT_RADIUS, MAIN_CERT_COLOR, 1);
    var b := RingNodes(subs, |subs|, SUB_CERT_RADIUS, SUB_CERT_COLOR, 1 + |mains|);
    var c := if showSkills then RingNodes(skills, |skills|, SKILL_RADIUS, SKILL_COLOR, 1 + |mains| + |subs|) else [];
    assert GraphNodes(mains, subs, skills, showSkills) == a + b + c;
    if k < |a| {
      assert (a + b + c)[k] == a[k];
    } else if k < |a| + |b| {
      assert (a + b + c)[k] == b[k - |a|];
    } else {
      assert (a + b + c)[k] == c[k - |a| - |b|];
    }
  }

  /** Node ids are 0 (the center), then 1..M for the main certifications,
      M+1..M+S for the sub-certifications and the following K ids for the
      skills: all distinct and contiguous. */
  lemma {:induction false} GraphNodeIds(mains: seq<Item>, subs: seq<Item>, skills: seq<Item>, showSkills: bool)
    ensures |GraphNodes(mains, subs, skills, showSkills)|
            == 1 + |mains| + |subs| + (if showSkills then |skills| else 0)
    ensures forall k :: 0 <= k < |GraphNodes(mains, subs, skills, showSkills)| ==>
              GraphNodes(mains, subs, skills, showSkills)[k].id == k
    ensures GraphNodes(mains, subs, skills, showSkills)[0] == CENTER
    ensures forall i :: 0 <= i < |mains| ==>
              GraphNodes(mains, subs, skills, showSkills)[1 + i].name == mains[i].name
    ensures forall i :: 0 <= i < |subs| ==>
              GraphNodes(mains, subs, skills, showSkills)[1 + |mains| + i].name == subs[i].name
    ensures showSkills ==> forall i :: 0 <= i < |skills| ==>
              GraphNodes(mains, subs, skills, showSkills)[1 + |mains| + |subs| + i].name == skills[i].name
  {
    forall k | 0 <= k < |GraphNodes(mains, subs, skills, showSkills)|
      ensures GraphNodes(mains, subs, skills, showSkills)[k].id == k
    {
      GraphNodeAt(mains, subs, skills, showSkills, k);
    }
    GraphNodeAt(mains, subs, skills, showSkills, 0);
    forall i | 0 <= i < |mains|
      ensures GraphNodes(mains, subs, skills, showSkills)[1 + i].name == mains[i].name
    {
      GraphNodeAt(mains, subs, skills, showSkills, 1 + i);
    }
    forall i | 0 <= i < |subs|
      ensures GraphNodes(mains, subs, skills, showSkills)[1 + |mains| + i].name == subs[i].name
    {
      GraphNodeAt(mains, subs, skills, showSkills, 1 + |mains| + i);
    }
    if showSkills {
      forall i | 0 <= i < |skills|
        ensures GraphNodes(mains, subs, skills, showSkills)[1 + |mains| + |subs| + i].name == skills[i].name
      {
        GraphNodeAt(mains, subs, skills, showSkills, 1 + |mains| + |subs| + i);
      }
    }
  }

  /** Node sizes: the center is 50, every other node lies in [15, 50], main
      and sub-certification nodes in [20, 50], skill nodes are 15. */
  /** The items a graph is built from have the kinds node sizing tells
      apart: main and sub items carry a workload (known or NaN), skills none. */
  lemma {:induction false} ValidItemKinds(g: CertificationGraph)
    requires g.Valid()
    ensures forall i :: 0 <= i < |g.mainCerts| ==> g.mainCerts[i].workload.Known?
    ensures forall i :: 0 <= i < |g.subCerts| ==> !g.subCerts[i].workload.Null?
    ensures forall i :: 0 <= i < |g.skills| ==> g.skills[i].workload.Null?
  {
    SubItemsFromTable(g.df);
    forall i | 0 <= i < |g.subCerts| ensures !g.subCerts[i].workload.Null? {
      assert g.subCerts[i] == SubItemOf((GroupedRows(g.certGroups) + g.nonSpecializedCerts)[i]);
    }
  }

  lemma {:induction false} GraphNodeSizes(mains: seq<Item>, subs: seq<Item>, skills: seq<Item>, showSkills: bool)
    requires forall i :: 0 <= i < |mains| ==> !mains[i].workload.Null?
    requires forall i :: 0 <= i < |subs| ==> !subs[i].workload.Null?
    requires forall i :: 0 <= i < |skills| ==> skills[i].workload.Null?
    ensures forall k :: 0 <= k < |GraphNodes(mains, subs, skills, showSkills)| ==>
              15.0 <= GraphNodes(mains, subs, skills, showSkills)[k].size <= 50.0
    ensures forall k :: 1 <= k < 1 + |mains| + |subs| ==>
              20.0 <= GraphNodes(mains, subs, skills, showSkills)[k].size
    ensures forall k :: 1 + |mains| + |subs| <= k < |GraphNodes(mains, subs, skills, showSkills)| ==>
              GraphNodes(mains, subs, skills, showSkills)[k].size == 15.0
  {
    forall k | 0 <= k < |GraphNodes(mains, subs, skills, showSkills)|
      ensures 15.0 <= GraphNodes(mains, subs, skills, showSkills)[k].size <= 50.0
      ensures 1 <= k < 1 + |mains| + |subs| ==> 20.0 <= GraphNodes(mains, subs, skills, showSkills)[k].size
      ensures 1 + |mains| + |subs| <= k ==> GraphNodes(mains, subs, skills, showSkills)[k].size == 15.0
    {
      GraphNodeAt(mains, subs, skills, showSkills, k);
    }
  }

  lemma {:induction false} RingEdgesShape(items: seq<Item>, k: nat, radius: int, startId: int,
                                          mainCertDict: Option<map<string, int>>, isMainCert: bool,
                                          placed: seq<Node>, dist: (Pos, Pos) -> real)
    requires k <= |items|
    requires NearestDefined(items, radius, startId, isMainCert, placed)
    requires isMainCert || radius == SUB_CERT_RADIUS || radius == SKILL_RADIUS
    ensures |RingEdges(items, k, radius, startId, mainCertDict, isMainCert, placed, dist)| == k
    ensures forall i :: 0 <= i < k ==>
              RingEdges(items, k, radius, startId, mainCertDict, isMainCert, placed, dist)[i]
              == RingEdge(items, i, radius, startId, mainCertDict, isMainCert, placed, dist)[0]
  {
    if k > 0 {
      RingEdgesShape(items, k - 1, radius, startId, mainCertDict, isMainCert, placed, dist);
    }
  }

  /** In the id dictionary of a ring with distinct labels, each label maps to its own id. */
  lemma {:induction false} RingIdsOf(items: seq<Item>, k: nat, startId: int)
    requires k <= |items|
    requires NoDup(Labels(items))
    ensures forall l :: l in RingIds(items, k, startId) <==> exists j :: 0 <= j < k && items[j].name == l
    ensures forall j :: 0 <= j < k ==> RingIds(items, k, startId)[items[j].name] == startId + j
  {
    if k > 0 {
      RingIdsOf(items, k - 1, startId);
      forall j | 0 <= j < k - 1 ensures items[j].name != items[k - 1].name {
        assert Labels(items)[j] != Labels(items)[k - 1];
      }
    }
  }

  /** Edge `i` of the graph is the edge of main-certification item `i`. */
  lemma {:induction false} MainEdgeAt(mains: seq<Item>, subs: seq<Item>, skills: seq<Item>, showSkills: bool,
                   dist: (Pos, Pos) -> real, i: nat)
    requires SkillsAttachable(mains, subs, skills, showSkills)
    requires i < |mains|
    ensures GraphEdges(mains, subs, skills, showSkills, dist)[i] == Edge(0, 1 + i)
  {
    GraphEdgesSplit(mains, subs, skills, showSkills, dist);
    RingEdgesShape(mains, |mains|, MAIN_CERT_RADIUS, 1, None, true, [CENTER], dist);
  }

  /** Edge count: one edge per main certification, one per row, and one per
      skill when skills are shown. Every edge ends at a node added in the same
      step (edge k ends at node k + 1) and starts at an earlier node. */
  lemma {:induction false} GraphEdgeShape(mains: seq<Item>, subs: seq<Item>, skills: seq<Item>, showSkills: bool,
                       dist: (Pos, Pos) -> real)
    requires SkillsAttachable(mains, subs, skills, showSkills)
    ensures forall k :: 0 <= k < |GraphEdges(mains, subs, skills, showSkills, dist)| ==>
              GraphEdges(mains, subs, skills, showSkills, dist)[k].target == k + 1
              && 0 <= GraphEdges(mains, subs, skills, showSkills, dist)[k].source < k + 1
    ensures forall i :: 0 <= i < |mains| ==> GraphEdges(mains, subs, skills, showSkills, dist)[i] == Edge(0, 1 + i)
  {
    var m, s := |mains|, |subs|;
    var edges := GraphEdges(mains, subs, skills, showSkills, dist);
    forall k | 0 <= k < |edges| ensures edges[k].target == k + 1 && 0 <= edges[k].source < k + 1 {
      if k < m {
        MainEdgeAt(mains, subs, skills, showSkills, dist, k);
      } else if k < m + s {
        SubEdgeAt(mains, subs, skills, showSkills, dist, k - m);
        RingIdsRange(mains, m, 1);
      } else {
        SkillEdgeAt(mains, subs, skills, dist, k - m - s);
      }
    }
    forall i | 0 <= i < m ensures edges[i] == Edge(0, 1 + i) {
      MainEdgeAt(mains, subs, skills, showSkills, dist, i);
    }
  }

  lemma {:induction false} RingIdsRange(items: seq<Item>, k: nat, startId: int)
    requires k <= |items|
    ensures forall l :: l in RingIds(items, k, startId) ==> startId <= RingIds(items, k, startId)[l] < startId + k
  {
    if k > 0 {
      RingIdsRange(items, k - 1, startId);
    }
  }

  /** Edge `|mains| + i` of the graph is the edge of sub-certification item `i`. */
  lemma {:induction false} SubEdgeAt(mains: seq<Item>, subs: seq<Item>, skills: seq<Item>, showSkills: bool,
                  dist: (Pos, Pos) -> real, i: nat)
    requires SkillsAttachable(mains, subs, skills, showSkills)
    requires i < |subs|
    ensures GraphEdges(mains, subs, skills, showSkills, dist)[|mains| + i]
            == RingEdge(subs, i, SUB_CERT_RADIUS, 1 + |mains|, Some(RingIds(mains, |mains|, 1)), false,
                        [CENTER] + RingNodes(mains, |mains|, MAIN_CERT_RADIUS, MAIN_CERT_COLOR, 1), dist)[0]
  {
    var ids := RingIds(mains, |mains|, 1);
    var mainNodes := [CENTER] + RingNodes(mains, |mains|, MAIN_CERT_RADIUS, MAIN_CERT_COLOR, 1);
    GraphEdgesSplit(mains, subs, skills, showSkills, dist);
    RingEdgesShape(subs, |subs|, SUB_CERT_RADIUS, 1 + |mains|, Some(ids), false, mainNodes, dist);
  }

  /** Edge `|mains| + i` read through the label -> id dictionary of the main ring. */
  lemma {:induction false} SubEdgeSource(mains: seq<Item>, subs: seq<Item>, skills: seq<Item>, showSkills: bool,
                                         dist: (Pos, Pos) -> real, i: nat)
    requires SkillsAttachable(mains, subs, skills, showSkills)
    requires i < |subs|
    ensures GraphEdges(mains, subs, skills, showSkills, dist)[|mains| + i]
            == if Truthy(ParentOf(subs[i])) && |RingIds(mains, |mains|, 1)| > 0
                  && ParentOf(subs[i]).value in RingIds(mains, |mains|, 1)
               then Edge(RingIds(mains, |mains|, 1)[ParentOf(subs[i]).value], 1 + |mains| + i)
               else Edge(0, 1 + |mains| + i)
  {
    SubEdgeAt(mains, subs, skills, showSkills, dist, i);
  }

  /** An edge chosen through the main ring's dictionary comes from the main
      node labelled with the parent, or from the center. */
  lemma {:induction false} ParentEdge(e: Edge, mains: seq<Item>, parent: Option<string>, target: int)
    requires NoDup(Labels(mains))
    requires e == if Truthy(parent) && |RingIds(mains, |mains|, 1)| > 0 && parent.value in RingIds(mains, |mains|, 1)
                  then Edge(RingIds(mains, |mains|, 1)[parent.value], target)
                  else Edge(0, target)
    ensures forall j :: 0 <= j < |mains| && parent == Some(mains[j].name) && mains[j].name != "" ==>
              e == Edge(1 + j, target)
    ensures !Truthy(parent) || parent.value !in Labels(mains) ==> e == Edge(0, target)
  {
    var m := |mains|;
    var ids := RingIds(mains, m, 1);
    RingIdsOf(mains, m, 1);
    forall l | l in ids ensures l in Labels(mains) {
      var j :| 0 <= j < m && mains[j].name == l;
      assert Labels(mains)[j] == l;
    }
    forall j | 0 <= j < m && parent == Some(mains[j].name) && mains[j].name != ""
      ensures e == Edge(1 + j, target)
    {
      assert mains[j].name in ids;
    }
  }

  /** The edge of sub-certification item `i`: from its parent's main node when
      the parent is a non-empty main label, from the center otherwise. */
  lemma {:induction false} SubEdgeOf(mains: seq<Item>, subs: seq<Item>, skills: seq<Item>, showSkills: bool,
                  dist: (Pos, Pos) -> real, i: nat)
    requires SkillsAttachable(mains, subs, skills, showSkills)
    requires NoDup(Labels(mains))
    requires i < |subs|
    ensures forall j :: 0 <= j < |mains| && ParentOf(subs[i]) == Some(mains[j].name) && mains[j].name != "" ==>
              GraphEdges(mains, subs, skills, showSkills, dist)[|mains| + i] == Edge(1 + j, 1 + |mains| + i)
    ensures !Truthy(ParentOf(subs[i])) || ParentOf(subs[i]).value !in Labels(mains) ==>
              GraphEdges(mains, subs, skills, showSkills, dist)[|mains| + i] == Edge(0, 1 + |mains| + i)
  {
    SubEdgeSource(mains, subs, skills, showSkills, dist, i);
    ParentEdge(GraphEdges(mains, subs, skills, showSkills, dist)[|mains| + i], mains, ParentOf(subs[i]), 1 + |mains| + i);
  }

  /** A sub-certification node hangs under its main certification's node when
      its parent is a non-empty label of a main node, and under the center
      otherwise. */
  lemma {:induction false} SubEdges(mains: seq<Item>, subs: seq<Item>, skills: seq<Item>, showSkills: bool,
                 dist: (Pos, Pos) -> real)
    requires SkillsAttachable(mains, subs, skills, showSkills)
    requires NoDup(Labels(mains))
    ensures forall i, j ::
              (0 <= i < |subs| && 0 <= j < |mains| && ParentOf(subs[i]) == Some(mains[j].name) && mains[j].name != "") ==>
              GraphEdges(mains, subs, skills, showSkills, dist)[|mains| + i] == Edge(1 + j, 1 + |mains| + i)
    ensures forall i ::
              (0 <= i < |subs| && (!Truthy(ParentOf(subs[i])) || ParentOf(subs[i]).value !in Labels(mains))) ==>
              GraphEdges(mains, subs, skills, showSkills, dist)[|mains| + i] == Edge(0, 1 + |mains| + i)
  {
    forall i | 0 <= i < |subs|
      ensures forall j :: 0 <= j < |mains| && ParentOf(subs[i]) == Some(mains[j].name) && mains[j].name != "" ==>
                GraphEdges(mains, subs, skills, showSkills, dist)[|mains| + i] == Edge(1 + j, 1 + |mains| + i)
      ensures !Truthy(ParentOf(subs[i])) || ParentOf(subs[i]).value !in Labels(mains) ==>
                GraphEdges(mains, subs, skills, showSkills, dist)[|mains| + i] == Edge(0, 1 + |mains| + i)
    {
      SubEdgeOf(mains, subs, skills, showSkills, dist, i);
    }
  }

  /** Edge `|mains| + |subs| + i` of a graph with skills is the edge of skill item `i`. */
  lemma {:induction false} SkillEdgeAt(mains: seq<Item>, subs: seq<Item>, skills: seq<Item>, dist: (Pos, Pos) -> real, i: nat)
    requires SkillsAttachable(mains, subs, skills, true)
    requires i < |skills|
    ensures GraphEdges(mains, subs, skills, true, dist)[|mains| + |subs| + i]
            == RingEdge(skills, i, SKILL_RADIUS, 1 + |mains| + |subs|, None, false, CertNodes(mains, subs), dist)[0]
  {
    GraphEdgesSplit(mains, subs, skills, true, dist);
    RingEdgesShape(skills, |skills|, SKILL_RADIUS, 1 + |mains| + |subs|, None, false, CertNodes(mains, subs), dist);
  }

  /** Edge `e` ends at node `target` and comes from the node among ids
      1..certs-1 of `nodes` nearest to `here`, the lowest id on a tie. */
  ghost predicate NearestEdge(e: Edge, nodes: seq<Node>, target: int, certs: int, here: Pos, dist: (Pos, Pos) -> real)
    requires certs <= |nodes|
  {
    && e.target == target
    && 1 <= e.source < certs
    && (forall j :: 1 <= j < certs ==> dist(nodes[e.source].pos, here) <= dist(nodes[j].pos, here))
    && (forall j :: 1 <= j < e.source ==> dist(nodes[e.source].pos, here) < dist(nodes[j].pos, here))
  }

  /** The edge from the `Nearest` id of the placed nodes satisfies
      `NearestEdge` on any longer list that starts with them. */
  lemma {:induction false} NearestAmong(e: Edge, nodes: seq<Node>, placed: seq<Node>, startId: int, target: int,
                                        p: Pos, dist: (Pos, Pos) -> real)
    requires 1 < startId <= |placed| <= |nodes|
    requires forall j :: 0 <= j < startId ==> nodes[j] == placed[j]
    requires e == Edge(Nearest(placed, startId, p, dist), target)
    ensures NearestEdge(e, nodes, target, startId, p, dist)
  {
    NearestIsFirstMin(placed, startId, p, dist);
  }

  /** The edge of skill item `i` comes from the `Nearest` certification node. */
  lemma {:induction false} SkillEdgeSource(mains: seq<Item>, subs: seq<Item>, skills: seq<Item>, dist: (Pos, Pos) -> real, i: nat)
    requires SkillsAttachable(mains, subs, skills, true)
    requires i < |skills|
    ensures 1 < 1 + |mains| + |subs|
    ensures GraphEdges(mains, subs, skills, true, dist)[|mains| + |subs| + i]
            == Edge(Nearest(CertNodes(mains, subs), 1 + |mains| + |subs|, Pos(SKILL_RADIUS, i, |skills|), dist),
                    1 + |mains| + |subs| + i)
  {
    SkillEdgeAt(mains, subs, skills, dist, i);
  }

  /** The graph's nodes start with the certification nodes. */
  lemma {:induction false} CertNodesFirst(mains: seq<Item>, subs: seq<Item>, skills: seq<Item>)
    ensures |CertNodes(mains, subs)| <= |GraphNodes(mains, subs, skills, true)|
    ensures forall j :: 0 <= j < |CertNodes(mains, subs)| ==>
              GraphNodes(mains, subs, skills, true)[j] == CertNodes(mains, subs)[j]
  {
    GraphNodesSplit(mains, subs, skills, true);
  }

  /** The edge of skill item `i` ends at the skill's node and comes from the
      certification node nearest to the skill's slot, the lowest id on a tie. */
  lemma {:induction false} SkillEdgeOf(mains: seq<Item>, subs: seq<Item>, skills: seq<Item>, dist: (Pos, Pos) -> real, i: nat)
    requires SkillsAttachable(mains, subs, skills, true)
    requires i < |skills|
    ensures NearestEdge(GraphEdges(mains, subs, skills, true, dist)[|mains| + |subs| + i],
                        GraphNodes(mains, subs, skills, true),
                        1 + |mains| + |subs| + i, 1 + |mains| + |subs|, Pos(SKILL_RADIUS, i, |skills|), dist)
  {
    SkillEdgeSource(mains, subs, skills, dist, i);
    CertNodesFirst(mains, subs, skills);
    NearestAmong(GraphEdges(mains, subs, skills, true, dist)[|mains| + |subs| + i],
                 GraphNodes(mains, subs, skills, true), CertNodes(mains, subs),
                 1 + |mains| + |subs|, 1 + |mains| + |subs| + i, Pos(SKILL_RADIUS, i, |skills|), dist);
  }

  /** A skill node hangs under the certification node (id 1..M+S, never the
      center) nearest to it, the lowest such id on a tie. */
  lemma {:induction false} SkillEdges(mains: seq<Item>, subs: seq<Item>, skills: seq<Item>, dist: (Pos, Pos) -> real)
    requires SkillsAttachable(mains, subs, skills, true)
    ensures forall i :: 0 <= i < |skills| ==>
              NearestEdge(GraphEdges(mains, subs, skills, true, dist)[|mains| + |subs| + i],
                          GraphNodes(mains, subs, skills, true),
                          1 + |mains| + |subs| + i, 1 + |mains| + |subs|, Pos(SKILL_RADIUS, i, |skills|), dist)
  {
    forall i | 0 <= i < |skills|
      ensures NearestEdge(GraphEdges(mains, subs, skills, true, dist)[|mains| + |subs| + i],
                          GraphNodes(mains, subs, skills, true),
                          1 + |mains| + |subs| + i, 1 + |mains| + |subs|, Pos(SKILL_RADIUS, i, |skills|), dist)
    {
      SkillEdgeOf(mains, subs, skills, dist, i);
    }
  }

  /** The graph of a table: one center, one node per distinct main
      certification, one per row and, when shown, one per distinct text skill;
      the edge count is the node count minus one. */
  lemma {:induction false} GraphOfTable(g: CertificationGraph, showSkills: bool, dist: (Pos, Pos) -> real)
    requires g.Valid()
    ensures SkillsAttachable(g.mainCerts, g.subCerts, g.skills, showSkills)
    ensures |g.mainCerts| == |Distinct(MainCertsOf(g.df))|
    ensures |g.subCerts| == |g.df|
    ensures |g.skills| == |TextSkillSet(g.df)|
    ensures |GraphNodes(g.mainCerts, g.subCerts, g.skills, showSkills)|
            == 1 + |Distinct(MainCertsOf(g.df))| + |g.df| + (if showSkills then |TextSkillSet(g.df)| else 0)
    ensures |GraphEdges(g.mainCerts, g.subCerts, g.skills, showSkills, dist)|
            == |GraphNodes(g.mainCerts, g.subCerts, g.skills, showSkills)| - 1
  {
    SkillsNeedRows(g);
    MainItemsFromTable(g.df);
    SubItemsFromTable(g.df);
    SkillSetFromTable(g.df);
    SkillListSize(g.skills, TextSkillSet(g.df));
    GraphNodeIds(g.mainCerts, g.subCerts, g.skills, showSkills);
    GraphEdgeShape(g.mainCerts, g.subCerts, g.skills, showSkills, dist);
  }

  /** A duplicate-free list of the skills has as many entries as the set. */
  lemma {:induction false} SkillListSize(items: seq<Item>, skills: set<string>)
    requires IsSkillList(items, skills)
    ensures |items| == |skills|
    decreases |items|
  {
    if items != [] {
      var n := |items| - 1;
      var last := items[n].name;
      var rest := skills - {last};
      forall s | s in rest ensures exists i :: 0 <= i < n && items[..n][i].name == s {
        var i :| 0 <= i < |items| && items[i].name == s;
        assert i != n;
        assert items[..n][i] == items[i];
      }
      assert IsSkillList(items[..n], rest);
      SkillListSize(items[..n], rest);
    } else {
      assert skills == {};
    }
  }
}
