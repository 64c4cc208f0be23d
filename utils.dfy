/** The two aggregations of `utils.py`: hours per year over an existing `year`
    column (a pandas `groupby` sum) and hours per skill accumulated in a
    dictionary by a loop over the rows. */
module Utils {
  import opened Rows
  import opened Seqs
  import opened Order

  // ---------------------------------------------------------------------
  // Hours per year
  // ---------------------------------------------------------------------

  /** One row of `groupby('year')[...].sum().reset_index(name='hours')`. */
  datatype YearHours = YearHours(year: int, hours: real)

  predicate HasYear(r: YearRow)
  {
    r.year.Some?
  }

  /** The present values of the `year` column, row by row. */
  function PresentYears(frame: seq<YearRow>): seq<int>
  {
    if frame == [] then []
    else
      var n := |frame| - 1;
      PresentYears(frame[..n]) + (if frame[n].year.Some? then [frame[n].year.value] else [])
  }

  lemma {:induction false} PresentYearsMembers(frame: seq<YearRow>, y: int)
    ensures y in PresentYears(frame) <==> exists i :: 0 <= i < |frame| && frame[i].year == Some(y)
  {
    if frame != [] {
      var n := |frame| - 1;
      PresentYearsMembers(frame[..n], y);
      assert forall i :: 0 <= i < n ==> frame[..n][i] == frame[i];
      var last := if frame[n].year.Some? then [frame[n].year.value] else [];
      assert y in PresentYears(frame) <==> y in PresentYears(frame[..n]) || y in last;
    }
  }

  /** The summed workload (missing workloads skipped, as pandas does) of the
      rows whose year lies in `years`. */
  function HoursIn(frame: seq<YearRow>, years: set<int>): real
  {
    if frame == [] then 0.0
    else
      var last := frame[|frame| - 1];
      HoursIn(frame[..|frame| - 1], years)
        + (if last.year.Some? && last.year.value in years then Hours(last.row) else 0.0)
  }

  /** The summed workload of the rows of one year. */
  function YearTotal(frame: seq<YearRow>, y: int): real
  {
    HoursIn(frame, {y})
  }

  /** The `groupby` keys: the distinct present years, ascending (missing
      years form no group). */
  function GroupYears(frame: seq<YearRow>): (ys: seq<int>)
    ensures forall i, j :: 0 <= i < j < |ys| ==> ys[i] < ys[j]
  {
    var d := Distinct(PresentYears(frame));
    SortedIntsIncrease(d);
    SortBy(d, IntLe)
  }

  lemma {:induction false} GroupYearsMembers(frame: seq<YearRow>, y: int)
    ensures y in GroupYears(frame) <==> exists i :: 0 <= i < |frame| && frame[i].year == Some(y)
  {
    SortedIntsIncrease(Distinct(PresentYears(frame)));
    DistinctMembers(PresentYears(frame), y);
    PresentYearsMembers(frame, y);
  }

  /** `calculate_hours_per_year`: one entry per group, in ascending order of
      year, holding the summed workload of that year's rows. */
  function HoursPerYear(frame: seq<YearRow>): (table: seq<YearHours>)
    ensures |table| == |GroupYears(frame)|
    ensures forall k :: 0 <= k < |table| ==> table[k].year == GroupYears(frame)[k]
    ensures forall i, j :: 0 <= i < j < |table| ==> table[i].year < table[j].year
    ensures forall k :: 0 <= k < |table| ==> table[k].hours == YearTotal(frame, table[k].year)
  {
    var ys := GroupYears(frame);
    seq(|ys|, k requires 0 <= k < |ys| => YearHours(ys[k], YearTotal(frame, ys[k])))
  }

  /** The table has an entry for a year exactly when some row has that year. */
  lemma {:induction false} HoursPerYearKeys(frame: seq<YearRow>, y: int)
    ensures (exists k :: 0 <= k < |HoursPerYear(frame)| && HoursPerYear(frame)[k].year == y)
        <==> (exists i :: 0 <= i < |frame| && frame[i].year == Some(y))
  {
    var ys := GroupYears(frame);
    var table := HoursPerYear(frame);
    GroupYearsMembers(frame, y);
    if y in ys {
      var k := IndexIn(ys, y);
      assert table[k].year == y;
    }
    if exists k :: 0 <= k < |table| && table[k].year == y {
      var k :| 0 <= k < |table| && table[k].year == y;
      assert ys[k] == y;
    }
  }

  /** The position of a member of a list. */
  function IndexIn(ys: seq<int>, y: int): (k: nat)
    requires y in ys
    ensures k < |ys| && ys[k] == y
  {
    if ys[0] == y then 0 else 1 + IndexIn(ys[1..], y)
  }

  /** The total of the `hours` column. */
  function TableHours(table: seq<YearHours>): real
  {
    if table == [] then 0.0 else TableHours(table[..|table| - 1]) + table[|table| - 1].hours
  }

  lemma {:induction false} HoursInUnion(frame: seq<YearRow>, a: set<int>, b: set<int>)
    requires a !! b
    ensures HoursIn(frame, a + b) == HoursIn(frame, a) + HoursIn(frame, b)
  {
    if frame != [] {
      HoursInUnion(frame[..|frame| - 1], a, b);
    }
  }

  /** Summing the per-key totals of distinct keys sums the rows of all those keys. */
  lemma {:induction false} KeyTotals(frame: seq<YearRow>, table: seq<YearHours>, ys: seq<int>)
    requires |table| == |ys| && NoDup(ys)
    requires forall k :: 0 <= k < |ys| ==> table[k].hours == YearTotal(frame, ys[k])
    ensures TableHours(table) == HoursIn(frame, set y | y in ys)
  {
    if ys == [] {
      assert (set y | y in ys) == {};
      HoursInEmpty(frame);
    } else {
      var n := |ys| - 1;
      assert NoDup(ys[..n]);
      KeyTotals(frame, table[..n], ys[..n]);
      assert (set y | y in ys) == (set y | y in ys[..n]) + {ys[n]};
      assert ys[n] !in ys[..n];
      HoursInUnion(frame, set y | y in ys[..n], {ys[n]});
    }
  }

  lemma {:induction false} HoursInEmpty(frame: seq<YearRow>)
    ensures HoursIn(frame, {}) == 0.0
  {
    if frame != [] {
      HoursInEmpty(frame[..|frame| - 1]);
    }
  }

  /** A key set covering every present year selects every row that has a year. */
  lemma {:induction false} HoursInCovering(frame: seq<YearRow>, years: set<int>)
    requires forall i :: 0 <= i < |frame| && frame[i].year.Some? ==> frame[i].year.value in years
    ensures HoursIn(frame, years) == TotalHours(RowsOf(Filter(frame, HasYear)))
  {
    if frame != [] {
      var n := |frame| - 1;
      var prefix := frame[..n];
      assert forall i :: 0 <= i < n ==> prefix[i].year.Some? ==> prefix[i].year.value in years by {
        assert forall i :: 0 <= i < n ==> prefix[i] == frame[i];
      }
      HoursInCovering(prefix, years);
      var kept := Filter(prefix, HasYear);
      if HasYear(frame[n]) {
        assert Filter(frame, HasYear) == kept + [frame[n]];
        TotalHoursSnoc(kept, frame[n]);
      } else {
        assert Filter(frame, HasYear) == kept by {
          assert kept + [] == kept;
        }
      }
    }
  }

  /** Conservation: the `hours` column sums to the workload of every row that
      has a year. */
  lemma {:induction false} HoursPerYearConserves(frame: seq<YearRow>)
    ensures TableHours(HoursPerYear(frame)) == TotalHours(RowsOf(Filter(frame, HasYear)))
  {
    var ys := GroupYears(frame);
    var table := HoursPerYear(frame);
    var years := set y | y in ys;
    assert NoDup(ys);
    KeyTotals(frame, table, ys);
    forall i | 0 <= i < |frame| && frame[i].year.Some?
      ensures frame[i].year.value in years
    {
      GroupYearsMembers(frame, frame[i].year.value);
    }
    HoursInCovering(frame, years);
  }

  // ---------------------------------------------------------------------
  // Hours per skill
  // ---------------------------------------------------------------------

  /** One pass of the inner loop: a listed skill and its row's workload. */
  datatype Visit = Visit(skill: string, workload: Option<real>)

  /** Python `float` addition, where `None` stands for NaN and absorbs. */
  function AddHours(a: Option<real>, b: Option<real>): (r: Option<real>)
    ensures r.Some? <==> a.Some? && b.Some?
    ensures r.Some? ==> r.value == a.value + b.value
  {
    if a.Some? && b.Some? then Some(a.value + b.value) else None
  }

  /** The visits for one list of skills sharing a workload. */
  function VisitsOf(skills: seq<string>, w: Option<real>): (vs: seq<Visit>)
    ensures |vs| == |skills|
  {
    if skills == [] then [] else VisitsOf(skills[..|skills| - 1], w) + [Visit(skills[|skills| - 1], w)]
  }

  /** Every visit of the loop over the rows, in order: each listed skill of
      every row whose skills cell is text. */
  function Visits(rows: seq<Row>): seq<Visit>
  {
    if rows == [] then []
    else Visits(rows[..|rows| - 1]) + VisitsOf(TextSkills(rows[|rows| - 1]), rows[|rows| - 1].workload)
  }

  function VisitedSkills(vs: seq<Visit>): seq<string>
  {
    if vs == [] then [] else VisitedSkills(vs[..|vs| - 1]) + [vs[|vs| - 1].skill]
  }

  /** The workloads added to skill `k`, one per visit of `k`, in order. */
  function WorkloadsFor(vs: seq<Visit>, k: string): seq<Option<real>>
  {
    if vs == [] then []
    else WorkloadsFor(vs[..|vs| - 1], k) + (if vs[|vs| - 1].skill == k then [vs[|vs| - 1].workload] else [])
  }

  /** A skill collects a workload exactly when it is visited. */
  lemma {:induction false} WorkloadsForEmpty(vs: seq<Visit>, k: string)
    ensures WorkloadsFor(vs, k) == [] <==> k !in VisitedSkills(vs)
  {
    if vs != [] {
      WorkloadsForEmpty(vs[..|vs| - 1], k);
    }
  }

  /** The value a dictionary entry ends with: set to the first workload,
      then `+=` each later one. */
  function Accumulate(ws: seq<Option<real>>): Option<real>
    requires ws != []
  {
    if |ws| == 1 then ws[0] else AddHours(Accumulate(ws[..|ws| - 1]), ws[|ws| - 1])
  }

  /** A Python dictionary: its keys in insertion order and its entries. */
  datatype SkillDict = SkillDict(keys: seq<string>, hours: map<string, Option<real>>)

  /** One pass of the inner loop: an existing key has the workload added to
      it, a new key is inserted with the workload (and goes last in the key
      order). */
  function Insert(d: SkillDict, v: Visit): SkillDict
  {
    if v.skill in d.hours then SkillDict(d.keys, d.hours[v.skill := AddHours(d.hours[v.skill], v.workload)])
    else SkillDict(d.keys + [v.skill], d.hours[v.skill := v.workload])
  }

  /** The dictionary that the visits `vs` leave behind, starting empty. */
  function DictAfter(vs: seq<Visit>): (d: SkillDict)
    ensures forall i :: 0 <= i < |d.keys| ==> d.keys[i] in d.hours
  {
    if vs == [] then SkillDict([], map[])
    else Insert(DictAfter(vs[..|vs| - 1]), vs[|vs| - 1])
  }

  lemma {:induction false} DictAfterSnoc(vs: seq<Visit>, v: Visit)
    ensures DictAfter(vs + [v]) == Insert(DictAfter(vs), v)
  {
    assert (vs + [v])[..|vs|] == vs;
  }

  lemma {:induction false} AccumulateSnoc(ws: seq<Option<real>>, w: Option<real>)
    ensures Accumulate(ws + [w]) == if ws == [] then w else AddHours(Accumulate(ws), w)
  {
    if ws != [] {
      assert (ws + [w])[..|ws + [w]| - 1] == ws;
    }
  }

  /** One more visit adds its workload to its own skill only. */
  lemma {:induction false} WorkloadsForSnoc(vs: seq<Visit>, v: Visit, k: string)
    ensures WorkloadsFor(vs + [v], k) ==
      if v.skill == k then WorkloadsFor(vs, k) + [v.workload] else WorkloadsFor(vs, k)
  {
    var vs' := vs + [v];
    assert vs'[..|vs'| - 1] == vs;
    assert WorkloadsFor(vs, k) + [] == WorkloadsFor(vs, k);
  }

  lemma {:induction false} VisitedSkillsSnoc(vs: seq<Visit>, v: Visit)
    ensures VisitedSkills(vs + [v]) == VisitedSkills(vs) + [v.skill]
  {
    var vs' := vs + [v];
    assert vs'[..|vs'| - 1] == vs;
  }

  /** What the dictionary holds for one skill: it is a key, and has an entry,
      exactly when it was visited, and its entry is the first workload it
      collected with every later one added. */
  lemma {:induction false} DictAfterEntry(vs: seq<Visit>, k: string)
    ensures k in DictAfter(vs).keys <==> k in VisitedSkills(vs)
    ensures k in DictAfter(vs).hours <==> k in VisitedSkills(vs)
    ensures k in DictAfter(vs).hours ==>
              WorkloadsFor(vs, k) != [] && DictAfter(vs).hours[k] == Accumulate(WorkloadsFor(vs, k))
  {
    if vs != [] {
      var n := |vs| - 1;
      var p := vs[..n];
      var v := vs[n];
      assert vs == p + [v];
      DictAfterEntry(p, k);
      DictAfterSnoc(p, v);
      VisitedSkillsSnoc(p, v);
      WorkloadsForSnoc(p, v, k);
      WorkloadsForEmpty(p, k);
      if k == v.skill {
        AccumulateSnoc(WorkloadsFor(p, k), v.workload);
      }
    }
  }

  /** The keys are the visited skills, each once, in first-visit order. */
  lemma {:induction false} DictAfterKeys(vs: seq<Visit>)
    ensures DictAfter(vs).keys == Distinct(VisitedSkills(vs))
    ensures NoDup(DictAfter(vs).keys)
  {
    if vs != [] {
      var n := |vs| - 1;
      var p := vs[..n];
      var v := vs[n];
      assert vs == p + [v];
      DictAfterKeys(p);
      DictAfterSnoc(p, v);
      VisitedSkillsSnoc(p, v);
      DistinctSnoc(VisitedSkills(p), v.skill);
      DistinctMembers(VisitedSkills(p), v.skill);
      DictAfterEntry(p, v.skill);
    }
  }

  /** The inner loop of `calculate_hours_per_skill` over one row's skill
      list: each skill's entry is created with the row's workload or has the
      workload added to it. */
  method AddRowSkills(keys: seq<string>, hours: map<string, Option<real>>, skills: seq<string>,
                      workload: Option<real>, ghost before: seq<Visit>)
    returns (keys': seq<string>, hours': map<string, Option<real>>)
    requires SkillDict(keys, hours) == DictAfter(before)
    ensures SkillDict(keys', hours') == DictAfter(before + VisitsOf(skills, workload))
  {
    keys', hours' := keys, hours;
    var j := 0;
    assert before + VisitsOf(skills[..0], workload) == before by {
      assert before + [] == before;
    }
    while j < |skills|
      invariant 0 <= j <= |skills|
      invariant SkillDict(keys', hours') == DictAfter(before + VisitsOf(skills[..j], workload))
    {
      var skill := skills[j];
      VisitsOfStep(before, skills, j, workload);
      DictAfterSnoc(before + VisitsOf(skills[..j], workload), Visit(skill, workload));
      if skill in hours' {
        hours' := hours'[skill := AddHours(hours'[skill], workload)];
      } else {
        hours' := hours'[skill := workload];
        keys' := keys' + [skill];
      }
      j := j + 1;
    }
    assert skills[..j] == skills;
  }

  lemma {:induction false} VisitsOfStep(before: seq<Visit>, skills: seq<string>, j: nat, w: Option<real>)
    requires j < |skills|
    ensures before + VisitsOf(skills[..j + 1], w) == (before + VisitsOf(skills[..j], w)) + [Visit(skills[j], w)]
  {
    assert skills[..j + 1][..j] == skills[..j];
  }

  /** `calculate_hours_per_skill`: the rows are visited in order, and the
      skills of each row whose skills cell is text are added one by one; the
      dictionary ends as the visits determine. */
  method CalculateHoursPerSkill(df: seq<Row>) returns (skillHours: SkillDict)
    ensures skillHours == DictAfter(Visits(df))
  {
    var keys: seq<string> := [];
    var hours: map<string, Option<real>> := map[];
    var i := 0;
    while i < |df|
      invariant 0 <= i <= |df|
      invariant SkillDict(keys, hours) == DictAfter(Visits(df[..i]))
    {
      var row := df[i];
      VisitsPrefix(df, i);
      if row.skills.Text? {
        keys, hours := AddRowSkills(keys, hours, row.skills.decoded, row.workload, Visits(df[..i]));
      }
      i := i + 1;
    }
    assert df[..i] == df;
    skillHours := SkillDict(keys, hours);
  }

  // ---------------------------------------------------------------------
  // What the dictionary holds
  // ---------------------------------------------------------------------

  predicate HasTextSkills(r: Row)
  {
    r.skills.Text?
  }

  lemma {:induction false} VisitedSkillsOf(rows: seq<Row>, k: string)
    ensures k in VisitedSkills(Visits(rows)) <==> exists i :: 0 <= i < |rows| && k in TextSkills(rows[i])
  {
    if rows != [] {
      var n := |rows| - 1;
      VisitedSkillsOf(rows[..n], k);
      var vs := VisitsOf(TextSkills(rows[n]), rows[n].workload);
      VisitedSkillsAppend(Visits(rows[..n]), vs);
      assert forall i :: 0 <= i < n ==> rows[..n][i] == rows[i];
      assert k in VisitedSkills(vs) <==> k in TextSkills(rows[n]) by {
        VisitedSkillsOfList(TextSkills(rows[n]), rows[n].workload);
      }
    }
  }

  lemma {:induction false} VisitedSkillsAppend(a: seq<Visit>, b: seq<Visit>)
    ensures VisitedSkills(a + b) == VisitedSkills(a) + VisitedSkills(b)
    decreases |b|
  {
    if b != [] {
      var n := |b| - 1;
      assert (a + b)[..|a + b| - 1] == a + b[..n];
      VisitedSkillsAppend(a, b[..n]);
    } else {
      assert a + b == a;
    }
  }

  lemma {:induction false} VisitedSkillsOfList(skills: seq<string>, w: Option<real>)
    ensures VisitedSkills(VisitsOf(skills, w)) == skills
  {
    if skills != [] {
      var n := |skills| - 1;
      VisitedSkillsOfList(skills[..n], w);
      assert skills[..n] + [skills[n]] == skills;
    }
  }

  /** The keys are exactly the skills listed by rows whose skills cell is
      text, each once, in first-occurrence order; with no such skill the
      dictionary is empty. */
  lemma {:induction false} HoursPerSkillKeys(df: seq<Row>)
    ensures DictAfter(Visits(df)).keys == Distinct(VisitedSkills(Visits(df)))
    ensures forall k :: k in DictAfter(Visits(df)).hours <==>
              exists i :: 0 <= i < |df| && k in TextSkills(df[i])
    ensures NoDup(DictAfter(Visits(df)).keys)
    ensures DictAfter(Visits(df)).keys == [] <==> forall i :: 0 <= i < |df| ==> TextSkills(df[i]) == []
  {
    var d := DictAfter(Visits(df));
    DictAfterKeys(Visits(df));
    forall k ensures k in d.hours <==> exists i :: 0 <= i < |df| && k in TextSkills(df[i]) {
      DictAfterEntry(Visits(df), k);
      VisitedSkillsOf(df, k);
    }
    if d.keys != [] {
      var k := d.keys[0];
      DictAfterEntry(Visits(df), k);
      assert k in d.hours;
    }
    if exists i :: 0 <= i < |df| && TextSkills(df[i]) != [] {
      var i :| 0 <= i < |df| && TextSkills(df[i]) != [];
      var k := TextSkills(df[i])[0];
      DictAfterEntry(Visits(df), k);
      VisitedSkillsOf(df, k);
      assert k in d.keys;
    }
  }

  /** Visiting a row whose skills cell is not text changes nothing. */
  lemma {:induction false} VisitsSnoc(rows: seq<Row>, r: Row)
    ensures Visits(rows + [r]) == Visits(rows) + VisitsOf(TextSkills(r), r.workload)
  {
    assert (rows + [r])[..|rows|] == rows;
  }

  /** The visits of one more row of a table: none when its skills cell is
      not text. */
  lemma {:induction false} VisitsPrefix(df: seq<Row>, i: nat)
    requires i < |df|
    ensures Visits(df[..i + 1]) == Visits(df[..i]) + VisitsOf(TextSkills(df[i]), df[i].workload)
    ensures !df[i].skills.Text? ==> Visits(df[..i + 1]) == Visits(df[..i])
  {
    assert df[..i + 1] == df[..i] + [df[i]];
    VisitsSnoc(df[..i], df[i]);
    assert Visits(df[..i]) + [] == Visits(df[..i]);
  }

  lemma {:induction false} VisitsIgnoreNonText(rows: seq<Row>)
    ensures Visits(rows) == Visits(Filter(rows, HasTextSkills))
  {
    if rows != [] {
      var n := |rows| - 1;
      var p, r := rows[..n], rows[n];
      VisitsIgnoreNonText(p);
      var kept := Filter(p, HasTextSkills);
      VisitsPrefix(rows, n);
      assert rows[..n + 1] == rows;
      if HasTextSkills(r) {
        assert Filter(rows, HasTextSkills) == kept + [r];
        VisitsSnoc(kept, r);
      } else {
        assert Filter(rows, HasTextSkills) == kept by {
          assert kept + [] == kept;
        }
      }
    }
  }

  /** Rows whose skills cell is not text leave the dictionary as it is. */
  lemma {:induction false} HoursPerSkillIgnoresNonText(df: seq<Row>, r: Row)
    requires !HasTextSkills(r)
    ensures DictAfter(Visits(df + [r])) == DictAfter(Visits(df))
    ensures DictAfter(Visits(df)) == DictAfter(Visits(Filter(df, HasTextSkills)))
  {
    VisitsSnoc(df, r);
    assert Visits(df) + [] == Visits(df);
    VisitsIgnoreNonText(df);
  }

  /** Every row the skill loop reads (a text skills cell) has a known
      workload; the other rows never touch the dictionary. */
  predicate TextRowsKnown(rows: seq<Row>)
  {
    forall i :: 0 <= i < |rows| && HasTextSkills(rows[i]) ==> rows[i].workload.Some?
  }

  /** A workload in a sum that skips missing values. */
  function OrZero(w: Option<real>): real
  {
    if w.Some? then w.value else 0.0
  }

  /** `n * x` for a count `n`, as repeated addition (see `TimesIsProduct`). */
  function Times(n: nat, x: real): real
  {
    if n == 0 then 0.0 else Times(n - 1, x) + x
  }

  lemma {:induction false} TimesIsProduct(n: nat, x: real)
    ensures Times(n, x) == n as real * x
  {
    if n > 0 {
      TimesIsProduct(n - 1, x);
      assert n as real * x == (n - 1) as real * x + x;
    }
  }

  /** The sum of a list of workloads, missing ones counting 0. */
  function Total(ws: seq<Option<real>>): real
  {
    if ws == [] then 0.0
    else Total(ws[..|ws| - 1]) + OrZero(ws[|ws| - 1])
  }

  /** `sum(workload * skills.count(k))` over the rows with text skills. */
  function SkillWorkload(rows: seq<Row>, k: string): real
  {
    if rows == [] then 0.0
    else SkillWorkload(rows[..|rows| - 1], k) + Times(Count(TextSkills(rows[|rows| - 1]), k), Hours(rows[|rows| - 1]))
  }

  /** `sum(workload * len(skills))` over the rows with text skills. */
  function WeightedSkillCount(rows: seq<Row>): real
  {
    if rows == [] then 0.0
    else WeightedSkillCount(rows[..|rows| - 1]) + Times(|TextSkills(rows[|rows| - 1])|, Hours(rows[|rows| - 1]))
  }

  lemma {:induction false} AccumulateKnown(ws: seq<Option<real>>)
    requires ws != []
    requires None !in ws
    ensures Accumulate(ws) == Some(Total(ws))
  {
    if |ws| > 1 {
      assert ws == ws[..|ws| - 1] + [ws[|ws| - 1]];
      AccumulateKnown(ws[..|ws| - 1]);
    } else {
      assert ws[..0] == [];
    }
  }

  lemma {:induction false} WorkloadsForAppend(a: seq<Visit>, b: seq<Visit>, k: string)
    ensures WorkloadsFor(a + b, k) == WorkloadsFor(a, k) + WorkloadsFor(b, k)
    decreases |b|
  {
    if b != [] {
      var n := |b| - 1;
      assert (a + b)[..|a + b| - 1] == a + b[..n];
      WorkloadsForAppend(a, b[..n], k);
    } else {
      assert a + b == a;
    }
  }

  lemma {:induction false} TotalAppend(a: seq<Option<real>>, b: seq<Option<real>>)
    ensures Total(a + b) == Total(a) + Total(b)
    decreases |b|
  {
    if b != [] {
      var n := |b| - 1;
      assert (a + b)[..|a + b| - 1] == a + b[..n];
      TotalAppend(a, b[..n]);
    } else {
      assert a + b == a;
    }
  }

  /** The workloads one row's skill list gives skill `k` total the row's
      workload once per listing of `k`. */
  lemma {:induction false} RowWorkloads(skills: seq<string>, w: Option<real>, k: string)
    ensures Total(WorkloadsFor(VisitsOf(skills, w), k)) == Times(Count(skills, k), OrZero(w))
  {
    if skills == [] {
      assert VisitsOf(skills, w) == [];
    } else {
      var n := |skills| - 1;
      var p := VisitsOf(skills[..n], w);
      var v := Visit(skills[n], w);
      var c := Count(skills[..n], k);
      var extra := if skills[n] == k then OrZero(w) else 0.0;
      calc {
        Total(WorkloadsFor(VisitsOf(skills, w), k));
        { assert VisitsOf(skills, w) == p + [v]; }
        Total(WorkloadsFor(p + [v], k));
        { TotalWorkloadsSnoc(p, v, k); }
        Total(WorkloadsFor(p, k)) + extra;
        { RowWorkloads(skills[..n], w, k); }
        Times(c, OrZero(w)) + extra;
        { assert Count(skills, k) == c + (if skills[n] == k then 1 else 0); }
        Times(Count(skills, k), OrZero(w));
      }
    }
  }

  /** The workloads a skill collects total its weighted count, a missing
      workload counting as 0. */
  lemma {:induction false} SkillWorkloadsTotal(rows: seq<Row>, k: string)
    ensures Total(WorkloadsFor(Visits(rows), k)) == SkillWorkload(rows, k)
  {
    if rows != [] {
      var n := |rows| - 1;
      SkillWorkloadsTotal(rows[..n], k);
      var a := Visits(rows[..n]);
      var b := VisitsOf(TextSkills(rows[n]), rows[n].workload);
      WorkloadsForAppend(a, b, k);
      TotalAppend(WorkloadsFor(a, k), WorkloadsFor(b, k));
      RowWorkloads(TextSkills(rows[n]), rows[n].workload, k);
    }
  }

  /** The workloads a skill collects, all known, total its weighted count. */
  lemma {:induction false} SkillWorkloads(rows: seq<Row>, k: string)
    requires TextRowsKnown(rows)
    ensures Total(WorkloadsFor(Visits(rows), k)) == SkillWorkload(rows, k)
    ensures None !in WorkloadsFor(Visits(rows), k)
  {
    SkillWorkloadsTotal(rows, k);
    WorkloadsForMissing(rows, k);
  }

  /** Each entry holds the workload of its skill's rows, once per listing:
      a skill listed twice by a row collects that row's workload twice. */
  lemma {:induction false} HoursPerSkillValues(df: seq<Row>)
    requires TextRowsKnown(df)
    ensures forall k :: k in DictAfter(Visits(df)).hours ==> DictAfter(Visits(df)).hours[k] == Some(SkillWorkload(df, k))
  {
    var vs := Visits(df);
    forall k | k in DictAfter(vs).hours ensures DictAfter(vs).hours[k] == Some(SkillWorkload(df, k)) {
      DictAfterEntry(vs, k);
      WorkloadsForEmpty(vs, k);
      SkillWorkloads(df, k);
      AccumulateKnown(WorkloadsFor(vs, k));
    }
  }

  /** `sum(skill_hours.values())` in key order, NaN absorbing. */
  function DictSum(keys: seq<string>, hours: map<string, Option<real>>): Option<real>
    requires forall i :: 0 <= i < |keys| ==> keys[i] in hours
  {
    if keys == [] then Some(0.0)
    else AddHours(DictSum(keys[..|keys| - 1], hours), hours[keys[|keys| - 1]])
  }

  /** The per-key totals over a list of keys. */
  function KeySum(vs: seq<Visit>, ks: seq<string>): real
  {
    if ks == [] then 0.0 else KeySum(vs, ks[..|ks| - 1]) + Total(WorkloadsFor(vs, ks[|ks| - 1]))
  }

  /** The total workload over all visits. */
  function VisitTotal(vs: seq<Visit>): real
  {
    if vs == [] then 0.0
    else VisitTotal(vs[..|vs| - 1]) + OrZero(vs[|vs| - 1].workload)
  }

  lemma {:induction false} TotalWorkloadsSnoc(vs: seq<Visit>, v: Visit, k: string)
    ensures Total(WorkloadsFor(vs + [v], k)) ==
      Total(WorkloadsFor(vs, k)) + (if v.skill == k then OrZero(v.workload) else 0.0)
  {
    var prior := WorkloadsFor(vs, k);
    WorkloadsForSnoc(vs, v, k);
    if v.skill == k {
      assert (prior + [v.workload])[..|prior|] == prior;
    }
  }

  lemma {:induction false} KeySumStep(vs: seq<Visit>, v: Visit, ks: seq<string>)
    ensures KeySum(vs + [v], ks) ==
      KeySum(vs, ks) + Times(Count(ks, v.skill), OrZero(v.workload))
  {
    if ks != [] {
      var n := |ks| - 1;
      var k := ks[n];
      var x := OrZero(v.workload);
      var c := Count(ks[..n], v.skill);
      var extra := if v.skill == k then x else 0.0;
      calc {
        KeySum(vs + [v], ks);
        KeySum(vs + [v], ks[..n]) + Total(WorkloadsFor(vs + [v], k));
        { KeySumStep(vs, v, ks[..n]); TotalWorkloadsSnoc(vs, v, k); }
        (KeySum(vs, ks[..n]) + Total(WorkloadsFor(vs, k))) + (Times(c, x) + extra);
        KeySum(vs, ks) + (Times(c, x) + extra);
        { assert Count(ks, v.skill) == c + (if v.skill == k then 1 else 0); }
        KeySum(vs, ks) + Times(Count(ks, v.skill), x);
      }
    }
  }

  /** Summing the per-key totals over distinct keys covering every visited
      skill counts every visit once. */
  lemma {:induction false} KeySumCovering(vs: seq<Visit>, ks: seq<string>)
    requires NoDup(ks)
    requires forall k :: k in VisitedSkills(vs) ==> k in ks
    ensures KeySum(vs, ks) == VisitTotal(vs)
  {
    if vs == [] {
      KeySumNone(ks);
    } else {
      var n := |vs| - 1;
      assert VisitedSkills(vs) == VisitedSkills(vs[..n]) + [vs[n].skill];
      KeySumCovering(vs[..n], ks);
      assert vs[..n] + [vs[n]] == vs;
      KeySumStep(vs[..n], vs[n], ks);
      NoDupCount(ks, vs[n].skill);
    }
  }

  lemma {:induction false} KeySumNone(ks: seq<string>)
    ensures KeySum([], ks) == 0.0
  {
    if ks != [] {
      KeySumNone(ks[..|ks| - 1]);
    }
  }

  lemma {:induction false} DictSumKnown(vs: seq<Visit>, keys: seq<string>, hours: map<string, Option<real>>)
    requires forall i :: 0 <= i < |keys| ==> keys[i] in hours
    requires forall i :: 0 <= i < |keys| ==> hours[keys[i]] == Some(Total(WorkloadsFor(vs, keys[i])))
    ensures DictSum(keys, hours) == Some(KeySum(vs, keys))
  {
    if keys != [] {
      DictSumKnown(vs, keys[..|keys| - 1], hours);
    }
  }

  lemma {:induction false} VisitTotalOfRows(rows: seq<Row>)
    ensures VisitTotal(Visits(rows)) == WeightedSkillCount(rows)
  {
    if rows != [] {
      var n := |rows| - 1;
      VisitTotalOfRows(rows[..n]);
      VisitTotalAppend(Visits(rows[..n]), VisitsOf(TextSkills(rows[n]), rows[n].workload));
      VisitTotalOfList(TextSkills(rows[n]), rows[n].workload);
    }
  }

  lemma {:induction false} VisitTotalAppend(a: seq<Visit>, b: seq<Visit>)
    ensures VisitTotal(a + b) == VisitTotal(a) + VisitTotal(b)
    decreases |b|
  {
    if b != [] {
      var n := |b| - 1;
      assert (a + b)[..|a + b| - 1] == a + b[..n];
      VisitTotalAppend(a, b[..n]);
    } else {
      assert a + b == a;
    }
  }

  lemma {:induction false} VisitTotalOfList(skills: seq<string>, w: Option<real>)
    ensures VisitTotal(VisitsOf(skills, w)) == Times(|skills|, OrZero(w))
  {
    if skills != [] {
      var n := |skills| - 1;
      VisitTotalOfList(skills[..n], w);
      var vs := VisitsOf(skills, w);
      assert vs[..|vs| - 1] == VisitsOf(skills[..n], w);
    }
  }

  /** With every workload known, the entries sum to each text-skills row's
      workload times the length of its skill list. */
  lemma {:induction false} HoursPerSkillTotal(df: seq<Row>)
    requires TextRowsKnown(df)
    ensures DictSum(DictAfter(Visits(df)).keys, DictAfter(Visits(df)).hours) == Some(WeightedSkillCount(df))
  {
    var vs := Visits(df);
    var d := DictAfter(vs);
    forall i | 0 <= i < |d.keys| ensures d.keys[i] in d.hours && d.hours[d.keys[i]] == Some(Total(WorkloadsFor(vs, d.keys[i]))) {
      var k := d.keys[i];
      DictAfterEntry(vs, k);
      WorkloadsForEmpty(vs, k);
      SkillWorkloads(df, k);
      AccumulateKnown(WorkloadsFor(vs, k));
    }
    DictSumKnown(vs, d.keys, d.hours);
    DictAfterKeys(vs);
    forall k | k in VisitedSkills(vs) ensures k in d.keys {
      DictAfterEntry(vs, k);
    }
    KeySumCovering(vs, d.keys);
    VisitTotalOfRows(df);
  }

  /** A dictionary entry is NaN exactly when one of the workloads added to
      it is: Python's `+` lets NaN through. */
  lemma {:induction false} AccumulateNaN(ws: seq<Option<real>>)
    requires ws != []
    ensures Accumulate(ws).None? <==> None in ws
  {
    if |ws| > 1 {
      var n := |ws| - 1;
      AccumulateNaN(ws[..n]);
      assert ws == ws[..n] + [ws[n]];
    }
  }

  /** One row's list gives skill `k` a missing workload exactly when it lists
      `k` and the row's workload is missing. */
  lemma {:induction false} RowWorkloadsMissing(skills: seq<string>, w: Option<real>, k: string)
    ensures None in WorkloadsFor(VisitsOf(skills, w), k) <==> k in skills && w.None?
  {
    if skills != [] {
      var n := |skills| - 1;
      var p := VisitsOf(skills[..n], w);
      var v := Visit(skills[n], w);
      assert VisitsOf(skills, w) == p + [v];
      RowWorkloadsMissing(skills[..n], w, k);
      WorkloadsForSnoc(p, v, k);
      assert skills == skills[..n] + [skills[n]];
    }
  }

  /** The workloads skill `k` collects include a missing one exactly when
      some text row listing `k` has no workload. */
  lemma {:induction false} WorkloadsForMissing(rows: seq<Row>, k: string)
    ensures None in WorkloadsFor(Visits(rows), k) <==>
              exists i :: 0 <= i < |rows| && k in TextSkills(rows[i]) && rows[i].workload.None?
  {
    if rows != [] {
      var n := |rows| - 1;
      WorkloadsForMissing(rows[..n], k);
      var a := Visits(rows[..n]);
      var b := VisitsOf(TextSkills(rows[n]), rows[n].workload);
      WorkloadsForAppend(a, b, k);
      RowWorkloadsMissing(TextSkills(rows[n]), rows[n].workload, k);
      assert forall i :: 0 <= i < n ==> rows[..n][i] == rows[i];
    }
  }

  /** One missing workload on a row listing skill `k` makes `k`'s total NaN,
      and nothing else does. */
  lemma {:induction false} HoursPerSkillNaN(df: seq<Row>, k: string)
    requires k in DictAfter(Visits(df)).hours
    ensures DictAfter(Visits(df)).hours[k].None? <==>
              exists i :: 0 <= i < |df| && k in TextSkills(df[i]) && df[i].workload.None?
  {
    var vs := Visits(df);
    DictAfterEntry(vs, k);
    AccumulateNaN(WorkloadsFor(vs, k));
    WorkloadsForMissing(df, k);
  }
}
