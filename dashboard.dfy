/** The dashboard script: how it loads the table, the option lists of its
    three sidebar filters, and the filtering of the table by the selections. */
module Dashboard {
  import opened Rows
  import opened Seqs
  import opened Order
  import Utils
  import Graph

  // ---------------------------------------------------------------------
  // `load_data`
  // ---------------------------------------------------------------------

  /** The `skills` column after loading: a text cell becomes the list it
      holds, any other cell an empty list. */
  function DecodeSkills(cell: Skills): (loaded: Skills)
    ensures loaded.Parsed?
  {
    match cell
    case Text(l) => Parsed(l)
    case _ => Parsed([])
  }

  /** A table as `load_data` leaves it: every skills cell is a list. */
  predicate Loaded(df: seq<Row>)
  {
    forall i :: 0 <= i < |df| ==> df[i].skills.Parsed?
  }

  /** `load_data` (after reading the file): the skills column is decoded,
      every other column is kept. */
  function LoadData(rows: seq<Row>): (df: seq<Row>)
    ensures |df| == |rows| && Loaded(df)
    ensures forall i :: 0 <= i < |rows| ==>
              && df[i].name == rows[i].name
              && df[i].mainCert == rows[i].mainCert
              && df[i].workload == rows[i].workload
              && df[i].date == rows[i].date
              && df[i].skills.items == TextSkills(rows[i])
  {
    seq(|rows|, i requires 0 <= i < |rows| => rows[i].(skills := DecodeSkills(rows[i].skills)))
  }

  /** The skills of a cell that holds a list. */
  function CellItems(r: Row): seq<string>
  {
    if r.skills.Parsed? then r.skills.items else []
  }

  /** After loading no skills cell is text any more, so the `isinstance(...,
      str)` guards of the graph and of the skill-hours loop see no skills:
      the graph has no skills to draw and the skill-hours dictionary stays
      empty, whatever the file holds. */
  lemma {:induction false} LoadedTableHidesSkills(rows: seq<Row>)
    ensures Graph.TextSkillSet(LoadData(rows)) == {}
    ensures Utils.Visits(LoadData(rows)) == []
    ensures Utils.DictAfter(Utils.Visits(LoadData(rows))) == Utils.SkillDict([], map[])
  {
    var df := LoadData(rows);
    LoadedHasNoText(df);
  }

  lemma {:induction false} LoadedHasNoText(df: seq<Row>)
    requires Loaded(df)
    ensures Graph.TextSkillSet(df) == {}
    ensures Utils.Visits(df) == []
  {
    if df != [] {
      var n := |df| - 1;
      assert Loaded(df[..n]) by {
        assert forall i :: 0 <= i < n ==> df[..n][i] == df[i];
      }
      LoadedHasNoText(df[..n]);
      assert TextSkills(df[n]) == [];
      assert Graph.RowSkillSet(df[n]) == {};
    }
  }

  // ---------------------------------------------------------------------
  // `get_unique_values`
  // ---------------------------------------------------------------------

  /** The columns the sidebar offers options for. */
  datatype Column = NameColumn | MainCertColumn | SkillsColumn

  /** The values one row contributes to a column's options: its name, its
      main certification when present, or the skills in its list. */
  function CellValues(r: Row, column: Column): seq<string>
  {
    match column
    case NameColumn => [r.name]
    case MainCertColumn => if r.mainCert.Some? then [r.mainCert.value] else []
    case SkillsColumn => CellItems(r)
  }

  /** The values of a column, row by row, missing values dropped. */
  function ColumnValues(df: seq<Row>, column: Column): seq<string>
  {
    if df == [] then [] else ColumnValues(df[..|df| - 1], column) + CellValues(df[|df| - 1], column)
  }

  /** `get_unique_values`: the distinct values of the column, sorted. The
      skills column is read as lists, which is what loading leaves. */
  function GetUniqueValues(df: seq<Row>, column: Column): (values: seq<string>)
    requires column == SkillsColumn ==> Loaded(df)
    ensures NoDup(values)
    ensures forall i, j :: 0 <= i < j < |values| ==> StrLe(values[i], values[j]) && values[i] != values[j]
  {
    SortedStringsStrictlyIncrease(Distinct(ColumnValues(df, column)));
    SortBy(Distinct(ColumnValues(df, column)), StrLe)
  }

  lemma {:induction false} ColumnValuesMembers(df: seq<Row>, column: Column, x: string)
    ensures x in ColumnValues(df, column) <==> exists i :: 0 <= i < |df| && x in CellValues(df[i], column)
  {
    if df != [] {
      var n := |df| - 1;
      ColumnValuesMembers(df[..n], column, x);
      if exists i :: 0 <= i < |df| && x in CellValues(df[i], column) {
        var i :| 0 <= i < |df| && x in CellValues(df[i], column);
        if i < n {
          assert df[..n][i] == df[i];
        }
      }
      if exists i :: 0 <= i < n && x in CellValues(df[..n][i], column) {
        var i :| 0 <= i < n && x in CellValues(df[..n][i], column);
        assert df[..n][i] == df[i];
      }
    }
  }

  /** A value is offered exactly when some row has it: as its name, as its
      (present) main certification, or in its skill list. */
  lemma {:induction false} UniqueValuesMembers(df: seq<Row>, column: Column, x: string)
    requires column == SkillsColumn ==> Loaded(df)
    ensures column == NameColumn ==>
              (x in GetUniqueValues(df, column) <==> exists i :: 0 <= i < |df| && df[i].name == x)
    ensures column == MainCertColumn ==>
              (x in GetUniqueValues(df, column) <==> exists i :: 0 <= i < |df| && df[i].mainCert == Some(x))
    ensures column == SkillsColumn ==>
              (x in GetUniqueValues(df, column) <==> exists i :: 0 <= i < |df| && x in df[i].skills.items)
  {
    var values := ColumnValues(df, column);
    StrLeIsTotalPreorder();
    assert x in GetUniqueValues(df, column) <==> x in multiset(SortBy(Distinct(values), StrLe));
    DistinctMembers(values, x);
    ColumnValuesMembers(df, column, x);
    if exists i :: 0 <= i < |df| && x in CellValues(df[i], column) {
      var i :| 0 <= i < |df| && x in CellValues(df[i], column);
      assert column == MainCertColumn ==> df[i].mainCert == Some(x);
    }
  }

  /** The option list is the only strictly increasing list of the column's
      values: it does not depend on row order or on repetitions. */
  lemma {:induction false} UniqueValuesCanonical(df: seq<Row>, column: Column, options: seq<string>)
    requires column == SkillsColumn ==> Loaded(df)
    requires SortedBy(options, StrLe) && NoDup(options)
    requires forall x :: x in options <==> exists i :: 0 <= i < |df| && x in CellValues(df[i], column)
    ensures options == GetUniqueValues(df, column)
  {
    var values := GetUniqueValues(df, column);
    StrLeIsTotalPreorder();
    forall x
      ensures x in values <==> x in options
    {
      assert x in values <==> x in multiset(SortBy(Distinct(ColumnValues(df, column)), StrLe));
      DistinctMembers(ColumnValues(df, column), x);
      ColumnValuesMembers(df, column, x);
    }
    StrictlySortedUnique(options, values);
  }

  /** Over a loaded table the skill options are the skills of the text
      cells of the file. */
  lemma {:induction false} LoadedSkillOptions(rows: seq<Row>, x: string)
    ensures x in GetUniqueValues(LoadData(rows), SkillsColumn) <==>
              exists i :: 0 <= i < |rows| && rows[i].skills.Text? && x in rows[i].skills.decoded
  {
    var df := LoadData(rows);
    UniqueValuesMembers(df, SkillsColumn, x);
    if exists i :: 0 <= i < |df| && x in df[i].skills.items {
      var i :| 0 <= i < |df| && x in df[i].skills.items;
      assert rows[i].skills.Text? && x in rows[i].skills.decoded;
    }
    if exists i :: 0 <= i < |rows| && rows[i].skills.Text? && x in rows[i].skills.decoded {
      var i :| 0 <= i < |rows| && rows[i].skills.Text? && x in rows[i].skills.decoded;
      assert x in df[i].skills.items;
    }
  }

  // ---------------------------------------------------------------------
  // The filter block
  // ---------------------------------------------------------------------

  /** The three multiselect widgets' selections (empty = no filter). */
  datatype Selection = Selection(names: seq<string>, mainCerts: seq<string>, skills: seq<string>)

  /** `astype(str)` of the main-certification cell: a missing value becomes
      the text `"nan"`. */
  function MainCertText(r: Row): string
  {
    match r.mainCert
    case Some(v) => v
    case None => "nan"
  }

  /** `isin` on the name column. */
  function NameTest(names: seq<string>): Row -> bool
  {
    (r: Row) => r.name in names
  }

  /** `isin` on the stringified main-certification column. */
  function MainCertTest(certs: seq<string>): Row -> bool
  {
    (r: Row) => MainCertText(r) in certs
  }

  /** `any(skill in x for skill in skills_filter)` on the row's list. */
  function SkillTest(skills: seq<string>): Row -> bool
  {
    (r: Row) => exists j :: 0 <= j < |skills| && skills[j] in CellItems(r)
  }

  /** What a row must satisfy after the first `k` filters of the block:
      each filter applies only when its selection is not empty. */
  function Stage(sel: Selection, k: nat): Row -> bool
  {
    (r: Row) => && (k < 1 || sel.names == [] || NameTest(sel.names)(r))
         && (k < 2 || sel.mainCerts == [] || MainCertTest(sel.mainCerts)(r))
         && (k < 3 || sel.skills == [] || SkillTest(sel.skills)(r))
  }

  /** The table the block leaves: the rows passing every active filter, in order. */
  function Filtered(df: seq<Row>, sel: Selection): seq<Row>
  {
    Filter(df, Stage(sel, 3))
  }

  /** The filter block: starting from a copy of the table, each non-empty
      selection narrows it in turn. */
  method ApplyFilters(df: seq<Row>, sel: Selection) returns (filtered: seq<Row>)
    requires Loaded(df)
    ensures filtered == Filtered(df, sel)
  {
    filtered := df;
    FilterKeepsAll(df, Stage(sel, 0));
    ghost var before := filtered;
    if sel.names != [] {
      filtered := Filter(filtered, NameTest(sel.names));
    }
    FilterNarrow(df, Stage(sel, 0), NameTest(sel.names), sel.names != [], Stage(sel, 1));
    before := filtered;
    if sel.mainCerts != [] {
      filtered := Filter(filtered, MainCertTest(sel.mainCerts));
    }
    FilterNarrow(df, Stage(sel, 1), MainCertTest(sel.mainCerts), sel.mainCerts != [], Stage(sel, 2));
    if sel.skills != [] {
      filtered := Filter(filtered, SkillTest(sel.skills));
    }
    FilterNarrow(df, Stage(sel, 2), SkillTest(sel.skills), sel.skills != [], Stage(sel, 3));
  }

  /** A row survives exactly when it is in the table and passes every
      filter whose selection is not empty. */
  lemma {:induction false} FilteredMembers(df: seq<Row>, sel: Selection, r: Row)
    ensures r in Filtered(df, sel) <==>
              && r in df
              && (sel.names == [] || r.name in sel.names)
              && (sel.mainCerts == [] || MainCertText(r) in sel.mainCerts)
              && (sel.skills == [] || exists j :: 0 <= j < |sel.skills| && sel.skills[j] in CellItems(r))
  {
    FilterMembers(df, Stage(sel, 3));
    assert Stage(sel, 3)(r) <==>
             && (sel.names == [] || NameTest(sel.names)(r))
             && (sel.mainCerts == [] || MainCertTest(sel.mainCerts)(r))
             && (sel.skills == [] || SkillTest(sel.skills)(r));
  }

  /** The filtered table is the input table with rows deleted, order kept. */
  lemma {:induction false} FilteredIsSubsequence(df: seq<Row>, sel: Selection)
    ensures IsSubsequence(Filtered(df, sel), df)
    ensures |Filtered(df, sel)| <= |df|
  {
    FilterIsSubsequence(df, Stage(sel, 3));
  }

  /** With nothing selected the table is shown whole. */
  lemma {:induction false} EmptySelectionKeepsTable(df: seq<Row>)
    ensures Filtered(df, Selection([], [], [])) == df
  {
    FilterKeepsAll(df, Stage(Selection([], [], []), 3));
  }

  /** The filters are conjunctive: applying them in the opposite order
      (skills, then main certification, then name) gives the same table. */
  lemma {:induction false} FilterOrderIrrelevant(df: seq<Row>, sel: Selection)
    ensures Filtered(df, sel)
            == Filter(Filter(Filter(df, Only(sel.skills != [], SkillTest(sel.skills))),
                             Only(sel.mainCerts != [], MainCertTest(sel.mainCerts))),
                      Only(sel.names != [], NameTest(sel.names)))
  {
    var s, m, n := Only(sel.skills != [], SkillTest(sel.skills)),
                   Only(sel.mainCerts != [], MainCertTest(sel.mainCerts)),
                   Only(sel.names != [], NameTest(sel.names));
    var sm := (x: Row) => s(x) && m(x);
    forall x
      ensures sm(x) == (s(x) && (!true || m(x)))
    {
    }
    FilterNarrow(df, s, m, true, sm);
    forall x
      ensures Stage(sel, 3)(x) == (sm(x) && (!true || n(x)))
    {
    }
    FilterNarrow(df, sm, n, true, Stage(sel, 3));
  }

  /** A filter that applies only when its selection is not empty. */
  function Only(active: bool, test: Row -> bool): Row -> bool
  {
    (r: Row) => !active || test(r)
  }

  /** Filtering the filtered table again by the same selection changes nothing. */
  lemma {:induction false} FilteredIdempotent(df: seq<Row>, sel: Selection)
    ensures Filtered(Filtered(df, sel), sel) == Filtered(df, sel)
  {
    FilterKeepsAll(Filtered(df, sel), Stage(sel, 3));
  }

  /** A row without a main certification is stringified to `"nan"`: once a
      main certification is selected from the offered options, such a row
      can only survive if some row's main certification is the text
      `"nan"` itself. */
  lemma {:induction false} MissingMainCertFiltered(df: seq<Row>, sel: Selection, r: Row)
    requires sel.mainCerts != []
    requires forall c :: c in sel.mainCerts ==> c in GetUniqueValues(df, MainCertColumn)
    requires r.mainCert.None?
    requires r in Filtered(df, sel)
    ensures exists i :: 0 <= i < |df| && df[i].mainCert == Some("nan")
  {
    FilteredMembers(df, sel, r);
    assert "nan" in sel.mainCerts;
    UniqueValuesMembers(df, MainCertColumn, "nan");
  }
}
