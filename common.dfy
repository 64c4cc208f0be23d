/** The certification table as the rest of the model sees it. */
module Rows {

  datatype Option<+T> = None | Some(value: T)

  /** The `skills` cell of a row. `Text` is a string cell holding a list
      literal, given here already decoded; `Parsed` is a cell that already
      holds a list (what `load_data` leaves behind); `Absent` is any other
      value (a missing cell). */
  datatype Skills = Text(decoded: seq<string>) | Parsed(items: seq<string>) | Absent

  /** One row of the certification table; the display-only columns are not
      part of any computation and are omitted. */
  datatype Row = Row(
    name: string,
    mainCert: Option<string>,
    workload: Option<real>,
    date: string,
    skills: Skills)

  /** A row of a frame that also carries a `year` column (missing = None). */
  datatype YearRow = YearRow(row: Row, year: Option<int>)

  /** The contribution of a row to a pandas sum: missing workloads are skipped. */
  function Hours(r: Row): real
  {
    if r.workload.Some? then r.workload.value else 0.0
  }

  /** pandas `sum()` over the workload column (missing values skipped). */
  function TotalHours(rows: seq<Row>): real
  {
    if rows == [] then 0.0 else TotalHours(rows[..|rows| - 1]) + Hours(rows[|rows| - 1])
  }

  /** The decoded skill list of a row whose cell is text, else nothing:
      the `isinstance(..., str)` guard of the graph and the aggregations. */
  function TextSkills(r: Row): seq<string>
  {
    if r.skills.Text? then r.skills.decoded else []
  }

  function RowsOf(frame: seq<YearRow>): (rows: seq<Row>)
    ensures |rows| == |frame|
    ensures forall i :: 0 <= i < |frame| ==> rows[i] == frame[i].row
  {
    seq(|frame|, i requires 0 <= i < |frame| => frame[i].row)
  }

  /** One more row adds its workload to the total. */
  lemma {:induction false} TotalHoursSnoc(frame: seq<YearRow>, r: YearRow)
    ensures TotalHours(RowsOf(frame + [r])) == TotalHours(RowsOf(frame)) + Hours(r.row)
  {
    var rows := RowsOf(frame + [r]);
    assert rows[..|rows| - 1] == RowsOf(frame);
  }

  lemma {:induction false} TotalHoursAppend(a: seq<Row>, b: seq<Row>)
    ensures TotalHours(a + b) == TotalHours(a) + TotalHours(b)
    decreases |b|
  {
    if b == [] {
      assert a + b == a;
    } else {
      var n := |b| - 1;
      assert (a + b)[..|a + b| - 1] == a + b[..n];
      TotalHoursAppend(a, b[..n]);
    }
  }

  /** A row without a workload changes no sum, wherever it stands. */
  lemma {:induction false} TotalHoursSkipsMissing(a: seq<Row>, r: Row, b: seq<Row>)
    requires r.workload.None?
    ensures TotalHours(a + [r] + b) == TotalHours(a + b)
  {
    TotalHoursAppend(a + [r], b);
    TotalHoursAppend(a, [r]);
    TotalHoursAppend(a, b);
    assert [r][..0] == [];
  }

  /** Every workload in the table is known and non-negative, so sums cannot shrink. */
  lemma {:induction false} TotalHoursNonNegative(rows: seq<Row>)
    requires forall i :: 0 <= i < |rows| ==> rows[i].workload.Some? ==> rows[i].workload.value >= 0.0
    ensures TotalHours(rows) >= 0.0
  {
    if rows != [] {
      TotalHoursNonNegative(rows[..|rows| - 1]);
    }
  }
}

/** Generic sequence helpers: filtering, de-duplication, counting, flattening. */
module Seqs {

  /** The elements of `s` satisfying `p`, in order (a boolean-mask selection). */
  function Filter<T>(s: seq<T>, p: T -> bool): (r: seq<T>)
    ensures |r| <= |s|
    ensures forall i :: 0 <= i < |r| ==> p(r[i])
  {
    if s == [] then []
    else Filter(s[..|s| - 1], p) + (if p(s[|s| - 1]) then [s[|s| - 1]] else [])
  }

  /** The filtered list holds exactly the elements that pass. */
  lemma {:induction false} FilterMembers<T>(s: seq<T>, p: T -> bool)
    ensures forall x :: x in Filter(s, p) <==> x in s && p(x)
  {
    if s != [] {
      var n := |s| - 1;
      FilterMembers(s[..n], p);
      assert forall x :: x in s <==> x in s[..n] || x == s[n] by {
        assert s == s[..n] + [s[n]];
      }
    }
  }

  /** Two lists that gain one element between them keep partitioning a list
      that gains the same element. */
  lemma {:induction false} MultisetStep<T>(a: seq<T>, u: seq<T>, a': seq<T>, u': seq<T>, p: seq<T>, r: T)
    requires multiset(a') + multiset(u') == multiset(a) + multiset(u) + multiset{r}
    requires multiset(a + u) == multiset(p)
    ensures multiset(a' + u') == multiset(p + [r])
  {
    assert multiset(a + u) == multiset(a) + multiset(u);
    assert multiset(p + [r]) == multiset(p) + multiset{r};
  }

  /** Filtering one more element of a prefix appends it when it passes. */
  lemma {:induction false} FilterStep<T>(s: seq<T>, i: nat, p: T -> bool)
    requires i < |s|
    ensures Filter(s[..i + 1], p) == Filter(s[..i], p) + (if p(s[i]) then [s[i]] else [])
  {
    assert s[..i + 1][..i] == s[..i];
  }

  /** `a` is obtained from `b` by deleting elements (order is kept). */
  ghost predicate IsSubsequence<T>(a: seq<T>, b: seq<T>)
    decreases |b|
  {
    if a == [] then true
    else if b == [] then false
    else (a[|a| - 1] == b[|b| - 1] && IsSubsequence(a[..|a| - 1], b[..|b| - 1]))
         || IsSubsequence(a, b[..|b| - 1])
  }

  predicate NoDup<T(==)>(s: seq<T>)
  {
    forall i, j :: 0 <= i < j < |s| ==> s[i] != s[j]
  }

  /** The first occurrences of the elements of `s`, in order (pandas `unique`). */
  function Distinct<T(==)>(s: seq<T>): (r: seq<T>)
    ensures NoDup(r)
  {
    if s == [] then []
    else
      var d := Distinct(s[..|s| - 1]);
      if s[|s| - 1] in d then d else d + [s[|s| - 1]]
  }

  /** `Distinct` keeps every element and adds none. */
  lemma {:induction false} DistinctMembers<T>(s: seq<T>, x: T)
    ensures x in Distinct(s) <==> x in s
  {
    if s != [] {
      var n := |s| - 1;
      DistinctMembers(s[..n], x);
      assert x in s <==> x in s[..n] || x == s[n] by {
        assert s == s[..n] + [s[n]];
      }
    }
  }

  /** Appending one element to a list adds it to the distinct list when new. */
  lemma {:induction false} DistinctSnoc<T>(s: seq<T>, x: T)
    ensures Distinct(s + [x]) == if x in Distinct(s) then Distinct(s) else Distinct(s) + [x]
  {
    assert (s + [x])[..|s + [x]| - 1] == s;
  }

  function Count<T(==)>(s: seq<T>, x: T): nat
  {
    if s == [] then 0 else Count(s[..|s| - 1], x) + (if s[|s| - 1] == x then 1 else 0)
  }

  function Flatten<T>(ss: seq<seq<T>>): seq<T>
  {
    if ss == [] then [] else Flatten(ss[..|ss| - 1]) + ss[|ss| - 1]
  }

  lemma {:induction false} FilterAppend<T>(a: seq<T>, b: seq<T>, p: T -> bool)
    ensures Filter(a + b, p) == Filter(a, p) + Filter(b, p)
    decreases |b|
  {
    if b == [] {
      assert a + b == a;
    } else {
      var n := |b| - 1;
      assert (a + b)[..|a + b| - 1] == a + b[..n];
      assert (a + b)[|a + b| - 1] == b[n];
      FilterAppend(a, b[..n], p);
    }
  }

  lemma {:induction false} FilterIsSubsequence<T>(s: seq<T>, p: T -> bool)
    ensures IsSubsequence(Filter(s, p), s)
  {
    if s != [] {
      var n := |s| - 1;
      FilterIsSubsequence(s[..n], p);
      var f := Filter(s, p);
      if p(s[n]) {
        assert f == Filter(s[..n], p) + [s[n]];
        assert f[..|f| - 1] == Filter(s[..n], p);
        assert s[..|s| - 1] == s[..n];
      } else {
        assert f == Filter(s[..n], p);
        assert s[..|s| - 1] == s[..n];
      }
    }
  }

  /** Filtering with a predicate that holds everywhere changes nothing. */
  lemma {:induction false} FilterKeepsAll<T>(s: seq<T>, p: T -> bool)
    requires forall i :: 0 <= i < |s| ==> p(s[i])
    ensures Filter(s, p) == s
  {
    if s != [] {
      FilterKeepsAll(s[..|s| - 1], p);
      assert s[..|s| - 1] + [s[|s| - 1]] == s;
    }
  }

  /** Filtering depends only on the predicate's values on the elements. */
  lemma {:induction false} FilterCongruent<T>(s: seq<T>, p: T -> bool, q: T -> bool)
    requires forall i :: 0 <= i < |s| ==> p(s[i]) == q(s[i])
    ensures Filter(s, p) == Filter(s, q)
  {
    if s != [] {
      var n := |s| - 1;
      assert forall i :: 0 <= i < n ==> s[..n][i] == s[i];
      FilterCongruent(s[..n], p, q);
    }
  }

  /** Filtering a selection once more, or not at all, is one filter by the
      combined predicate. */
  lemma {:induction false} FilterNarrow<T>(s: seq<T>, before: T -> bool, test: T -> bool, active: bool, after: T -> bool)
    requires forall x :: after(x) == (before(x) && (!active || test(x)))
    ensures (if active then Filter(Filter(s, before), test) else Filter(s, before)) == Filter(s, after)
  {
    if active {
      FilterFilter(s, before, test);
      FilterCongruent(s, x => before(x) && test(x), after);
    } else {
      FilterCongruent(s, before, after);
    }
  }

  /** Two successive filters keep exactly the elements satisfying both. */
  lemma {:induction false} FilterFilter<T>(s: seq<T>, p: T -> bool, q: T -> bool)
    ensures Filter(Filter(s, p), q) == Filter(s, x => p(x) && q(x))
  {
    if s != [] {
      var n := |s| - 1;
      FilterFilter(s[..n], p, q);
      FilterAppend(Filter(s[..n], p), if p(s[n]) then [s[n]] else [], q);
    }
  }

  lemma {:induction false} CountAppend<T>(a: seq<T>, b: seq<T>, x: T)
    ensures Count(a + b, x) == Count(a, x) + Count(b, x)
    decreases |b|
  {
    if b == [] {
      assert a + b == a;
    } else {
      var n := |b| - 1;
      assert (a + b)[..|a + b| - 1] == a + b[..n];
      CountAppend(a, b[..n], x);
    }
  }

  lemma {:induction false} CountIsMultiplicity<T>(s: seq<T>, x: T)
    ensures Count(s, x) == multiset(s)[x]
  {
    if s != [] {
      var n := |s| - 1;
      CountIsMultiplicity(s[..n], x);
      assert s == s[..n] + [s[n]];
    }
  }

  lemma {:induction false} FlattenAppend<T>(a: seq<seq<T>>, b: seq<seq<T>>)
    ensures Flatten(a + b) == Flatten(a) + Flatten(b)
    decreases |b|
  {
    if b == [] {
      assert a + b == a;
    } else {
      var n := |b| - 1;
      calc {
        Flatten(a + b);
        { assert (a + b)[..|a + b| - 1] == a + b[..n]; }
        Flatten(a + b[..n]) + b[n];
        { FlattenAppend(a, b[..n]); }
        (Flatten(a) + Flatten(b[..n])) + b[n];
        Flatten(a) + (Flatten(b[..n]) + b[n]);
      }
    }
  }

  /** Flattening one more list of a prefix appends that list. */
  lemma {:induction false} FlattenPrefixStep<T>(ss: seq<seq<T>>, i: nat)
    requires i < |ss|
    ensures Flatten(ss[..i + 1]) == Flatten(ss[..i]) + ss[i]
  {
    assert ss[..i + 1][..i] == ss[..i];
  }

  lemma {:induction false} FlattenLength<T>(ss: seq<seq<T>>, lens: seq<nat>)
    requires |lens| == |ss|
    requires forall i :: 0 <= i < |ss| ==> |ss[i]| == lens[i]
    ensures |Flatten(ss)| == SumNat(lens)
  {
    if ss != [] {
      FlattenLength(ss[..|ss| - 1], lens[..|lens| - 1]);
    }
  }

  function SumNat(s: seq<nat>): nat
  {
    if s == [] then 0 else SumNat(s[..|s| - 1]) + s[|s| - 1]
  }

  lemma {:induction false} NoDupMultiset<T>(s: seq<T>)
    ensures NoDup(s) <==> forall x :: multiset(s)[x] <= 1
  {
    if NoDup(s) {
      forall x ensures multiset(s)[x] <= 1 {
        NoDupCount(s, x);
        CountIsMultiplicity(s, x);
      }
    }
    if !NoDup(s) {
      var i, j :| 0 <= i < j < |s| && s[i] == s[j];
      var x := s[i];
      assert s == s[..i] + [s[i]] + s[i + 1..j] + [s[j]] + s[j + 1..];
      assert multiset(s)[x] >= 2;
    }
  }

  lemma {:induction false} NoDupCount<T>(s: seq<T>, x: T)
    requires NoDup(s)
    ensures Count(s, x) <= 1
    ensures x in s ==> Count(s, x) == 1
  {
    if s != [] {
      var n := |s| - 1;
      assert NoDup(s[..n]);
      NoDupCount(s[..n], x);
      if s[n] == x {
        assert x !in s[..n];
        NotInCount(s[..n], x);
      } else {
        assert x in s ==> x in s[..n];
      }
    }
  }

  lemma {:induction false} NotInCount<T>(s: seq<T>, x: T)
    requires x !in s
    ensures Count(s, x) == 0
  {
    if s != [] {
      NotInCount(s[..|s| - 1], x);
    }
  }
}

/** Orders used by the source's sorts, and a stable insertion sort. */
module Order {
  import opened Seqs

  /** Python's `<=` on `str`: lexicographic on code points. */
  predicate StrLe(a: string, b: string)
  {
    if a == [] then true
    else if b == [] then false
    else a[0] < b[0] || (a[0] == b[0] && StrLe(a[1..], b[1..]))
  }

  predicate IntLe(a: int, b: int)
  {
    a <= b
  }

  ghost predicate TotalPreorder<T(!new)>(le: (T, T) -> bool)
  {
    && (forall a, b :: le(a, b) || le(b, a))
    && (forall a, b, c :: le(a, b) && le(b, c) ==> le(a, c))
  }

  predicate SortedBy<T>(s: seq<T>, le: (T, T) -> bool)
  {
    forall i, j :: 0 <= i < j < |s| ==> le(s[i], s[j])
  }

  lemma {:induction false} StrLeTotal(a: string, b: string)
    ensures StrLe(a, b) || StrLe(b, a)
  {
    if a != [] && b != [] && a[0] == b[0] {
      StrLeTotal(a[1..], b[1..]);
    }
  }

  lemma {:induction false} StrLeTrans(a: string, b: string, c: string)
    requires StrLe(a, b) && StrLe(b, c)
    ensures StrLe(a, c)
  {
    if a != [] && b != [] && c != [] && a[0] == b[0] == c[0] {
      StrLeTrans(a[1..], b[1..], c[1..]);
    }
  }

  lemma {:induction false} StrLeAntisymmetric(a: string, b: string)
    requires StrLe(a, b) && StrLe(b, a)
    ensures a == b
  {
    if a != [] && b != [] {
      StrLeAntisymmetric(a[1..], b[1..]);
      assert a == [a[0]] + a[1..] && b == [b[0]] + b[1..];
    }
  }

  /** `StrLe` is the lexicographic order: `a` is a prefix of `b`, or the
      first position where they differ has the smaller character in `a`. */
  lemma {:induction false} StrLeLexicographic(a: string, b: string)
    ensures StrLe(a, b) <==>
              (a <= b || exists k :: 0 <= k < |a| && k < |b| && a[..k] == b[..k] && a[k] < b[k])
  {
    if a != [] && b != [] {
      StrLeLexicographic(a[1..], b[1..]);
      if a[0] < b[0] {
        assert a[..0] == b[..0];
      } else if a[0] == b[0] {
        if StrLe(a[1..], b[1..]) {
          if !(a[1..] <= b[1..]) {
            var k :| 0 <= k < |a[1..]| && k < |b[1..]| && a[1..][..k] == b[1..][..k] && a[1..][k] < b[1..][k];
            assert a[..k + 1] == [a[0]] + a[1..][..k];
            assert b[..k + 1] == [b[0]] + b[1..][..k];
          }
        } else {
          forall k | 0 <= k < |a| && k < |b| && a[..k] == b[..k]
            ensures !(a[k] < b[k])
          {
            if k > 0 {
              assert a[1..][..k - 1] == a[..k][1..] && b[1..][..k - 1] == b[..k][1..];
            }
          }
        }
      } else {
        if exists k :: 0 <= k < |a| && k < |b| && a[..k] == b[..k] && a[k] < b[k] {
          var k :| 0 <= k < |a| && k < |b| && a[..k] == b[..k] && a[k] < b[k];
          assert a[..k][0] == b[..k][0];
        }
      }
    }
  }

  lemma {:induction false} StrLeIsTotalPreorder()
    ensures TotalPreorder(StrLe)
  {
    forall a, b ensures StrLe(a, b) || StrLe(b, a) {
      StrLeTotal(a, b);
    }
    forall a, b, c | StrLe(a, b) && StrLe(b, c) ensures StrLe(a, c) {
      StrLeTrans(a, b, c);
    }
  }

  lemma {:induction false} IntLeIsTotalPreorder()
    ensures TotalPreorder(IntLe)
  {
  }

  /** Sorting distinct integers gives a strictly increasing list of the same values. */
  lemma {:induction false} SortedIntsIncrease(s: seq<int>)
    requires NoDup(s)
    ensures TotalPreorder(IntLe)
    ensures forall i, j :: 0 <= i < j < |SortBy(s, IntLe)| ==> SortBy(s, IntLe)[i] < SortBy(s, IntLe)[j]
    ensures forall x :: x in SortBy(s, IntLe) <==> x in s
  {
    IntLeIsTotalPreorder();
    var r := SortBy(s, IntLe);
    NoDupMultiset(s);
    NoDupMultiset(r);
    forall x ensures x in r <==> x in s {
      assert x in r <==> x in multiset(r);
      assert x in s <==> x in multiset(s);
    }
  }

  /** Places `x` after every element of sorted `t` that is not above it. */
  function Insert<T(!new)>(t: seq<T>, x: T, le: (T, T) -> bool): seq<T>
  {
    if t == [] then [x]
    else if le(t[0], x) then [t[0]] + Insert(t[1..], x, le)
    else [x] + t
  }

  lemma {:induction false} InsertMultiset<T(!new)>(t: seq<T>, x: T, le: (T, T) -> bool)
    ensures multiset(Insert(t, x, le)) == multiset(t) + multiset{x}
  {
    if t != [] && le(t[0], x) {
      InsertMultiset(t[1..], x, le);
      assert t == [t[0]] + t[1..];
    }
  }

  lemma {:induction false} InsertSorted<T(!new)>(t: seq<T>, x: T, le: (T, T) -> bool)
    requires TotalPreorder(le)
    requires SortedBy(t, le)
    ensures SortedBy(Insert(t, x, le), le)
  {
    if t != [] {
      if le(t[0], x) {
        var rest := t[1..];
        assert SortedBy(rest, le) by {
          forall i, j | 0 <= i < j < |rest| ensures le(rest[i], rest[j]) {
            assert rest[i] == t[i + 1] && rest[j] == t[j + 1];
          }
        }
        InsertSorted(rest, x, le);
        InsertMultiset(rest, x, le);
        var r := Insert(rest, x, le);
        forall k | 0 <= k < |r| ensures le(t[0], r[k]) {
          assert r[k] in multiset(r);
          if r[k] != x {
            assert r[k] in multiset(rest);
            var m :| 0 <= m < |rest| && rest[m] == r[k];
            assert rest[m] == t[m + 1];
          }
        }
        var out := [t[0]] + r;
        forall i, j | 0 <= i < j < |out| ensures le(out[i], out[j]) {
          assert out[j] == r[j - 1];
          if i > 0 {
            assert out[i] == r[i - 1];
          }
        }
      } else {
        assert le(x, t[0]);
        var out := [x] + t;
        forall i, j | 0 <= i < j < |out| ensures le(out[i], out[j]) {
          assert out[j] == t[j - 1];
          if i == 0 {
            if j > 1 {
              assert le(t[0], t[j - 1]);
            }
          } else {
            assert out[i] == t[i - 1];
          }
        }
      }
    }
  }

  /** A stable insertion sort under a total preorder. */
  function SortBy<T(!new)>(s: seq<T>, le: (T, T) -> bool): (r: seq<T>)
    requires TotalPreorder(le)
    ensures multiset(r) == multiset(s)
    ensures SortedBy(r, le)
  {
    if s == [] then []
    else
      var n := |s| - 1;
      assert s == s[..n] + [s[n]];
      InsertMultiset(SortBy(s[..n], le), s[n], le);
      InsertSorted(SortBy(s[..n], le), s[n], le);
      Insert(SortBy(s[..n], le), s[n], le)
  }

  /** Sorting a duplicate-free sequence of strings gives a strictly increasing one. */
  lemma {:induction false} SortedStringsStrictlyIncrease(s: seq<string>)
    requires NoDup(s)
    ensures TotalPreorder(StrLe)
    ensures NoDup(SortBy(s, StrLe))
    ensures forall i, j :: 0 <= i < j < |SortBy(s, StrLe)| ==>
              StrLe(SortBy(s, StrLe)[i], SortBy(s, StrLe)[j]) && SortBy(s, StrLe)[i] != SortBy(s, StrLe)[j]
  {
    StrLeIsTotalPreorder();
    var r := SortBy(s, StrLe);
    NoDupMultiset(s);
    NoDupMultiset(r);
  }

  /** A strictly increasing sequence of strings is determined by its elements. */
  lemma {:induction false} StrictlySortedUnique(a: seq<string>, b: seq<string>)
    requires SortedBy(a, StrLe) && NoDup(a)
    requires SortedBy(b, StrLe) && NoDup(b)
    requires forall x :: x in a <==> x in b
    ensures a == b
  {
    if b != [] {
      assert b[0] in a;
    }
    if a != [] {
      assert b != [] by { assert a[0] in b; }
      // the least element of each is the least element of the other
      assert a[0] == b[0] by {
        assert a[0] in b && b[0] in a;
        var i :| 0 <= i < |a| && a[i] == b[0];
        var j :| 0 <= j < |b| && b[j] == a[0];
        StrLeTotal(a[0], a[0]);
        assert StrLe(a[0], a[i]);
        assert StrLe(b[0], b[j]);
        StrLeAntisymmetric(a[0], b[0]);
      }
      forall x ensures x in a[1..] <==> x in b[1..] {
        if x in a[1..] {
          var i :| 1 <= i < |a| && a[i] == x;
          assert x != a[0];
          assert x in b;
        }
        if x in b[1..] {
          var j :| 1 <= j < |b| && b[j] == x;
          assert x != b[0];
          assert x in a;
        }
      }
      StrictlySortedUnique(a[1..], b[1..]);
      assert a == [a[0]] + a[1..] && b == [b[0]] + b[1..];
    }
  }
}
