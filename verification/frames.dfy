/**
 * The slice of pandas the pipeline relies on: a DataFrame is a list of
 * column names and a list of rows; a row maps column names to cells. A cell
 * absent from a row reads as missing (NaN / NA / NaT / None are all `NA`).
 *
 * Row selection by key follows pandas' conventions: missing values compare
 * equal to each other in `duplicated` / `drop_duplicates` / `unique` and
 * `value_counts(dropna=False)`, and are skipped by `nunique()`.
 */
module Frames {

  datatype Value = NA | Str(s: string) | Num(x: real) | Day(d: int)

  type Row = map<string, Value>

  datatype Frame = Frame(columns: seq<string>, rows: seq<Row>)

  /** The cell of column c, or NA when the row has none. */
  function Get(r: Row, c: string): Value {
    if c in r then r[c] else NA
  }

  function Column(f: Frame, c: string): (vs: seq<Value>)
    ensures |vs| == |f.rows|
    ensures forall i :: 0 <= i < |f.rows| ==> vs[i] == Get(f.rows[i], c)
  {
    seq(|f.rows|, i requires 0 <= i < |f.rows| => Get(f.rows[i], c))
  }

  /** The cells of a row under a list of columns (a `subset=` key). */
  function Project(r: Row, cols: seq<string>): (key: seq<Value>)
    ensures |key| == |cols|
    ensures forall k :: 0 <= k < |cols| ==> key[k] == Get(r, cols[k])
  {
    seq(|cols|, k requires 0 <= k < |cols| => Get(r, cols[k]))
  }

  function Keys(rows: seq<Row>, cols: seq<string>): (ks: seq<seq<Value>>)
    ensures |ks| == |rows|
    ensures forall i :: 0 <= i < |rows| ==> ks[i] == Project(rows[i], cols)
  {
    seq(|rows|, i requires 0 <= i < |rows| => Project(rows[i], cols))
  }

  /** A row restricted to the given columns (`df[cols]`). */
  function Restrict(r: Row, cols: seq<string>): Row {
    map k | k in r.Keys && k in cols :: r[k]
  }

  // ---------------------------------------------------------------------
  // First occurrences: drop_duplicates(keep="first"), duplicated(), unique()
  // ---------------------------------------------------------------------

  /** Position i holds a value that no earlier position holds. */
  predicate IsFirst<X(==)>(xs: seq<X>, i: int)
    requires 0 <= i < |xs|
  {
    forall j :: 0 <= j < i ==> xs[j] != xs[i]
  }

  predicate Increasing(idx: seq<nat>) {
    forall a, b :: 0 <= a < b < |idx| ==> idx[a] < idx[b]
  }

  predicate AllDistinct<X(==)>(xs: seq<X>) {
    forall i, j :: 0 <= i < j < |xs| ==> xs[i] != xs[j]
  }

  /** The positions of first occurrences, in increasing order. */
  function FirstIndices<X(==)>(xs: seq<X>): (idx: seq<nat>)
    ensures Increasing(idx)
    ensures forall k :: 0 <= k < |idx| ==> idx[k] < |xs| && IsFirst(xs, idx[k])
    ensures forall i :: 0 <= i < |xs| && IsFirst(xs, i) ==> i in idx
    decreases |xs|
  {
    if xs == [] then []
    else
      var p := xs[..|xs| - 1];
      var rest := FirstIndices(p);
      assert forall i :: 0 <= i < |p| ==> (IsFirst(p, i) <==> IsFirst(xs, i));
      if xs[|xs| - 1] in p then
        rest
      else
        assert IsFirst(xs, |xs| - 1);
        rest + [|xs| - 1]
  }

  /** The elements at the given positions, in the order of the positions. */
  function Pick<X>(xs: seq<X>, idx: seq<nat>): (r: seq<X>)
    requires forall k :: 0 <= k < |idx| ==> idx[k] < |xs|
    ensures |r| == |idx|
    ensures forall k :: 0 <= k < |idx| ==> r[k] == xs[idx[k]]
  {
    seq(|idx|, k requires 0 <= k < |idx| => xs[idx[k]])
  }

  /** Series.unique(): the distinct values in order of first appearance. */
  function Unique<X(==)>(xs: seq<X>): seq<X> {
    Pick(xs, FirstIndices(xs))
  }

  /** The earliest position holding the same value as position i. */
  function FirstOccurrence<X(==)>(xs: seq<X>, i: nat): (j: nat)
    requires i < |xs|
    ensures j <= i && xs[j] == xs[i] && IsFirst(xs, j)
  {
    if exists j :: 0 <= j < i && xs[j] == xs[i] then
      var j :| 0 <= j < i && xs[j] == xs[i];
      FirstOccurrence(xs, j)
    else i
  }

  /** unique() holds each value of the input exactly once. */
  lemma UniqueSpec<X>(xs: seq<X>)
    ensures AllDistinct(Unique(xs))
    ensures forall x :: x in Unique(xs) <==> x in xs
  {
    var idx := FirstIndices(xs);
    var u := Unique(xs);
    forall a, b | 0 <= a < b < |u| ensures u[a] != u[b] {
      assert idx[a] < idx[b] && IsFirst(xs, idx[b]);
    }
    forall x | x in xs ensures x in u {
      var i :| 0 <= i < |xs| && xs[i] == x;
      var j := FirstOccurrence(xs, i);
      var k :| 0 <= k < |idx| && idx[k] == j;
      assert u[k] == x;
    }
  }

  /** With no repeated value, every position is a first occurrence. */
  lemma {:induction false} FirstIndicesOfDistinct<X>(xs: seq<X>)
    requires AllDistinct(xs)
    ensures |FirstIndices(xs)| == |xs|
    ensures forall k :: 0 <= k < |xs| ==> FirstIndices(xs)[k] == k
    decreases |xs|
  {
    if xs != [] {
      var p := xs[..|xs| - 1];
      assert xs[|xs| - 1] !in p;
      FirstIndicesOfDistinct(p);
    }
  }

  lemma PickAll<X>(xs: seq<X>, idx: seq<nat>)
    requires |idx| == |xs| && forall k :: 0 <= k < |xs| ==> idx[k] == k
    ensures Pick(xs, idx) == xs
  {
  }

  /** duplicated().sum(): the number of positions that repeat an earlier value. */
  function CountDuplicated<X(==)>(xs: seq<X>): (n: nat)
    ensures n <= |xs|
    decreases |xs|
  {
    if xs == [] then 0
    else
      var p := xs[..|xs| - 1];
      CountDuplicated(p) + (if xs[|xs| - 1] in p then 1 else 0)
  }

  /** Every position is either a first occurrence or a duplicate. */
  lemma {:induction false} DuplicatedPlusFirst<X>(xs: seq<X>)
    ensures CountDuplicated(xs) + |FirstIndices(xs)| == |xs|
    decreases |xs|
  {
    if xs != [] {
      DuplicatedPlusFirst(xs[..|xs| - 1]);
    }
  }

  /** No duplicate is counted exactly when all values are distinct. */
  lemma {:induction false} DuplicatedZeroIffDistinct<X>(xs: seq<X>)
    ensures CountDuplicated(xs) == 0 <==> AllDistinct(xs)
    decreases |xs|
  {
    if xs != [] {
      var p := xs[..|xs| - 1];
      DuplicatedZeroIffDistinct(p);
      if AllDistinct(xs) {
        assert AllDistinct(p);
        assert xs[|xs| - 1] !in p by {
          forall j | 0 <= j < |p| ensures p[j] != xs[|xs| - 1] {
            assert xs[j] != xs[|xs| - 1];
          }
        }
      }
      if CountDuplicated(xs) == 0 {
        forall i, j | 0 <= i < j < |xs| ensures xs[i] != xs[j] {
          if j < |p| {
            assert p[i] != p[j];
          } else {
            assert xs[i] == p[i];
          }
        }
      }
    }
  }

  // ---------------------------------------------------------------------
  // Counting
  // ---------------------------------------------------------------------

  /** The number of positions holding x. */
  function Occ<X(==)>(xs: seq<X>, x: X): (n: nat)
    ensures n == 0 <==> x !in xs
    ensures n <= |xs|
    decreases |xs|
  {
    if xs == [] then 0
    else
      var p := xs[..|xs| - 1];
      assert xs == p + [xs[|xs| - 1]];
      Occ(p, x) + (if xs[|xs| - 1] == x then 1 else 0)
  }

  function SumOcc<X(==)>(ds: seq<X>, xs: seq<X>): nat {
    if ds == [] then 0 else Occ(xs, ds[0]) + SumOcc(ds[1..], xs)
  }

  /** value_counts(dropna=False): each distinct value with its number of occurrences. */
  function ValueCounts<X(==)>(xs: seq<X>): (vc: seq<(X, nat)>)
    ensures |vc| == |Unique(xs)|
    ensures forall k :: 0 <= k < |vc| ==> vc[k] == (Unique(xs)[k], Occ(xs, Unique(xs)[k]))
  {
    var u := Unique(xs);
    seq(|u|, k requires 0 <= k < |u| => (u[k], Occ(xs, u[k])))
  }

  /**
   * value_counts names each value of the column exactly once, and pairs it
   * with its number of occurrences, which is positive.
   */
  lemma ValueCountsSpec<X>(xs: seq<X>)
    ensures forall a, b :: 0 <= a < b < |ValueCounts(xs)| ==> ValueCounts(xs)[a].0 != ValueCounts(xs)[b].0
    ensures forall x :: x in xs <==> exists k :: 0 <= k < |ValueCounts(xs)| && ValueCounts(xs)[k].0 == x
    ensures forall k :: 0 <= k < |ValueCounts(xs)| ==> 0 < ValueCounts(xs)[k].1 == Occ(xs, ValueCounts(xs)[k].0)
  {
    var u := Unique(xs);
    var vc := ValueCounts(xs);
    UniqueSpec(xs);
    forall x | x in xs ensures exists k :: 0 <= k < |vc| && vc[k].0 == x {
      var k :| 0 <= k < |u| && u[k] == x;
      assert vc[k].0 == x;
    }
    forall k | 0 <= k < |vc| ensures vc[k].0 in xs {
      assert vc[k].0 == u[k];
    }
  }

  function SumCounts<X>(vc: seq<(X, nat)>): nat {
    if vc == [] then 0 else vc[0].1 + SumCounts(vc[1..])
  }

  lemma {:induction false} SumOccAppendValue<X>(ds: seq<X>, xs: seq<X>, y: X)
    requires AllDistinct(ds)
    ensures SumOcc(ds, xs + [y]) == SumOcc(ds, xs) + (if y in ds then 1 else 0)
  {
    if ds != [] {
      assert (xs + [y])[..|xs|] == xs;
      SumOccAppendValue(ds[1..], xs, y);
      assert y in ds <==> y == ds[0] || y in ds[1..];
      assert ds[0] !in ds[1..];
    }
  }

  lemma {:induction false} SumOccAppendKey<X>(ds: seq<X>, e: X, xs: seq<X>)
    ensures SumOcc(ds + [e], xs) == SumOcc(ds, xs) + Occ(xs, e)
  {
    if ds != [] {
      assert (ds + [e])[1..] == ds[1..] + [e];
      SumOccAppendKey(ds[1..], e, xs);
    }
  }

  /** The counts of value_counts(dropna=False) add up to the number of values. */
  lemma {:induction false} ValueCountsTotal<X>(xs: seq<X>)
    ensures SumCounts(ValueCounts(xs)) == |xs|
  {
    SumCountsIsSumOcc(xs);
    SumOccUnique(xs);
  }

  lemma {:induction false} SumCountsIsSumOcc<X>(xs: seq<X>)
    ensures SumCounts(ValueCounts(xs)) == SumOcc(Unique(xs), xs)
  {
    SumCountsOfMap(Unique(xs), xs, ValueCounts(xs));
  }

  lemma {:induction false} SumCountsOfMap<X>(ds: seq<X>, xs: seq<X>, vc: seq<(X, nat)>)
    requires |vc| == |ds| && forall k :: 0 <= k < |ds| ==> vc[k] == (ds[k], Occ(xs, ds[k]))
    ensures SumCounts(vc) == SumOcc(ds, xs)
  {
    if ds != [] {
      SumCountsOfMap(ds[1..], xs, vc[1..]);
    }
  }

  lemma {:induction false} SumOccUnique<X>(xs: seq<X>)
    ensures SumOcc(Unique(xs), xs) == |xs|
    decreases |xs|
  {
    if xs != [] {
      var p := xs[..|xs| - 1];
      var y := xs[|xs| - 1];
      assert xs == p + [y];
      SumOccUnique(p);
      UniqueSpec(p);
      var fp := FirstIndices(p);
      assert Pick(xs, fp) == Unique(p);
      SumOccAppendValue(Unique(p), p, y);
      if y !in p {
        assert FirstIndices(xs) == fp + [|p|];
        assert Unique(xs) == Unique(p) + [y];
        SumOccAppendKey(Unique(p), y, xs);
      } else {
        assert Unique(xs) == Unique(p);
      }
    }
  }

  /** The non-missing values, in order. */
  function DropNA(vs: seq<Value>): (r: seq<Value>)
    ensures |r| <= |vs| && NA !in r
    ensures forall v :: v in r <==> v in vs && v != NA
  {
    if vs == [] then []
    else (if vs[0] == NA then [] else [vs[0]]) + DropNA(vs[1..])
  }

  /** Series.nunique(dropna=True). */
  function NUnique(vs: seq<Value>): nat {
    |Unique(DropNA(vs))|
  }

  /** The number of distinct values equals the length exactly when no value repeats. */
  lemma UniqueLength<X>(xs: seq<X>)
    ensures |Unique(xs)| <= |xs|
    ensures |Unique(xs)| == |xs| <==> AllDistinct(xs)
  {
    DuplicatedPlusFirst(xs);
    DuplicatedZeroIffDistinct(xs);
  }

  /** Dropping missing values shortens the list exactly when it held one. */
  lemma {:induction false} DropNALength(vs: seq<Value>)
    ensures NA !in vs ==> DropNA(vs) == vs
    ensures NA in vs ==> |DropNA(vs)| < |vs|
  {
    if vs != [] {
      DropNALength(vs[1..]);
      assert vs == [vs[0]] + vs[1..];
    }
  }

  /** nunique() > 1 exactly when two present values differ. */
  lemma NUniqueMoreThanOne(vs: seq<Value>)
    ensures NUnique(vs) > 1 <==>
      exists i, j :: 0 <= i < |vs| && 0 <= j < |vs| && vs[i] != NA && vs[j] != NA && vs[i] != vs[j]
  {
    var u := Unique(DropNA(vs));
    UniqueSpec(DropNA(vs));
    if |u| > 1 {
      assert u[0] in vs && u[1] in vs && u[0] != NA && u[1] != NA;
      var i :| 0 <= i < |vs| && vs[i] == u[0];
      var j :| 0 <= j < |vs| && vs[j] == u[1];
    }
    if exists i, j :: 0 <= i < |vs| && 0 <= j < |vs| && vs[i] != NA && vs[j] != NA && vs[i] != vs[j] {
      var i, j :| 0 <= i < |vs| && 0 <= j < |vs| && vs[i] != NA && vs[j] != NA && vs[i] != vs[j];
      assert vs[i] in u && vs[j] in u;
    }
  }

  /** The number of rows satisfying a row predicate. */
  function CountRows(rows: seq<Row>, p: Row -> bool): (n: nat)
    ensures n <= |rows|
  {
    if rows == [] then 0 else (if p(rows[0]) then 1 else 0) + CountRows(rows[1..], p)
  }

  /** The rows satisfying a row predicate, in order (a boolean mask). */
  function FilterRows(rows: seq<Row>, p: Row -> bool): (r: seq<Row>)
    ensures |r| == CountRows(rows, p)
    ensures forall k :: 0 <= k < |r| ==> r[k] in rows && p(r[k])
    ensures forall k :: 0 <= k < |rows| && p(rows[k]) ==> rows[k] in r
  {
    if rows == [] then []
    else (if p(rows[0]) then [rows[0]] else []) + FilterRows(rows[1..], p)
  }

  /** A positive count means some row satisfies the predicate, and conversely. */
  lemma {:induction false} CountRowsPositive(rows: seq<Row>, p: Row -> bool)
    ensures CountRows(rows, p) > 0 <==> exists k :: 0 <= k < |rows| && p(rows[k])
  {
    if rows != [] {
      CountRowsPositive(rows[1..], p);
      if exists k :: 0 <= k < |rows| && p(rows[k]) {
        var k :| 0 <= k < |rows| && p(rows[k]);
        if k > 0 { assert p(rows[1..][k - 1]); }
      }
      if exists k :: 0 <= k < |rows[1..]| && p(rows[1..][k]) {
        var k :| 0 <= k < |rows[1..]| && p(rows[1..][k]);
        assert p(rows[k + 1]);
      }
    }
  }

  lemma {:induction false} FilterAll(rows: seq<Row>, p: Row -> bool)
    requires forall k :: 0 <= k < |rows| ==> p(rows[k])
    ensures FilterRows(rows, p) == rows
  {
    if rows != [] {
      FilterAll(rows[1..], p);
    }
  }

  // ---------------------------------------------------------------------
  // Column assignment and selection
  // ---------------------------------------------------------------------

  /** The column list after `df[c] = ...`: a new column goes to the end. */
  function WithColumn(cols: seq<string>, c: string): (r: seq<string>)
    ensures c in r && forall d :: d in cols ==> d in r
    ensures forall d :: d in r ==> d in cols || d == c
  {
    if c in cols then cols else cols + [c]
  }

  /** `df[c] = <value computed from each row>`; every other cell is left as it was. */
  function Derive(f: Frame, c: string, h: Row -> Value): (r: Frame)
    ensures r.columns == WithColumn(f.columns, c)
    ensures |r.rows| == |f.rows|
    ensures forall i :: 0 <= i < |f.rows| ==> Get(r.rows[i], c) == h(f.rows[i])
    ensures forall i, d :: 0 <= i < |f.rows| && d != c ==> Get(r.rows[i], d) == Get(f.rows[i], d)
  {
    Frame(WithColumn(f.columns, c), seq(|f.rows|, i requires 0 <= i < |f.rows| => f.rows[i][c := h(f.rows[i])]))
  }

  /** The cell function of `df[c] = v`, the same value on every row. */
  function Const(v: Value): Row -> Value {
    row => v
  }

  /** `df[cols]`: the listed columns, in the listed order. */
  function Select(f: Frame, cols: seq<string>): (r: Frame)
    ensures r.columns == cols && |r.rows| == |f.rows|
    ensures forall i, d :: 0 <= i < |f.rows| ==> Get(r.rows[i], d) == if d in cols then Get(f.rows[i], d) else NA
  {
    Frame(cols, seq(|f.rows|, i requires 0 <= i < |f.rows| => Restrict(f.rows[i], cols)))
  }

  /** A selected column keeps its cells. */
  lemma SelectGet(f: Frame, cols: seq<string>, i: int, c: string)
    requires 0 <= i < |f.rows| && c in cols
    ensures Get(Select(f, cols).rows[i], c) == Get(f.rows[i], c)
  {
  }

  /** [c for c in cols if c not in df.columns] */
  function Absent(cols: seq<string>, f: Frame): (r: seq<string>)
    ensures forall c :: c in r <==> c in cols && c !in f.columns
  {
    if cols == [] then []
    else (if cols[0] !in f.columns then [cols[0]] else []) + Absent(cols[1..], f)
  }

  /** `df[df[...]...]` with a row mask, or `drop_duplicates`: the rows at the given increasing positions. */
  function Rows(f: Frame, idx: seq<nat>): (r: Frame)
    requires forall k :: 0 <= k < |idx| ==> idx[k] < |f.rows|
    ensures r.columns == f.columns && r.rows == Pick(f.rows, idx)
  {
    Frame(f.columns, Pick(f.rows, idx))
  }
}
