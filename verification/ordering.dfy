/**
 * Python's ordering of str values (code point by code point) and the
 * multi-key sort that DataFrame.sort_values performs on string columns.
 */
module Ordering {

  /** a <= b in Python's string order. */
  predicate StrLe(a: string, b: string)
    decreases |a|
  {
    a == [] || (b != [] && (a[0] < b[0] || (a[0] == b[0] && StrLe(a[1..], b[1..]))))
  }

  predicate StrLt(a: string, b: string) {
    StrLe(a, b) && a != b
  }

  lemma {:induction false} StrLeTotal(a: string, b: string)
    ensures StrLe(a, b) || StrLe(b, a)
    decreases |a|
  {
    if a != [] && b != [] && a[0] == b[0] {
      StrLeTotal(a[1..], b[1..]);
    }
  }

  lemma {:induction false} StrLeTrans(a: string, b: string, c: string)
    requires StrLe(a, b) && StrLe(b, c)
    ensures StrLe(a, c)
    decreases |a|
  {
    if a != [] && a[0] == b[0] && b[0] == c[0] {
      StrLeTrans(a[1..], b[1..], c[1..]);
    }
  }

  lemma {:induction false} StrLeAntisym(a: string, b: string)
    requires StrLe(a, b) && StrLe(b, a)
    ensures a == b
    decreases |a|
  {
    if a != [] {
      StrLeAntisym(a[1..], b[1..]);
      assert a == [a[0]] + a[1..];
      assert b == [b[0]] + b[1..];
    }
  }

  ghost predicate TotalPreorder<T(!new)>(le: (T, T) -> bool) {
    && (forall a, b :: le(a, b) || le(b, a))
    && (forall a, b, c :: le(a, b) && le(b, c) ==> le(a, c))
  }

  predicate SortedBy<T>(s: seq<T>, le: (T, T) -> bool) {
    forall i, j :: 0 <= i < j < |s| ==> le(s[i], s[j])
  }

  /** Inserts x before the first element it is le-below; multiset-wise it only adds x. */
  function Insert<T>(x: T, s: seq<T>, le: (T, T) -> bool): (r: seq<T>)
    ensures multiset(r) == multiset(s) + multiset{x}
  {
    if s == [] then [x]
    else if le(x, s[0]) then [x] + s
    else
      assert s == [s[0]] + s[1..];
      [s[0]] + Insert(x, s[1..], le)
  }

  lemma {:induction false} InsertSorted<T(!new)>(x: T, s: seq<T>, le: (T, T) -> bool)
    requires TotalPreorder(le) && SortedBy(s, le)
    ensures SortedBy(Insert(x, s, le), le)
  {
    if s != [] {
      if le(x, s[0]) {
        var r := [x] + s;
        forall i, j | 0 <= i < j < |r| ensures le(r[i], r[j]) {
          if i == 0 && j > 1 { assert le(s[0], s[j - 1]); }
        }
      } else {
        InsertSorted(x, s[1..], le);
        InsertLowerBound(s[0], x, s[1..], le);
      }
    }
  }

  /** A lower bound of x and of every element of s bounds every element of Insert(x, s, le). */
  lemma {:induction false} InsertLowerBound<T>(y: T, x: T, s: seq<T>, le: (T, T) -> bool)
    requires le(y, x) && forall j :: 0 <= j < |s| ==> le(y, s[j])
    ensures forall j :: 0 <= j < |Insert(x, s, le)| ==> le(y, Insert(x, s, le)[j])
  {
    if s != [] && !le(x, s[0]) {
      InsertLowerBound(y, x, s[1..], le);
    }
  }

  lemma StrLeTotalPreorder()
    ensures TotalPreorder(StrLe)
  {
    forall a: string, b: string ensures StrLe(a, b) || StrLe(b, a) {
      StrLeTotal(a, b);
    }
    forall a: string, b: string, c: string | StrLe(a, b) && StrLe(b, c) ensures StrLe(a, c) {
      StrLeTrans(a, b, c);
    }
  }

  /**
   * Under an antisymmetric order a permutation has exactly one sorted
   * arrangement, so every sorting algorithm, stable or not, returns it.
   */
  lemma {:induction false} SortedUnique<T>(a: seq<T>, b: seq<T>, le: (T, T) -> bool)
    requires forall x, y :: le(x, y) && le(y, x) ==> x == y
    requires SortedBy(a, le) && SortedBy(b, le) && multiset(a) == multiset(b)
    ensures a == b
  {
    if a != [] {
      SortedHeads(a, b, le);
      MultisetTails(a, b);
      SortedTail(a, le);
      SortedTail(b, le);
      SortedUnique(a[1..], b[1..], le);
    } else {
      assert |b| == |multiset(b)|;
    }
  }

  /** Two sorted arrangements of one non-empty multiset start with the same element. */
  lemma SortedHeads<T>(a: seq<T>, b: seq<T>, le: (T, T) -> bool)
    requires forall x, y :: le(x, y) && le(y, x) ==> x == y
    requires SortedBy(a, le) && SortedBy(b, le) && multiset(a) == multiset(b) && a != []
    ensures b != [] && a[0] == b[0]
  {
    assert a[0] in multiset(b);
    assert b[0] in multiset(a);
    var i :| 0 <= i < |a| && a[i] == b[0];
    var j :| 0 <= j < |b| && b[j] == a[0];
    if i > 0 && j > 0 { assert le(a[0], a[i]) && le(b[0], b[j]); }
  }

  /** Removing a common first element from two arrangements of one multiset leaves equal multisets. */
  lemma MultisetTails<T>(a: seq<T>, b: seq<T>)
    requires a != [] && b != [] && a[0] == b[0] && multiset(a) == multiset(b)
    ensures multiset(a[1..]) == multiset(b[1..])
  {
    assert a == [a[0]] + a[1..];
    assert b == [b[0]] + b[1..];
    assert multiset(a) == multiset{a[0]} + multiset(a[1..]);
    assert multiset(b) == multiset{a[0]} + multiset(b[1..]);
    assert multiset(a[1..]) == multiset(a) - multiset{a[0]} == multiset(b[1..]);
  }

  lemma SortedTail<T>(s: seq<T>, le: (T, T) -> bool)
    requires SortedBy(s, le) && s != []
    ensures SortedBy(s[1..], le)
  {
    forall i, j | 0 <= i < j < |s| - 1 ensures le(s[1..][i], s[1..][j]) {
      assert le(s[i + 1], s[j + 1]);
    }
  }

  /** Insertion sort: sorted by `le` and a permutation of the input. */
  function SortBy<T(!new)>(s: seq<T>, le: (T, T) -> bool): (r: seq<T>)
    requires TotalPreorder(le)
    ensures SortedBy(r, le)
    ensures multiset(r) == multiset(s)
  {
    if s == [] then []
    else
      assert s == [s[0]] + s[1..];
      InsertSorted(s[0], SortBy(s[1..], le), le);
      Insert(s[0], SortBy(s[1..], le), le)
  }

  /**
   * The elements of s that tie with y under le (each is le-below the other),
   * in their order in s.
   */
  function Ties<T>(s: seq<T>, le: (T, T) -> bool, y: T): (t: seq<T>)
    ensures |t| <= |s|
    ensures forall x :: x in t ==> x in s && le(x, y) && le(y, x)
  {
    if s == [] then []
    else (if le(s[0], y) && le(y, s[0]) then [s[0]] else []) + Ties(s[1..], le, y)
  }

  /** Inserting x changes the ties of y only by x itself, in front. */
  lemma {:induction false} InsertTies<T(!new)>(x: T, s: seq<T>, le: (T, T) -> bool, y: T)
    requires TotalPreorder(le)
    ensures Ties(Insert(x, s, le), le, y) == (if le(x, y) && le(y, x) then [x] else []) + Ties(s, le, y)
  {
    var tx := if le(x, y) && le(y, x) then [x] else [];
    if s == [] {
      TiesCons(x, [], le, y);
    } else if le(x, s[0]) {
      TiesCons(x, s, le, y);
    } else {
      InsertTies(x, s[1..], le, y);
      NoDoubleTie(x, s[0], le, y);
      InsertTiesPast(x, s, le, y);
    }
  }

  /** The step of InsertTies where x goes past the head of s, which cannot tie with y together with x. */
  lemma InsertTiesPast<T>(x: T, s: seq<T>, le: (T, T) -> bool, y: T)
    requires s != [] && !le(x, s[0]) && !(le(x, y) && le(y, s[0]))
    requires Ties(Insert(x, s[1..], le), le, y) == (if le(x, y) && le(y, x) then [x] else []) + Ties(s[1..], le, y)
    ensures Ties(Insert(x, s, le), le, y) == (if le(x, y) && le(y, x) then [x] else []) + Ties(s, le, y)
  {
    var a := Insert(x, s[1..], le);
    var rest := Ties(s[1..], le, y);
    var tx: seq<T> := if le(x, y) && le(y, x) then [x] else [];
    var ts: seq<T> := if le(s[0], y) && le(y, s[0]) then [s[0]] else [];
    assert Insert(x, s, le) == [s[0]] + a;
    TiesCons(s[0], a, le, y);
    assert Ties(Insert(x, s, le), le, y) == ts + (tx + rest);
    assert Ties(s, le, y) == ts + rest;
    SwapEmpty(ts, tx, rest);
  }

  /** Two pieces of which one is empty can trade places. */
  lemma SwapEmpty<T>(u: seq<T>, v: seq<T>, w: seq<T>)
    requires u == [] || v == []
    ensures u + (v + w) == v + (u + w)
  {
  }

  /** Ties of a sequence with a given head. */
  lemma TiesCons<T>(a: T, s: seq<T>, le: (T, T) -> bool, y: T)
    ensures Ties([a] + s, le, y) == (if le(a, y) && le(y, a) then [a] else []) + Ties(s, le, y)
  {
    assert ([a] + s)[1..] == s;
  }

  /** Two elements that both tie with y are le-related both ways. */
  lemma NoDoubleTie<T(!new)>(x: T, z: T, le: (T, T) -> bool, y: T)
    requires TotalPreorder(le) && !le(x, z)
    ensures !(le(x, y) && le(y, z))
  {
  }

  /**
   * SortBy is stable: for every y, the elements that tie with y come out in
   * the order they had in the input.
   */
  lemma {:induction false} SortByStable<T(!new)>(s: seq<T>, le: (T, T) -> bool)
    requires TotalPreorder(le)
    ensures forall y :: Ties(SortBy(s, le), le, y) == Ties(s, le, y)
  {
    if s != [] {
      SortByStable(s[1..], le);
      forall y
        ensures Ties(SortBy(s, le), le, y) == Ties(s, le, y)
      {
        InsertTies(s[0], SortBy(s[1..], le), le, y);
      }
    }
  }

  /** Orders pairs of strings by the first component, then the second. */
  predicate PairLe(a: (string, string), b: (string, string)) {
    StrLt(a.0, b.0) || (a.0 == b.0 && StrLe(a.1, b.1))
  }

  lemma PairLeTotalPreorder()
    ensures TotalPreorder(PairLe)
  {
    forall a: (string, string), b: (string, string) ensures PairLe(a, b) || PairLe(b, a) {
      StrLeTotal(a.0, b.0);
      StrLeTotal(a.1, b.1);
    }
    forall a: (string, string), b: (string, string), c: (string, string) | PairLe(a, b) && PairLe(b, c)
      ensures PairLe(a, c)
    {
      if a.0 != b.0 && b.0 != c.0 {
        StrLeTrans(a.0, b.0, c.0);
        if a.0 == c.0 { StrLeAntisym(a.0, b.0); }
      } else if a.0 == b.0 && b.0 == c.0 {
        StrLeTrans(a.1, b.1, c.1);
      }
    }
  }

  /** Orders triples of strings by the first component, then the second, then the third. */
  predicate TripleLe(a: (string, string, string), b: (string, string, string)) {
    StrLt(a.0, b.0) || (a.0 == b.0 && PairLe((a.1, a.2), (b.1, b.2)))
  }

  lemma TripleLeTotalPreorder()
    ensures TotalPreorder(TripleLe)
  {
    PairLeTotalPreorder();
    forall a: (string, string, string), b: (string, string, string) ensures TripleLe(a, b) || TripleLe(b, a) {
      StrLeTotal(a.0, b.0);
      assert PairLe((a.1, a.2), (b.1, b.2)) || PairLe((b.1, b.2), (a.1, a.2));
    }
    forall a: (string, string, string), b: (string, string, string), c: (string, string, string) | TripleLe(a, b) && TripleLe(b, c)
      ensures TripleLe(a, c)
    {
      if a.0 != b.0 && b.0 != c.0 {
        StrLeTrans(a.0, b.0, c.0);
        if a.0 == c.0 { StrLeAntisym(a.0, b.0); }
      } else if a.0 == b.0 && b.0 == c.0 {
        assert PairLe((a.1, a.2), (b.1, b.2)) && PairLe((b.1, b.2), (c.1, c.2));
      }
    }
  }

  /** TripleLe is antisymmetric, so sorting distinct triples leaves no ties to break. */
  lemma TripleLeAntisym(a: (string, string, string), b: (string, string, string))
    requires TripleLe(a, b) && TripleLe(b, a)
    ensures a == b
  {
    if a.0 == b.0 {
      if a.1 == b.1 {
        StrLeAntisym(a.2, b.2);
      } else {
        StrLeAntisym(a.1, b.1);
      }
    } else {
      StrLeAntisym(a.0, b.0);
    }
  }
}
