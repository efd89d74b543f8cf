/**
 * The unified review schema: the standard column list, the synonym table,
 * the categorical lookup tables, column-name normalisation and the mapping
 * from unified column names to the raw columns of one file.
 */
module Schema {
  import opened Wrappers
  import opened Text

  const StandardCols: seq<string> := [
    "review_id", "customer_name", "review_date", "rating_raw", "rating_scale",
    "rating_1_5", "review_text", "location", "restaurant_name",
    "total_spent", "tip_amount", "tip_percentage", "party_size",
    "age_range", "gender", "ethnicity", "source_file"
  ]

  /** The derived categorical columns, appended to the standard ones on output. */
  const NormCols: seq<string> := ["gender_norm", "ethnicity_norm", "age_group"]

  const ExpectedCols: seq<string> := StandardCols + NormCols

  /** Unified name and its synonyms, in the dictionary's insertion order. */
  type Synonyms = seq<(string, seq<string>)>

  const DefaultSynonyms: Synonyms := [
    ("review_id", ["review_id", "review_number", "id"]),
    ("customer_name", ["customer_name", "guest_name", "name"]),
    ("review_date", ["date", "visit_date", "review_date"]),
    ("rating_raw", ["rating", "satisfaction_score", "rating_out_of_10", "star_rating"]),
    ("review_text", ["review_text", "feedback_comments", "comments"]),
    ("location", ["location", "venue_location", "venue"]),
    ("restaurant_name", ["restaurant_name", "business_name", "establishment"]),
    ("total_spent", ["total_spent"]),
    ("tip_amount", ["tip_amount"]),
    ("tip_percentage", ["tip_percentage"]),
    ("party_size", ["party_size"]),
    ("age_range", ["age_range"]),
    ("gender", ["gender"]),
    ("ethnicity", ["ethnicity"])
  ]

  const GenderMap: map<string, string> := map[
    "m" := "male", "male" := "male",
    "f" := "female", "female" := "female",
    "o" := "other", "other" := "other",
    "non-binary" := "non_binary",
    "prefer not to say" := "na"
  ]

  const EthnicityMap: map<string, string> := map[
    "caucasian" := "caucasian",
    "white" := "caucasian",
    "black" := "african_american",
    "african american" := "african_american",
    "asian" := "asian",
    "latino" := "hispanic",
    "hispanic" := "hispanic",
    "mixed" := "mixed",
    "native american" := "native_american",
    "other" := "other"
  ]

  const AgeRangeMap: map<string, string> := map[
    "18-25" := "young_adult",
    "26-35" := "adult",
    "36-45" := "mid_age",
    "46-55" := "mature",
    "56-65" := "senior",
    "65+" := "elder"
  ]

  /** A categorical column, its lookup table and the derived column it fills. */
  datatype Categorical = Categorical(raw: string, table: map<string, string>, norm: string)

  /** The three categoricals, in the order the loader handles them. */
  const Categoricals: seq<Categorical> := [
    Categorical("gender", GenderMap, "gender_norm"),
    Categorical("ethnicity", EthnicityMap, "ethnicity_norm"),
    Categorical("age_range", AgeRangeMap, "age_group")
  ]

  /** The keys of a Python dict are distinct. */
  predicate DistinctKeys<V>(d: seq<(string, V)>) {
    forall i, j :: 0 <= i < j < |d| ==> d[i].0 != d[j].0
  }

  /** d[key] for a dict kept as an insertion-ordered list of pairs. */
  function Lookup<V>(d: seq<(string, V)>, key: string): (r: Option<V>)
    ensures r.None? <==> forall i :: 0 <= i < |d| ==> d[i].0 != key
    ensures r.Some? ==> exists i :: 0 <= i < |d| && d[i] == (key, r.value)
  {
    if d == [] then None
    else if d[0].0 == key then Some(d[0].1)
    else
      var r := Lookup(d[1..], key);
      assert forall i :: 1 <= i < |d| ==> d[i] == d[1..][i - 1];
      r
  }

  lemma LookupAt<V>(d: seq<(string, V)>, i: nat)
    requires DistinctKeys(d) && i < |d|
    ensures Lookup(d, d[i].0) == Some(d[i].1)
  {
    if i > 0 {
      assert d[i] == d[1..][i - 1];
      LookupAt(d[1..], i - 1);
    }
  }

  // ---------------------------------------------------------------------
  // normalize_colname
  // ---------------------------------------------------------------------

  /** c.strip().lower() with every whitespace run replaced by "_". */
  function NormalizeColname(c: string): (r: string)
    ensures NoSpace(r)
  {
    CollapseSpaces(Lower(Strip(c)))
  }

  lemma {:induction false} CollapseNoUpper(s: string)
    requires NoUpper(s)
    ensures NoUpper(CollapseSpaces(s))
    decreases |s|
  {
    if s != [] {
      if IsSpace(s[0]) {
        var rest := StripLeft(s);
        assert rest == s[|s| - |rest|..];
        CollapseNoUpper(rest);
      } else {
        CollapseNoUpper(s[1..]);
      }
    }
  }

  /** A normalised name has no whitespace anywhere and no upper-case letter. */
  lemma NormalizeColnameShape(c: string)
    ensures NoSpace(NormalizeColname(c)) && NoUpper(NormalizeColname(c))
  {
    CollapseNoUpper(Lower(Strip(c)));
  }

  lemma NormalizeColnameIdempotent(c: string)
    ensures NormalizeColname(NormalizeColname(c)) == NormalizeColname(c)
  {
    var r := NormalizeColname(c);
    NormalizeColnameShape(c);
    StripTrimmed(r);
    LowerNoUpper(r);
    CollapseNoSpace(r);
  }

  /** Leading and trailing whitespace go away; an inner whitespace run becomes one "_". */
  lemma NormalizeColnameRun(lead: string, a: string, w: string, b: string, trail: string)
    requires a != [] && b != [] && NoSpace(a) && NoSpace(b) && NoUpper(a) && NoUpper(b)
    requires w != [] && forall i :: 0 <= i < |w| ==> IsSpace(w[i])
    requires forall i :: 0 <= i < |lead| ==> IsSpace(lead[i])
    requires forall i :: 0 <= i < |trail| ==> IsSpace(trail[i])
    ensures NormalizeColname(lead + a + w + b + trail) == a + "_" + b
  {
    var core := a + w + b;
    assert lead + a + w + b + trail == lead + core + trail;
    assert core[0] == a[0] && core[|core| - 1] == b[|b| - 1];
    StripSurrounding(lead, core, trail);
    assert NoUpper(core) by {
      forall i | 0 <= i < |core| ensures !IsUpper(core[i]) {
        if i < |a| {
          assert core[i] == a[i];
        } else if i < |a| + |w| {
          assert core[i] == w[i - |a|] && IsSpace(w[i - |a|]);
        } else {
          assert core[i] == b[i - |a| - |w|];
        }
      }
    }
    LowerNoUpper(core);
    CollapseRun(a, w, b);
    CollapseNoSpace(b);
  }

  // ---------------------------------------------------------------------
  // build_colmap
  // ---------------------------------------------------------------------

  /** {normalize_colname(c): c for c in cols}: a later column wins a shared key. */
  function RawNorm(cols: seq<string>): (m: map<string, string>)
    ensures forall k :: k in m ==> m[k] in cols && NormalizeColname(m[k]) == k
    decreases |cols|
  {
    if cols == [] then map[]
    else
      var p := cols[..|cols| - 1];
      var c := cols[|cols| - 1];
      var m := RawNorm(p);
      assert forall k :: k in m ==> m[k] in cols;
      m[NormalizeColname(c) := c]
  }

  /** Every raw column's normalised name is a key. */
  lemma {:induction false} RawNormCovers(cols: seq<string>, i: nat)
    requires i < |cols|
    ensures NormalizeColname(cols[i]) in RawNorm(cols)
    decreases |cols|
  {
    if i < |cols| - 1 {
      RawNormCovers(cols[..|cols| - 1], i);
    }
  }

  /** The entry for a normalised name is the last column that normalises to it. */
  lemma {:induction false} RawNormLastWins(cols: seq<string>, i: nat)
    requires i < |cols|
    requires forall j :: i < j < |cols| ==> NormalizeColname(cols[j]) != NormalizeColname(cols[i])
    ensures NormalizeColname(cols[i]) in RawNorm(cols)
    ensures RawNorm(cols)[NormalizeColname(cols[i])] == cols[i]
    decreases |cols|
  {
    if i < |cols| - 1 {
      RawNormLastWins(cols[..|cols| - 1], i);
    }
  }

  /** The position of the earliest synonym present among the normalised raw names. */
  function FirstMatch(alts: seq<string>, rn: map<string, string>): (r: Option<nat>)
    ensures r.Some? ==> r.value < |alts| && NormalizeColname(alts[r.value]) in rn
    ensures r.Some? ==> forall j :: 0 <= j < r.value ==> NormalizeColname(alts[j]) !in rn
    ensures r.None? ==> forall j :: 0 <= j < |alts| ==> NormalizeColname(alts[j]) !in rn
  {
    if alts == [] then None
    else if NormalizeColname(alts[0]) in rn then Some(0)
    else match FirstMatch(alts[1..], rn)
      case None => None
      case Some(i) =>
        assert forall j :: 1 <= j <= i ==> alts[j] == alts[1..][j - 1];
        Some(i + 1)
  }

  /** The mapping build_colmap returns, as an insertion-ordered list of (unified, raw column). */
  function Colmap(rawCols: seq<string>, syn: Synonyms): (m: seq<(string, string)>)
    ensures |m| <= |syn|
    ensures forall k :: 0 <= k < |m| ==> m[k].1 in rawCols
    decreases |syn|
  {
    if syn == [] then []
    else
      var p := syn[..|syn| - 1];
      var (u, alts) := syn[|syn| - 1];
      var rn := RawNorm(rawCols);
      match FirstMatch(alts, rn)
      case None => Colmap(rawCols, p)
      case Some(i) => Colmap(rawCols, p) + [(u, rn[NormalizeColname(alts[i])])]
  }

  /**
   * Each unified name maps to the raw column its earliest-listed present
   * synonym normalises to; a unified name with no present synonym is absent.
   */
  lemma {:induction false} ColmapLookup(rawCols: seq<string>, syn: Synonyms, k: nat)
    requires DistinctKeys(syn) && k < |syn|
    ensures Lookup(Colmap(rawCols, syn), syn[k].0) ==
      match FirstMatch(syn[k].1, RawNorm(rawCols))
      case None => None
      case Some(i) => Some(RawNorm(rawCols)[NormalizeColname(syn[k].1[i])])
    decreases |syn|
  {
    var p := syn[..|syn| - 1];
    var rn := RawNorm(rawCols);
    ColmapKeysFrom(rawCols, p);
    if k == |syn| - 1 {
      assert forall j :: 0 <= j < |p| ==> p[j].0 != syn[k].0;
      match FirstMatch(syn[k].1, rn)
      case None =>
        assert forall i :: 0 <= i < |Colmap(rawCols, p)| ==> Colmap(rawCols, p)[i].0 != syn[k].0;
      case Some(i) =>
        var m := Colmap(rawCols, p);
        LookupAppendNew(m, syn[k].0, rn[NormalizeColname(syn[k].1[i])]);
    } else {
      assert syn[k] == p[k];
      ColmapLookup(rawCols, p, k);
      match FirstMatch(syn[|syn| - 1].1, rn)
      case None =>
      case Some(i) =>
        LookupAppendOther(Colmap(rawCols, p), syn[k].0, (syn[|syn| - 1].0, rn[NormalizeColname(syn[|syn| - 1].1[i])]));
    }
  }

  /** With distinct unified names in the table, the mapping has at most one entry per unified name. */
  lemma {:induction false} ColmapDistinct(rawCols: seq<string>, syn: Synonyms)
    requires DistinctKeys(syn)
    ensures DistinctKeys(Colmap(rawCols, syn))
    decreases |syn|
  {
    if syn != [] {
      var p := syn[..|syn| - 1];
      assert DistinctKeys(p);
      ColmapDistinct(rawCols, p);
      ColmapKeysFrom(rawCols, p);
      ColmapSnoc(rawCols, syn);
      assert forall j :: 0 <= j < |p| ==> p[j].0 != syn[|syn| - 1].0;
    }
  }

  /** Every key of the mapping is a unified name of the synonym table. */
  lemma {:induction false} ColmapKeysFrom(rawCols: seq<string>, syn: Synonyms)
    ensures forall i :: 0 <= i < |Colmap(rawCols, syn)| ==> exists j :: 0 <= j < |syn| && syn[j].0 == Colmap(rawCols, syn)[i].0
    decreases |syn|
  {
    if syn != [] {
      var p := syn[..|syn| - 1];
      ColmapKeysFrom(rawCols, p);
      ColmapSnoc(rawCols, syn);
      var mp := Colmap(rawCols, p);
      var m := Colmap(rawCols, syn);
      forall i | 0 <= i < |m| ensures exists j :: 0 <= j < |syn| && syn[j].0 == m[i].0 {
        if i < |mp| {
          var j :| 0 <= j < |p| && p[j].0 == mp[i].0;
          assert syn[j] == p[j];
        } else {
          assert syn[|syn| - 1].0 == m[i].0;
        }
      }
    } else {
      assert Colmap(rawCols, syn) == [];
    }
  }

  /** One more table entry adds at most one mapping entry, under its unified name, at the end. */
  lemma ColmapSnoc(rawCols: seq<string>, syn: Synonyms)
    requires syn != []
    ensures var m, mp := Colmap(rawCols, syn), Colmap(rawCols, syn[..|syn| - 1]);
      m == mp || (m != [] && m == mp + [(syn[|syn| - 1].0, m[|m| - 1].1)])
  {
  }

  /** d[key] = v: the value is overwritten in place when the key is present, appended otherwise. */
  function DictSet<V>(d: seq<(string, V)>, key: string, v: V): (r: seq<(string, V)>)
    ensures |r| == if Lookup(d, key).Some? then |d| else |d| + 1
  {
    if d == [] then [(key, v)]
    else if d[0].0 == key then [(key, v)] + d[1..]
    else
      assert Lookup(d, key) == Lookup(d[1..], key);
      [d[0]] + DictSet(d[1..], key, v)
  }

  /** After d[key] = v, looking key up gives v and every other key gives what it gave before. */
  lemma {:induction false} DictSetLookup<V>(d: seq<(string, V)>, key: string, v: V, other: string)
    ensures Lookup(DictSet(d, key, v), other) == if other == key then Some(v) else Lookup(d, other)
  {
    if d != [] && d[0].0 != key {
      DictSetLookup(d[1..], key, v, other);
    }
  }

  /** Assignment keeps the keys distinct. */
  lemma {:induction false} DictSetDistinct<V>(d: seq<(string, V)>, key: string, v: V)
    requires DistinctKeys(d)
    ensures DistinctKeys(DictSet(d, key, v))
  {
    if d != [] {
      var r := DictSet(d, key, v);
      if d[0].0 == key {
        assert forall i :: 1 <= i < |r| ==> r[i] == d[i];
      } else {
        var rest := DictSet(d[1..], key, v);
        DictSetDistinct(d[1..], key, v);
        DictSetLookup(d[1..], key, v, d[0].0);
        assert Lookup(d[1..], d[0].0).None? by {
          forall i | 0 <= i < |d[1..]| ensures d[1..][i].0 != d[0].0 {
            assert d[1..][i] == d[i + 1];
          }
        }
        assert forall i :: 0 <= i < |rest| ==> rest[i].0 != d[0].0;
        assert forall i :: 1 <= i < |r| ==> r[i] == rest[i - 1];
      }
    }
  }

  lemma LookupAppendNew<V>(d: seq<(string, V)>, key: string, v: V)
    requires forall i :: 0 <= i < |d| ==> d[i].0 != key
    ensures Lookup(d + [(key, v)], key) == Some(v)
  {
    if d != [] {
      assert (d + [(key, v)])[1..] == d[1..] + [(key, v)];
      LookupAppendNew(d[1..], key, v);
    }
  }

  lemma LookupAppendOther<V>(d: seq<(string, V)>, key: string, e: (string, V))
    requires e.0 != key
    ensures Lookup(d + [e], key) == Lookup(d, key)
  {
    if d != [] {
      assert (d + [e])[1..] == d[1..] + [e];
      LookupAppendOther(d[1..], key, e);
    }
  }

  /** build_colmap: the outer loop walks the synonym table, the inner one stops at the first present synonym. */
  method BuildColmap(rawCols: seq<string>, syn: Synonyms) returns (mapping: seq<(string, string)>)
    ensures mapping == Colmap(rawCols, syn)
  {
    var rawNorm := RawNorm(rawCols);
    mapping := [];
    var k := 0;
    while k < |syn|
      invariant 0 <= k <= |syn|
      invariant mapping == Colmap(rawCols, syn[..k])
    {
      var (unified, alts) := syn[k];
      var j := 0;
      while j < |alts|
        invariant 0 <= j <= |alts|
        invariant forall i :: 0 <= i < j ==> NormalizeColname(alts[i]) !in rawNorm
        invariant mapping == Colmap(rawCols, syn[..k])
      {
        if NormalizeColname(alts[j]) in rawNorm {
          FirstMatchAt(alts, rawNorm, j);
          mapping := mapping + [(unified, rawNorm[NormalizeColname(alts[j])])];
          break;
        }
        j := j + 1;
      }
      assert syn[..k + 1][..k] == syn[..k];
      assert syn[..k + 1][k] == (unified, alts);
      k := k + 1;
    }
    assert syn[..|syn|] == syn;
  }

  lemma {:induction false} FirstMatchAt(alts: seq<string>, rn: map<string, string>, j: nat)
    requires j < |alts| && NormalizeColname(alts[j]) in rn
    requires forall i :: 0 <= i < j ==> NormalizeColname(alts[i]) !in rn
    ensures FirstMatch(alts, rn) == Some(j)
  {
    if j > 0 {
      assert alts[j] == alts[1..][j - 1];
      assert forall i :: 0 <= i < j - 1 ==> alts[1..][i] == alts[i + 1];
      FirstMatchAt(alts[1..], rn, j - 1);
    }
  }
}
