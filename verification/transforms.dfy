/**
 * The column transforms of the review pipeline: type coercions, rating-scale
 * inference and rescaling, tip-percentage fill and cap, review-length cap,
 * categorical normalisation and per-file deduplication.
 *
 * Numbers are exact reals; the parsers behind `pd.to_numeric` and
 * `pd.to_datetime` are parameters.
 */
module Transforms {
  import opened Wrappers
  import opened Text
  import opened Frames
  import opened Schema

  /** pd.to_numeric(errors="coerce") and pd.to_datetime(errors="coerce") on one text cell. */
  datatype Parsers = Parsers(number: string -> Option<real>, date: string -> Option<int>)

  // ---------------------------------------------------------------------
  // Cell coercions
  // ---------------------------------------------------------------------

  /** coerce_str: astype("string").str.strip(); missing stays missing. */
  function CoerceStr(v: Value): Value {
    match v
    case Str(s) => Str(Strip(s))
    case _ => v
  }

  /** clean_review_text: strip, and a text that strips to "" becomes missing. */
  function CleanText(v: Value): (r: Value)
    ensures r.Str? ==> r.s != [] && !IsSpace(r.s[0]) && !IsSpace(r.s[|r.s| - 1])
  {
    match v
    case Str(s) => if Strip(s) == "" then NA else Str(Strip(s))
    case _ => v
  }

  /** A text cell becomes missing exactly when it is missing or all whitespace. */
  lemma CleanTextMissing(s: string)
    ensures CleanText(Str(s)) == NA <==> forall i :: 0 <= i < |s| ==> IsSpace(s[i])
  {
    StripEmpty(s);
  }

  /** pd.to_numeric(errors="coerce"): a number or missing, and any number comes from the cell. */
  function CoerceNumeric(p: Parsers, v: Value): (r: Value)
    ensures r.NA? || r.Num?
    ensures r.Num? ==> r == v || (v.Str? && p.number(v.s) == Some(r.x))
  {
    match v
    case Str(s) => (match p.number(s) case Some(x) => Num(x) case None => NA)
    case Num(_) => v
    case _ => NA
  }

  /** pd.to_datetime(errors="coerce"): a date or missing, and any date comes from the cell. */
  function CoerceDate(p: Parsers, v: Value): (r: Value)
    ensures r.NA? || r.Day?
    ensures r.Day? ==> r == v || (v.Str? && p.date(v.s) == Some(r.d))
  {
    match v
    case Str(s) => (match p.date(s) case Some(d) => Day(d) case None => NA)
    case Day(_) => v
    case _ => NA
  }

  // ---------------------------------------------------------------------
  // Ratings
  // ---------------------------------------------------------------------

  /** Series.max(skipna=True) over the numeric cells; None when there is none. */
  function MaxNum(vs: seq<Value>): (m: Option<real>)
    ensures m.None? <==> forall i :: 0 <= i < |vs| ==> !vs[i].Num?
    ensures m.Some? ==> Num(m.value) in vs
    ensures m.Some? ==> forall i :: 0 <= i < |vs| && vs[i].Num? ==> vs[i].x <= m.value
  {
    if vs == [] then None
    else
      var rest := MaxNum(vs[1..]);
      assert forall i :: 1 <= i < |vs| ==> vs[i] == vs[1..][i - 1];
      if !vs[0].Num? then rest
      else match rest
        case None => Some(vs[0].x)
        case Some(m) => if vs[0].x >= m then Some(vs[0].x) else Some(m)
  }

  /** infer_rating_scale: 10 for a maximum in (5, 10], 100 for one in (10, 100], otherwise 5. */
  function InferRatingScale(vs: seq<Value>): (scale: real)
    ensures scale == 5.0 || scale == 10.0 || scale == 100.0
  {
    match MaxNum(vs)
    case None => 5.0
    case Some(vmax) =>
      if 5.0 < vmax <= 10.0 then 10.0
      else if 10.0 < vmax <= 100.0 then 100.0
      else 5.0
  }

  /** The scale is 5 when no rating parses, and otherwise follows the maximum rating. */
  lemma InferRatingScaleCases(vs: seq<Value>)
    ensures (forall i :: 0 <= i < |vs| ==> !vs[i].Num?) ==> InferRatingScale(vs) == 5.0
    ensures InferRatingScale(vs) == 10.0 <==> exists m :: MaxNum(vs) == Some(m) && 5.0 < m <= 10.0
    ensures InferRatingScale(vs) == 100.0 <==> exists m :: MaxNum(vs) == Some(m) && 10.0 < m <= 100.0
  {
  }

  /** rating_1_5 = rating_raw / scale * 5, with no clamping; missing stays missing. */
  function Rescale(v: Value, scale: real): (r: Value)
    requires scale > 0.0
    ensures r.Num? <==> v.Num?
    ensures r.Num? ==> r.x * scale == v.x * 5.0
  {
    match v
    case Num(x) => Num(x / scale * 5.0)
    case _ => NA
  }

  /**
   * With a maximum rating of at most 100 every rescaled rating is at most 5;
   * the scale never pushes a rating above the top of the 1-5 range.
   */
  lemma RescaledAtMostFive(vs: seq<Value>, i: nat)
    requires i < |vs| && vs[i].Num?
    requires MaxNum(vs).Some? && MaxNum(vs).value <= 100.0
    ensures Rescale(vs[i], InferRatingScale(vs)).x <= 5.0
  {
    var m := MaxNum(vs).value;
    var x := vs[i].x;
    assert x <= m;
    var scale := InferRatingScale(vs);
    if m <= 5.0 {
      assert scale == 5.0;
    } else if m <= 10.0 {
      assert scale == 10.0;
    } else {
      assert scale == 100.0;
    }
    assert x / scale <= 1.0 by {
      assert x <= scale;
      DivAtMostOne(x, scale);
    }
  }

  lemma DivAtMostOne(x: real, d: real)
    requires d > 0.0 && x <= d
    ensures x / d <= 1.0
  {
    assert x / d * d == x;
  }

  /** There is no lower clamp: a raw 0 gives 0 and a negative raw rating stays negative. */
  lemma RescaleNoClamp(x: real, scale: real)
    requires scale > 0.0
    ensures x == 0.0 ==> Rescale(Num(x), scale) == Num(0.0)
    ensures x < 0.0 ==> Rescale(Num(x), scale).x < 0.0
    ensures Rescale(NA, scale) == NA
  {
    if x < 0.0 {
      assert x / scale < 0.0;
    }
  }

  /** The rating columns: rating_raw coerced, rating_scale inferred, rating_1_5 rescaled; all missing without rating_raw. */
  function ApplyRatings(p: Parsers, f: Frame): (r: Frame)
    ensures |r.rows| == |f.rows|
    ensures "rating_raw" in r.columns && "rating_scale" in r.columns && "rating_1_5" in r.columns
    ensures forall d :: d in r.columns <==> d in f.columns || d in RatingCols
    ensures forall i, d :: 0 <= i < |f.rows| && d !in RatingCols ==> Get(r.rows[i], d) == Get(f.rows[i], d)
  {
    if "rating_raw" in f.columns then
      var g := Derive(f, "rating_raw", row => CoerceNumeric(p, Get(row, "rating_raw")));
      var scale := InferRatingScale(Column(g, "rating_raw"));
      var g2 := Derive(g, "rating_scale", row => Num(scale));
      Derive(g2, "rating_1_5", row => Rescale(Get(row, "rating_raw"), scale))
    else
      var g := Derive(f, "rating_raw", row => NA);
      var g2 := Derive(g, "rating_scale", row => NA);
      Derive(g2, "rating_1_5", row => NA)
  }

  const RatingCols: set<string> := {"rating_raw", "rating_scale", "rating_1_5"}

  /**
   * Row by row, with a rating_raw column: the raw rating is coerced, the scale
   * is the one inferred from the coerced column, and rating_1_5 is the coerced
   * rating rescaled by it.
   */
  lemma ApplyRatingsCells(p: Parsers, f: Frame, i: nat)
    requires "rating_raw" in f.columns && i < |f.rows|
    ensures var r := ApplyRatings(p, f); var scale := InferRatingScale(Column(r, "rating_raw"));
      && Get(r.rows[i], "rating_raw") == CoerceNumeric(p, Get(f.rows[i], "rating_raw"))
      && Get(r.rows[i], "rating_scale") == Num(scale)
      && Get(r.rows[i], "rating_1_5") == Rescale(Get(r.rows[i], "rating_raw"), scale)
  {
    var g := Derive(f, "rating_raw", row => CoerceNumeric(p, Get(row, "rating_raw")));
    assert Column(ApplyRatings(p, f), "rating_raw") == Column(g, "rating_raw");
  }

  /** Without a rating_raw column all three rating cells of every row are missing. */
  lemma ApplyRatingsMissing(p: Parsers, f: Frame, i: nat)
    requires "rating_raw" !in f.columns && i < |f.rows|
    ensures Get(ApplyRatings(p, f).rows[i], "rating_raw") == NA
    ensures Get(ApplyRatings(p, f).rows[i], "rating_scale") == NA
    ensures Get(ApplyRatings(p, f).rows[i], "rating_1_5") == NA
  {
  }


  /** Every rating_1_5 of a file whose numeric ratings are at most 100 is at most 5. */
  lemma ApplyRatingsAtMostFive(p: Parsers, f: Frame, i: nat)
    requires "rating_raw" in f.columns && i < |f.rows|
    requires Get(ApplyRatings(p, f).rows[i], "rating_1_5").Num?
    requires MaxNum(Column(ApplyRatings(p, f), "rating_raw")).value <= 100.0
    ensures Get(ApplyRatings(p, f).rows[i], "rating_1_5").x <= 5.0
  {
    var g := Derive(f, "rating_raw", row => CoerceNumeric(p, Get(row, "rating_raw")));
    var vs := Column(g, "rating_raw");
    var r := ApplyRatings(p, f);
    assert Column(r, "rating_raw") == vs;
    assert Get(r.rows[i], "rating_1_5") == Rescale(vs[i], InferRatingScale(vs));
    RescaledAtMostFive(vs, i);
  }

  // ---------------------------------------------------------------------
  // Tip percentage
  // ---------------------------------------------------------------------

  /** The compute_tip_pct mask: percentage missing or 0, total_spent > 0, tip_amount present. */
  predicate NeedsTip(row: Row) {
    && (Get(row, "tip_percentage").NA? || Get(row, "tip_percentage") == Num(0.0))
    && Get(row, "total_spent").Num? && Get(row, "total_spent").x > 0.0
    && Get(row, "tip_amount").Num?
  }

  function TipCell(row: Row): Value {
    if NeedsTip(row) then
      Num(Get(row, "tip_amount").x / Get(row, "total_spent").x * 100.0)
    else Get(row, "tip_percentage")
  }

  /** compute_tip_pct: fill tip_percentage on the masked rows, leave every other row as it was. */
  function ComputeTipPct(f: Frame): (r: Frame)
    ensures r.columns == WithColumn(f.columns, "tip_percentage") && |r.rows| == |f.rows|
    ensures forall i :: 0 <= i < |f.rows| && NeedsTip(f.rows[i]) ==>
      Get(r.rows[i], "tip_percentage") == Num(Get(f.rows[i], "tip_amount").x / Get(f.rows[i], "total_spent").x * 100.0)
    ensures forall i :: 0 <= i < |f.rows| && !NeedsTip(f.rows[i]) ==>
      Get(r.rows[i], "tip_percentage") == Get(f.rows[i], "tip_percentage")
    ensures forall i, d :: 0 <= i < |f.rows| && d != "tip_percentage" ==> Get(r.rows[i], d) == Get(f.rows[i], d)
  {
    Derive(f, "tip_percentage", TipCell)
  }

  /** After the fill, a row with a positive total and a present non-zero tip has a present, non-zero percentage. */
  lemma ComputeTipPctFills(f: Frame, i: nat)
    requires i < |f.rows|
    requires Get(f.rows[i], "total_spent").Num? && Get(f.rows[i], "total_spent").x > 0.0
    requires Get(f.rows[i], "tip_amount").Num? && Get(f.rows[i], "tip_amount").x != 0.0
    requires Get(f.rows[i], "tip_percentage").NA? || Get(f.rows[i], "tip_percentage").Num?
    ensures Get(ComputeTipPct(f).rows[i], "tip_percentage").Num?
    ensures Get(ComputeTipPct(f).rows[i], "tip_percentage") != Num(0.0)
  {
    var row := f.rows[i];
    if NeedsTip(row) {
      var t := Get(row, "tip_amount").x;
      var s := Get(row, "total_spent").x;
      assert t / s != 0.0;
    }
  }

  /** Filling twice is filling once. */
  lemma ComputeTipPctIdempotent(f: Frame)
    ensures ComputeTipPct(ComputeTipPct(f)) == ComputeTipPct(f)
  {
    var g := ComputeTipPct(f);
    var h := ComputeTipPct(g);
    assert WithColumn(g.columns, "tip_percentage") == g.columns;
    forall i | 0 <= i < |f.rows| ensures h.rows[i] == g.rows[i] {
      var row := g.rows[i];
      assert row == f.rows[i]["tip_percentage" := TipCell(f.rows[i])];
      if NeedsTip(row) {
        var t := Get(row, "tip_amount").x;
        var s := Get(row, "total_spent").x;
        assert NeedsTip(f.rows[i]);
        if Get(row, "tip_percentage") == Num(0.0) {
          assert t / s * 100.0 == 0.0;
          assert t == 0.0 by { assert t == (t / s) * s; }
        }
      }
    }
  }

  /** cap_tip_percentage: every present percentage above cap becomes cap. */
  function CapCell(v: Value, cap: real): Value {
    if v.Num? && v.x > cap then Num(cap) else v
  }

  function CapTipPercentage(f: Frame, cap: real): (r: Frame)
    ensures |r.rows| == |f.rows|
    ensures "tip_percentage" in f.columns ==>
      forall i :: 0 <= i < |f.rows| ==> Get(r.rows[i], "tip_percentage") == CapCell(Get(f.rows[i], "tip_percentage"), cap)
    ensures forall i, d :: 0 <= i < |f.rows| && d != "tip_percentage" ==> Get(r.rows[i], d) == Get(f.rows[i], d)
  {
    if "tip_percentage" in f.columns then Derive(f, "tip_percentage", row => CapCell(Get(row, "tip_percentage"), cap))
    else f
  }

  /**
   * After the cap no present percentage exceeds it; values at or below the
   * cap, negative ones included, and missing values are untouched.
   */
  lemma CapTipPercentageSpec(f: Frame, cap: real, i: nat)
    requires "tip_percentage" in f.columns && i < |f.rows|
    ensures var v := Get(CapTipPercentage(f, cap).rows[i], "tip_percentage");
            v.Num? ==> v.x <= cap
    ensures var old_v := Get(f.rows[i], "tip_percentage");
            !(old_v.Num? && old_v.x > cap) ==> Get(CapTipPercentage(f, cap).rows[i], "tip_percentage") == old_v
    ensures var old_v := Get(f.rows[i], "tip_percentage");
            old_v.Num? && old_v.x > cap ==> Get(CapTipPercentage(f, cap).rows[i], "tip_percentage") == Num(cap)
  {
  }

  lemma CapTipPercentageIdempotent(f: Frame, cap: real)
    ensures CapTipPercentage(CapTipPercentage(f, cap), cap) == CapTipPercentage(f, cap)
  {
    var g := CapTipPercentage(f, cap);
    if "tip_percentage" in f.columns {
      assert WithColumn(f.columns, "tip_percentage") == f.columns;
      var h := CapTipPercentage(g, cap);
      forall i | 0 <= i < |g.rows| ensures h.rows[i] == g.rows[i] {
        assert g.rows[i] == f.rows[i]["tip_percentage" := CapCell(Get(f.rows[i], "tip_percentage"), cap)];
      }
    }
  }

  // ---------------------------------------------------------------------
  // Review length
  // ---------------------------------------------------------------------

  function Min(a: int, b: int): int {
    if a <= b then a else b
  }

  /** cap_review_length: review_length is the full length, review_text_trunc the first max_len characters. */
  function CapReviewLength(f: Frame, maxLen: nat): (r: Frame)
    ensures |r.rows| == |f.rows|
    ensures "review_text" in f.columns ==> "review_length" in r.columns && "review_text_trunc" in r.columns
    ensures forall i, d :: 0 <= i < |f.rows| && d != "review_length" && d != "review_text_trunc" ==>
      Get(r.rows[i], d) == Get(f.rows[i], d)
  {
    if "review_text" in f.columns then
      var g := Derive(f, "review_length", row => match Get(row, "review_text") case Str(s) => Num(|s| as real) case _ => NA);
      Derive(g, "review_text_trunc", row => match Get(row, "review_text") case Str(s) => Str(s[..Min(|s|, maxLen)]) case _ => NA)
    else f
  }

  /**
   * For a present text s: review_length = len(s), review_text_trunc is the
   * prefix of length min(len(s), max_len), and review_text itself is kept.
   */
  lemma CapReviewLengthSpec(f: Frame, maxLen: nat, i: nat)
    requires "review_text" in f.columns && i < |f.rows| && Get(f.rows[i], "review_text").Str?
    ensures var s := Get(f.rows[i], "review_text").s;
            var row := CapReviewLength(f, maxLen).rows[i];
            && Get(row, "review_length") == Num(|s| as real)
            && Get(row, "review_text_trunc").Str?
            && |Get(row, "review_text_trunc").s| == Min(|s|, maxLen)
            && StartsWith(s, Get(row, "review_text_trunc").s)
            && Get(row, "review_text") == Str(s)
  {
  }

  /** A missing text has a missing length and a missing truncation. */
  lemma CapReviewLengthMissing(f: Frame, maxLen: nat, i: nat)
    requires "review_text" in f.columns && i < |f.rows| && Get(f.rows[i], "review_text") == NA
    ensures Get(CapReviewLength(f, maxLen).rows[i], "review_length") == NA
    ensures Get(CapReviewLength(f, maxLen).rows[i], "review_text_trunc") == NA
  {
  }

  // ---------------------------------------------------------------------
  // Categoricals
  // ---------------------------------------------------------------------

  /** coerce_str(...).str.lower() */
  function LowerStr(v: Value): Value {
    match v
    case Str(s) => Str(Lower(Strip(s)))
    case _ => v
  }

  /** .map(table).fillna(raw): a value missing from the table falls back to itself. */
  function MapCategory(table: map<string, string>, v: Value): (r: Value)
    ensures r.NA? <==> v.NA?
    ensures v.Str? ==> r.Str? && (r.s == v.s || r.s in table.Values)
  {
    match v
    case Str(s) => if s in table then Str(table[s]) else Str(s)
    case _ => v
  }

  /**
   * The derived value is missing exactly when the raw value is; otherwise it
   * is the table's entry, or the trimmed lower-cased raw value itself.
   */
  lemma MapCategorySpec(table: map<string, string>, v: Value)
    requires v.NA? || v.Str?
    ensures MapCategory(table, LowerStr(v)) == NA <==> v == NA
    ensures v.Str? ==> var l := Lower(Strip(v.s));
      MapCategory(table, LowerStr(v)) == (if l in table then Str(table[l]) else Str(l))
    ensures v.Str? && Lower(Strip(v.s)) !in table ==> MapCategory(table, LowerStr(v)) == LowerStr(v)
  {
  }

  /** One categorical: normalise the raw column in place and derive the mapped column. */
  function ApplyCategorical(f: Frame, c: Categorical): (r: Frame)
    ensures |r.rows| == |f.rows|
    ensures c.raw in f.columns ==> c.raw in r.columns && c.norm in r.columns
    ensures c.raw !in f.columns ==> r == f
    ensures forall d :: d in r.columns <==> d in f.columns || (c.raw in f.columns && d == c.norm)
    ensures forall i, d :: 0 <= i < |f.rows| && d != c.raw && d != c.norm ==> Get(r.rows[i], d) == Get(f.rows[i], d)
  {
    if c.raw in f.columns then
      var g := Derive(f, c.raw, row => LowerStr(Get(row, c.raw)));
      Derive(g, c.norm, row => MapCategory(c.table, Get(row, c.raw)))
    else f
  }

  /** In the derived column a cell is missing exactly when its raw cell is missing. */
  lemma ApplyCategoricalNulls(f: Frame, c: Categorical, i: nat)
    requires c.raw in f.columns && c.raw != c.norm && i < |f.rows|
    ensures Get(ApplyCategorical(f, c).rows[i], c.norm) == NA <==> Get(ApplyCategorical(f, c).rows[i], c.raw) == NA
    ensures Get(ApplyCategorical(f, c).rows[i], c.raw) == NA <==> Get(f.rows[i], c.raw) == NA
  {
  }

  /**
   * Row by row: the raw cell is trimmed and lower-cased, and the derived cell
   * is the table's entry for it, or the lowered text itself when the table has
   * none.
   */
  lemma ApplyCategoricalCells(f: Frame, c: Categorical, i: nat)
    requires c.raw in f.columns && c.raw != c.norm && i < |f.rows|
    ensures Get(ApplyCategorical(f, c).rows[i], c.raw) == LowerStr(Get(f.rows[i], c.raw))
    ensures Get(ApplyCategorical(f, c).rows[i], c.norm) == MapCategory(c.table, LowerStr(Get(f.rows[i], c.raw)))
    ensures Get(f.rows[i], c.raw).Str? ==> var l := Lower(Strip(Get(f.rows[i], c.raw).s));
      Get(ApplyCategorical(f, c).rows[i], c.norm) == if l in c.table then Str(c.table[l]) else Str(l)
  {
  }

  /** The text cells of a column, in order. */
  function Texts(vs: seq<Value>): (ts: seq<string>)
    ensures forall t :: t in ts <==> Str(t) in vs
  {
    if vs == [] then []
    else (if vs[0].Str? then [vs[0].s] else []) + Texts(vs[1..])
  }

  /** set(df[c].dropna().unique()), as a duplicate-free list of the column's texts. */
  function Observed(f: Frame, c: string): (vs: seq<string>)
  {
    Unique(Texts(Column(f, c)))
  }

  lemma ObservedSpec(f: Frame, c: string)
    ensures AllDistinct(Observed(f, c))
    ensures forall t :: t in Observed(f, c) <==> exists i :: 0 <= i < |f.rows| && Get(f.rows[i], c) == Str(t)
  {
    UniqueSpec(Texts(Column(f, c)));
    forall t ensures t in Observed(f, c) <==> exists i :: 0 <= i < |f.rows| && Get(f.rows[i], c) == Str(t) {
      if t in Observed(f, c) {
        var i :| 0 <= i < |Column(f, c)| && Column(f, c)[i] == Str(t);
        assert Get(f.rows[i], c) == Str(t);
      }
    }
  }

  // ---------------------------------------------------------------------
  // Deduplication
  // ---------------------------------------------------------------------

  /** A row with at least one present cell among the frame's columns. */
  predicate NotAllMissing(cols: seq<string>, row: Row) {
    exists k :: 0 <= k < |cols| && Get(row, cols[k]) != NA
  }

  /** dropna(how="all"). */
  function DropAllMissing(f: Frame): (r: Frame)
    ensures r.columns == f.columns
  {
    Frame(f.columns, FilterRows(f.rows, row => NotAllMissing(f.columns, row)))
  }

  /** A column present on every row keeps every row in dropna(how="all"). */
  lemma DropAllMissingKeepsAll(f: Frame, c: string)
    requires c in f.columns
    requires forall i :: 0 <= i < |f.rows| ==> Get(f.rows[i], c) != NA
    ensures DropAllMissing(f) == f
  {
    var k :| 0 <= k < |f.columns| && f.columns[k] == c;
    forall i | 0 <= i < |f.rows| ensures NotAllMissing(f.columns, f.rows[i]) {
      assert Get(f.rows[i], f.columns[k]) != NA;
    }
    FilterAll(f.rows, row => NotAllMissing(f.columns, row));
  }

  /** drop_duplicates(subset=cols, keep="first"). */
  function KeepFirst(f: Frame, cols: seq<string>): (r: Frame)
    ensures r.columns == f.columns && |r.rows| <= |f.rows|
  {
    DuplicatedPlusFirst(Keys(f.rows, cols));
    Rows(f, FirstIndices(Keys(f.rows, cols)))
  }

  /**
   * drop_duplicates keeps an order-preserving subsequence of the rows in
   * which no two rows share a key, keeps the first row of every key, and
   * loses no key.
   */
  lemma KeepFirstSpec(f: Frame, cols: seq<string>)
    ensures var idx := FirstIndices(Keys(f.rows, cols));
            && Increasing(idx)
            && (forall k :: 0 <= k < |idx| ==> idx[k] < |f.rows| && KeepFirst(f, cols).rows[k] == f.rows[idx[k]])
            && (forall k :: 0 <= k < |idx| ==> forall j :: 0 <= j < idx[k] ==> Project(f.rows[j], cols) != Project(f.rows[idx[k]], cols))
    ensures AllDistinct(Keys(KeepFirst(f, cols).rows, cols))
    ensures forall i :: 0 <= i < |f.rows| ==> Project(f.rows[i], cols) in Keys(KeepFirst(f, cols).rows, cols)
  {
    var ks := Keys(f.rows, cols);
    var idx := FirstIndices(ks);
    var r := KeepFirst(f, cols);
    UniqueSpec(ks);
    assert Keys(r.rows, cols) == Unique(ks);
    forall k | 0 <= k < |idx| ensures forall j :: 0 <= j < idx[k] ==> Project(f.rows[j], cols) != Project(f.rows[idx[k]], cols) {
      assert IsFirst(ks, idx[k]);
    }
    forall i | 0 <= i < |f.rows| ensures Project(f.rows[i], cols) in Keys(r.rows, cols) {
      assert ks[i] in ks;
    }
  }

  /** A frame whose keys are already distinct is left as it is. */
  lemma KeepFirstDistinct(f: Frame, cols: seq<string>)
    requires AllDistinct(Keys(f.rows, cols))
    ensures KeepFirst(f, cols) == f
  {
    FirstIndicesOfDistinct(Keys(f.rows, cols));
    PickAll(f.rows, FirstIndices(Keys(f.rows, cols)));
  }

  /** Removing rows from a frame whose keys under `sub` are distinct keeps them distinct. */
  lemma KeepFirstPreservesDistinct(f: Frame, cols: seq<string>, sub: seq<string>)
    requires AllDistinct(Keys(f.rows, sub))
    ensures AllDistinct(Keys(KeepFirst(f, cols).rows, sub))
  {
    var idx := FirstIndices(Keys(f.rows, cols));
    var r := KeepFirst(f, cols);
    forall a, b | 0 <= a < b < |r.rows| ensures Project(r.rows[a], sub) != Project(r.rows[b], sub) {
      assert idx[a] < idx[b];
    }
  }

  const CompositeKey: seq<string> := ["customer_name", "review_text", "review_date", "restaurant_name"]

  /** [c for c in cols if c in df.columns] */
  function Present(cols: seq<string>, f: Frame): (r: seq<string>)
    ensures forall c :: c in r <==> c in cols && c in f.columns
  {
    if cols == [] then []
    else (if cols[0] in f.columns then [cols[0]] else []) + Present(cols[1..], f)
  }

  /** deduplicate_reviews: drop all-missing rows, then first row per review_text, then first row per composite key. */
  function DeduplicateReviews(f: Frame): (r: Frame)
    ensures r.columns == f.columns && |r.rows| <= |f.rows|
  {
    var a := DropAllMissing(f);
    var b := if "review_text" in a.columns then KeepFirst(a, ["review_text"]) else a;
    var keyCols := Present(CompositeKey, b);
    if keyCols != [] then KeepFirst(b, keyCols) else b
  }

  /** After deduplication no two rows share review_text; missing texts count as equal, so at most one survives. */
  lemma DeduplicateUniqueText(f: Frame)
    requires "review_text" in f.columns
    ensures AllDistinct(Column(DeduplicateReviews(f), "review_text"))
  {
    var a := DropAllMissing(f);
    var b := KeepFirst(a, ["review_text"]);
    KeepFirstSpec(a, ["review_text"]);
    var keyCols := Present(CompositeKey, b);
    KeepFirstPreservesDistinct(b, keyCols, ["review_text"]);
    DistinctSingleKey(DeduplicateReviews(f), "review_text");
  }

  lemma DistinctSingleKey(f: Frame, c: string)
    requires AllDistinct(Keys(f.rows, [c]))
    ensures AllDistinct(Column(f, c))
  {
    forall i, j | 0 <= i < j < |f.rows| ensures Get(f.rows[i], c) != Get(f.rows[j], c) {
      assert Project(f.rows[i], [c]) != Project(f.rows[j], [c]);
    }
  }

  /** After deduplication no two rows share the composite key over the key columns present. */
  lemma DeduplicateUniqueComposite(f: Frame)
    requires Present(CompositeKey, f) != []
    ensures AllDistinct(Keys(DeduplicateReviews(f).rows, Present(CompositeKey, f)))
  {
    var a := DropAllMissing(f);
    var b := if "review_text" in a.columns then KeepFirst(a, ["review_text"]) else a;
    assert Present(CompositeKey, b) == Present(CompositeKey, f) by {
      PresentSameColumns(CompositeKey, b, f);
    }
    KeepFirstSpec(b, Present(CompositeKey, f));
  }

  lemma PresentSameColumns(cols: seq<string>, f: Frame, g: Frame)
    requires f.columns == g.columns
    ensures Present(cols, f) == Present(cols, g)
  {
  }

  /** With review_text among the columns, the composite-key pass removes nothing more. */
  lemma CompositePassNoOp(f: Frame)
    requires "review_text" in f.columns
    ensures var b := KeepFirst(DropAllMissing(f), ["review_text"]);
            KeepFirst(b, Present(CompositeKey, b)) == b
  {
    var b := KeepFirst(DropAllMissing(f), ["review_text"]);
    KeepFirstSpec(DropAllMissing(f), ["review_text"]);
    assert "review_text" in CompositeKey;
    DistinctByComponent(b.rows, "review_text", Present(CompositeKey, b));
    KeepFirstDistinct(b, Present(CompositeKey, b));
  }

  /** Rows whose cells in column c are pairwise distinct have pairwise distinct keys over any columns including c. */
  lemma DistinctByComponent(rows: seq<Row>, c: string, cols: seq<string>)
    requires AllDistinct(Keys(rows, [c])) && c in cols
    ensures AllDistinct(Keys(rows, cols))
  {
    var t :| 0 <= t < |cols| && cols[t] == c;
    forall i, j | 0 <= i < j < |rows| ensures Project(rows[i], cols) != Project(rows[j], cols) {
      assert Project(rows[i], [c]) != Project(rows[j], [c]);
      assert Project(rows[i], cols)[t] != Project(rows[j], cols)[t];
    }
  }

  /** Every surviving row is a row of the input: deduplication only removes rows. */
  lemma DeduplicateSubsequence(f: Frame)
    ensures forall k :: 0 <= k < |DeduplicateReviews(f).rows| ==> DeduplicateReviews(f).rows[k] in f.rows
  {
    var a := DropAllMissing(f);
    var b := if "review_text" in a.columns then KeepFirst(a, ["review_text"]) else a;
    var keyCols := Present(CompositeKey, b);
    if "review_text" in a.columns {
      KeepFirstSpec(a, ["review_text"]);
    }
    assert forall k :: 0 <= k < |b.rows| ==> b.rows[k] in a.rows;
    if keyCols != [] {
      KeepFirstSpec(b, keyCols);
    }
  }

  /** A value every input row carries in column c is carried by every surviving row. */
  lemma DeduplicateKeepsConstant(f: Frame, c: string, v: Value)
    requires forall i :: 0 <= i < |f.rows| ==> Get(f.rows[i], c) == v
    ensures forall k :: 0 <= k < |DeduplicateReviews(f).rows| ==> Get(DeduplicateReviews(f).rows[k], c) == v
  {
    DeduplicateSubsequence(f);
    assert forall row :: row in f.rows ==> Get(row, c) == v;
  }
}
