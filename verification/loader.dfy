/**
 * ReviewLoader: standardises one raw review file into the unified schema,
 * logging which raw column fed each unified column (the schema audit) and
 * which categorical values each source used (the categorical summary).
 *
 * Two variants of load_and_standardize exist: src/etl/etl.py deduplicates
 * and returns the expected columns that are present; src/etl.py does not
 * deduplicate and selects every expected column, failing when a derived
 * categorical column is absent. Both share everything up to the caps.
 */
module Loader {
  import opened Wrappers
  import opened Text
  import opened Ordering
  import opened Frames
  import opened Schema
  import opened Transforms

  // ---------------------------------------------------------------------
  // The standardisation pipeline, step by step
  // ---------------------------------------------------------------------

  /** A row under normalised column names; of two columns with the same normalised name the first is kept. */
  function RenameRow(row: Row, cols: seq<string>): Row {
    if cols == [] then map[]
    else RenameRow(row, cols[1..])[NormalizeColname(cols[0]) := Get(row, cols[0])]
  }

  function NormalizeNames(cols: seq<string>): (r: seq<string>)
    ensures |r| == |cols| && forall k :: 0 <= k < |cols| ==> r[k] == NormalizeColname(cols[k])
  {
    seq(|cols|, k requires 0 <= k < |cols| => NormalizeColname(cols[k]))
  }

  /** df_raw.columns = [normalize_colname(c) for c in df_raw.columns] */
  function NormalizeHeader(raw: Frame): (r: Frame)
    ensures |r.rows| == |raw.rows| && r.columns == NormalizeNames(raw.columns)
  {
    Frame(NormalizeNames(raw.columns), seq(|raw.rows|, i requires 0 <= i < |raw.rows| => RenameRow(raw.rows[i], raw.columns)))
  }

  function MapKeys(m: seq<(string, string)>): (ks: seq<string>)
    ensures |ks| == |m| && forall k :: 0 <= k < |m| ==> ks[k] == m[k].0
  {
    seq(|m|, k requires 0 <= k < |m| => m[k].0)
  }

  /** One row of pd.DataFrame(selected): each unified column holds the cell of its raw column. */
  function MappedRow(row: Row, m: seq<(string, string)>): (r: Row)
    ensures forall u :: Get(r, u) == match Lookup(m, u) case Some(rc) => Get(row, rc) case None => NA
  {
    map u | u in MapKeys(m) :: Get(row, Lookup(m, u).value)
  }

  /** pd.DataFrame(selected): no rows at all when nothing was mapped. */
  function SelectMapped(df: Frame, m: seq<(string, string)>): (r: Frame)
    ensures r.columns == MapKeys(m)
    ensures |r.rows| == if m == [] then 0 else |df.rows|
    ensures forall i :: 0 <= i < |r.rows| ==> r.rows[i] == MappedRow(df.rows[i], m)
  {
    if m == [] then Frame([], [])
    else Frame(MapKeys(m), seq(|df.rows|, i requires 0 <= i < |df.rows| => MappedRow(df.rows[i], m)))
  }

  const TextCols: set<string> := {"customer_name", "location", "restaurant_name"}
  const NumericCols: set<string> := {"total_spent", "tip_amount", "tip_percentage", "party_size"}

  /** The coercion load_and_standardize applies to column c when the column is present. */
  function Coercion(p: Parsers, c: string, v: Value): Value {
    if c in TextCols then CoerceStr(v)
    else if c == "review_text" then CleanText(v)
    else if c == "review_date" then CoerceDate(p, v)
    else if c in NumericCols then CoerceNumeric(p, v)
    else v
  }

  function CoerceRow(p: Parsers, cols: seq<string>, row: Row): (r: Row)
    ensures forall d :: Get(r, d) == if d in cols then Coercion(p, d, Get(row, d)) else Get(row, d)
  {
    map d | d in row.Keys + (set c | c in cols) :: if d in cols then Coercion(p, d, Get(row, d)) else Get(row, d)
  }

  /**
   * The type coercions of load_and_standardize: every present column among
   * the text, date and numeric ones is coerced cell by cell; the columns are kept.
   */
  function CoerceTypes(p: Parsers, f: Frame): (r: Frame)
    ensures r.columns == f.columns && |r.rows| == |f.rows|
    ensures forall i, d :: 0 <= i < |f.rows| ==>
      Get(r.rows[i], d) == if d in f.columns then Coercion(p, d, Get(f.rows[i], d)) else Get(f.rows[i], d)
  {
    Frame(f.columns, seq(|f.rows|, i requires 0 <= i < |f.rows| => CoerceRow(p, f.columns, f.rows[i])))
  }

  /** compute_tip_pct runs only when both total_spent and tip_amount are columns. */
  function ApplyTip(f: Frame): (r: Frame)
    ensures |r.rows| == |f.rows| && forall c :: c in r.columns <==> c in f.columns || (c == "tip_percentage" && "total_spent" in f.columns && "tip_amount" in f.columns)
    ensures forall i, d :: 0 <= i < |f.rows| && d != "tip_percentage" ==> Get(r.rows[i], d) == Get(f.rows[i], d)
  {
    if "total_spent" in f.columns && "tip_amount" in f.columns then ComputeTipPct(f) else f
  }

  /** The three categoricals, gender, ethnicity, age_range, in that order. */
  function ApplyCategoricals(f: Frame): (r: Frame)
    ensures |r.rows| == |f.rows| && forall c :: c in f.columns ==> c in r.columns
    ensures forall k :: 0 <= k < |Categoricals| ==> (Categoricals[k].norm in r.columns <==> Categoricals[k].norm in f.columns || Categoricals[k].raw in f.columns)
    ensures forall i, d :: 0 <= i < |f.rows| && d !in CategoricalCols ==> Get(r.rows[i], d) == Get(f.rows[i], d)
  {
    var f1 := ApplyCategorical(f, Categoricals[0]);
    var f2 := ApplyCategorical(f1, Categoricals[1]);
    ApplyCategorical(f2, Categoricals[2])
  }

  /** The categorical steps add no column outside the categorical names. */
  lemma ApplyCategoricalsColumns(f: Frame, d: string)
    requires d !in CategoricalCols
    ensures d in ApplyCategoricals(f).columns <==> d in f.columns
  {
    var f1 := ApplyCategorical(f, Categoricals[0]);
    var f2 := ApplyCategorical(f1, Categoricals[1]);
    assert d != Categoricals[0].norm && d != Categoricals[1].norm && d != Categoricals[2].norm;
  }

  const CategoricalCols: set<string> := {"gender", "gender_norm", "ethnicity", "ethnicity_norm", "age_range", "age_group"}

  /** The unified columns that the file's header supplies, as (unified, raw) pairs. */
  function Mapping(syn: Synonyms, raw: Frame): seq<(string, string)> {
    Colmap(NormalizeHeader(raw).columns, syn)
  }

  lemma MapKeysLookup(m: seq<(string, string)>, u: string)
    ensures u in MapKeys(m) <==> Lookup(m, u).Some?
  {
    if u in MapKeys(m) {
      var k :| 0 <= k < |m| && MapKeys(m)[k] == u;
    }
  }

  /** The cell review_text of raw row i becomes: its mapped raw cell, cleaned, or missing when unmapped. */
  function MappedText(syn: Synonyms, raw: Frame, i: nat): Value
    requires i < |raw.rows|
  {
    match Lookup(Mapping(syn, raw), "review_text")
    case Some(rc) => CleanText(Get(NormalizeHeader(raw).rows[i], rc))
    case None => NA
  }

  /** pd.DataFrame(selected) with source_file set to the file's name. */
  function Stamped(syn: Synonyms, raw: Frame, fileName: string): (r: Frame)
    ensures |r.rows| == if Mapping(syn, raw) == [] then 0 else |raw.rows|
    ensures forall d :: d in r.columns <==> d == "source_file" || Lookup(Mapping(syn, raw), d).Some?
    ensures forall i :: 0 <= i < |r.rows| ==> Get(r.rows[i], "source_file") == Str(fileName)
    ensures forall i, d :: 0 <= i < |r.rows| && d != "source_file" ==>
      Get(r.rows[i], d) == match Lookup(Mapping(syn, raw), d) case Some(rc) => Get(NormalizeHeader(raw).rows[i], rc) case None => NA
  {
    var m := Mapping(syn, raw);
    var sel := SelectMapped(NormalizeHeader(raw), m);
    forall d ensures d in sel.columns <==> Lookup(m, d).Some? {
      MapKeysLookup(m, d);
    }
    Derive(sel, "source_file", Const(Str(fileName)))
  }

  // The column names the pipeline steps touch are distinct from one another.

  lemma TextNames()
    ensures "source_file" !in RatingCols && "source_file" !in CategoricalCols && "source_file" != "review_text"
    ensures "source_file" != "tip_percentage" && "source_file" != "review_length" && "source_file" != "review_text_trunc"
    ensures "review_text" !in RatingCols && "review_text" !in CategoricalCols
    ensures "review_text" != "tip_percentage" && "review_text" != "review_length" && "review_text" != "review_text_trunc"
  {
  }

  lemma StandardNames()
    ensures "source_file" in StandardCols && "review_text" in StandardCols
    ensures "source_file" in ExpectedCols && "review_text" in ExpectedCols
    ensures forall c :: c in ExpectedCols ==> c in StandardCols || c == NormCols[0] || c == NormCols[1] || c == NormCols[2]
  {
  }

  lemma CoercionNames(p: Parsers)
    ensures forall v :: Coercion(p, "source_file", v) == v
    ensures forall v :: Coercion(p, "review_text", v) == CleanText(v)
  {
  }

  lemma CategoricalNames(k: nat)
    requires k < |Categoricals|
    ensures Categoricals[k].norm == NormCols[k] && Categoricals[k].norm in ExpectedCols && Categoricals[k].norm !in StandardCols
    ensures Categoricals[k].norm !in RatingCols && Categoricals[k].norm != "tip_percentage" && Categoricals[k].norm != "source_file"
    ensures Categoricals[k].raw !in RatingCols && Categoricals[k].raw != "tip_percentage" && Categoricals[k].raw != "source_file"
    ensures Categoricals[k].norm != "review_length" && Categoricals[k].norm != "review_text_trunc"
  {
  }

  /** Type coercions, ratings and tip percentage: the rows are kept and only rating and tip columns are added. */
  function Typed(p: Parsers, f: Frame): (r: Frame)
    ensures |r.rows| == |f.rows|
    ensures forall d :: d !in RatingCols && d != "tip_percentage" ==> (d in r.columns <==> d in f.columns)
  {
    ApplyTip(ApplyRatings(p, CoerceTypes(p, f)))
  }

  /** Row by row, source_file passes untouched and review_text is cleaned when present. */
  lemma TypedRow(p: Parsers, f: Frame, i: nat)
    requires i < |f.rows|
    ensures Get(Typed(p, f).rows[i], "source_file") == Get(f.rows[i], "source_file")
    ensures Get(Typed(p, f).rows[i], "review_text") ==
      if "review_text" in f.columns then CleanText(Get(f.rows[i], "review_text")) else Get(f.rows[i], "review_text")
  {
    CoercionNames(p);
    TextNames();
  }

  /**
   * Everything up to and including the categoricals: one row per raw row
   * (none when no column was recognised); review_text exists exactly when
   * it was mapped.
   */
  function Prepare(p: Parsers, syn: Synonyms, raw: Frame, fileName: string): (r: Frame)
    ensures |r.rows| == if Mapping(syn, raw) == [] then 0 else |raw.rows|
    ensures "source_file" in r.columns
    ensures "review_text" in r.columns <==> Lookup(Mapping(syn, raw), "review_text").Some?
  {
    var st := Stamped(syn, raw, fileName);
    var ty := Typed(p, st);
    assert "source_file" in ty.columns && ("review_text" in ty.columns <==> "review_text" in st.columns) by { TextNames(); }
    var r := ApplyCategoricals(ty);
    assert "review_text" in r.columns <==> "review_text" in ty.columns by {
      TextNames();
      ApplyCategoricalsColumns(ty, "review_text");
    }
    r
  }

  /** A derived categorical column exists exactly when its raw column (or the derived column itself) was mapped. */
  lemma PrepareNormColumn(p: Parsers, syn: Synonyms, raw: Frame, fileName: string, k: nat)
    requires k < |Categoricals|
    ensures Categoricals[k].norm in Prepare(p, syn, raw, fileName).columns <==>
      Lookup(Mapping(syn, raw), Categoricals[k].norm).Some? || Lookup(Mapping(syn, raw), Categoricals[k].raw).Some?
  {
    CategoricalNames(k);
  }

  /** Row i of the prepared frame carries the file name and the cleaned text of raw row i. */
  lemma PrepareRow(p: Parsers, syn: Synonyms, raw: Frame, fileName: string, i: nat)
    requires i < |Prepare(p, syn, raw, fileName).rows|
    ensures Get(Prepare(p, syn, raw, fileName).rows[i], "source_file") == Str(fileName)
    ensures Get(Prepare(p, syn, raw, fileName).rows[i], "review_text") == MappedText(syn, raw, i)
  {
    TextNames();
    TypedRow(p, Stamped(syn, raw, fileName), i);
  }

  /** `for c in cols: if c not in df.columns: df[c] = NaN`, unrolled from the left. */
  function EnsureColumns(f: Frame, cols: seq<string>): (r: Frame)
    ensures |r.rows| == |f.rows|
    ensures forall c :: c in cols || c in f.columns <==> c in r.columns
    ensures forall i, d :: 0 <= i < |f.rows| && d in f.columns ==> Get(r.rows[i], d) == Get(f.rows[i], d)
    ensures forall i, d :: 0 <= i < |f.rows| && d in cols && d !in f.columns ==> Get(r.rows[i], d) == NA
    decreases |cols|
  {
    if cols == [] then f
    else
      var g := EnsureColumns(f, cols[..|cols| - 1]);
      var c := cols[|cols| - 1];
      assert forall d :: d in cols <==> d in cols[..|cols| - 1] || d == c;
      if c in g.columns then g else Derive(g, c, Const(NA))
  }

  /** The outlier steps: tip percentage capped at 30, review text truncated at 2000 characters. */
  function Caps(f: Frame): (r: Frame)
    ensures |r.rows| == |f.rows|
    ensures forall c :: c in f.columns ==> c in r.columns
    ensures forall c :: c in r.columns ==> c in f.columns || c == "review_length" || c == "review_text_trunc"
    ensures forall i, d :: 0 <= i < |f.rows| && d != "tip_percentage" && d != "review_length" && d != "review_text_trunc" ==>
      Get(r.rows[i], d) == Get(f.rows[i], d)
  {
    CapReviewLength(CapTipPercentage(f, 30.0), 2000)
  }

  /**
   * The frame both variants reach before their final step: every standard
   * column exists, and a derived categorical column exists exactly when the
   * prepared frame had it.
   */
  function Standardized(p: Parsers, syn: Synonyms, raw: Frame, fileName: string): (r: Frame)
    ensures |r.rows| == |Prepare(p, syn, raw, fileName).rows|
    ensures forall c :: c in StandardCols ==> c in r.columns
    ensures forall c :: c !in StandardCols && c != "review_length" && c != "review_text_trunc" ==>
      (c in r.columns <==> c in Prepare(p, syn, raw, fileName).columns)
  {
    Caps(EnsureColumns(Prepare(p, syn, raw, fileName), StandardCols))
  }

  /** Row i still carries the file name and the cleaned text of raw row i; an unmapped text is missing. */
  lemma StandardizedRow(p: Parsers, syn: Synonyms, raw: Frame, fileName: string, i: nat)
    requires i < |Prepare(p, syn, raw, fileName).rows|
    ensures Get(Standardized(p, syn, raw, fileName).rows[i], "source_file") == Str(fileName)
    ensures Get(Standardized(p, syn, raw, fileName).rows[i], "review_text") == MappedText(syn, raw, i)
  {
    TextNames();
    StandardNames();
    PrepareRow(p, syn, raw, fileName, i);
  }

  /** So in the standardised frame too a derived categorical column exists exactly when it or its raw column was mapped. */
  lemma StandardizedNormColumn(p: Parsers, syn: Synonyms, raw: Frame, fileName: string, k: nat)
    requires k < |Categoricals|
    ensures Categoricals[k].norm in Standardized(p, syn, raw, fileName).columns <==>
      Lookup(Mapping(syn, raw), Categoricals[k].norm).Some? || Lookup(Mapping(syn, raw), Categoricals[k].raw).Some?
  {
    CategoricalNames(k);
    PrepareNormColumn(p, syn, raw, fileName, k);
  }

  /** src/etl/etl.py: deduplicate, then keep the expected columns that are present. */
  function LoadDedup(p: Parsers, syn: Synonyms, raw: Frame, fileName: string): (r: Frame)
    ensures forall c :: c in r.columns <==> c in ExpectedCols && c in Standardized(p, syn, raw, fileName).columns
    ensures |r.rows| <= |Standardized(p, syn, raw, fileName).rows|
  {
    var d := DeduplicateReviews(Standardized(p, syn, raw, fileName));
    Select(d, Present(ExpectedCols, d))
  }

  /** src/etl.py: select every expected column; pandas raises KeyError naming the absent ones. */
  function LoadFixed(p: Parsers, syn: Synonyms, raw: Frame, fileName: string): (r: Result<Frame, seq<string>>)
    ensures r.Success? ==> r.value.columns == ExpectedCols && |r.value.rows| == |Standardized(p, syn, raw, fileName).rows|
    ensures r.Failure? ==> r.error != [] && forall c :: c in r.error ==> c in ExpectedCols && c !in Standardized(p, syn, raw, fileName).columns
  {
    var s := Standardized(p, syn, raw, fileName);
    var missing := Absent(ExpectedCols, s);
    if missing != [] then Failure(missing) else Success(Select(s, ExpectedCols))
  }

  // ---------------------------------------------------------------------
  // Properties of the pipeline
  // ---------------------------------------------------------------------

  /** Every row of the standardised frame carries the file name in source_file. */
  lemma SourceFileEverywhere(p: Parsers, syn: Synonyms, raw: Frame, fileName: string)
    ensures forall i :: 0 <= i < |Standardized(p, syn, raw, fileName).rows| ==>
      Get(Standardized(p, syn, raw, fileName).rows[i], "source_file") == Str(fileName)
  {
    forall i | 0 <= i < |Standardized(p, syn, raw, fileName).rows|
      ensures Get(Standardized(p, syn, raw, fileName).rows[i], "source_file") == Str(fileName)
    {
      StandardizedRow(p, syn, raw, fileName, i);
    }
  }

  /** So the all-missing drop inside the deduplication removes nothing. */
  lemma DropAllMissingNoOp(p: Parsers, syn: Synonyms, raw: Frame, fileName: string)
    ensures DropAllMissing(Standardized(p, syn, raw, fileName)) == Standardized(p, syn, raw, fileName)
  {
    StandardNames();
    SourceFileEverywhere(p, syn, raw, fileName);
    DropAllMissingKeepsAll(Standardized(p, syn, raw, fileName), "source_file");
  }

  /** The deduplicating variant returns only rows of the file, each stamped with its name. */
  lemma LoadDedupSourceFile(p: Parsers, syn: Synonyms, raw: Frame, fileName: string)
    ensures forall i :: 0 <= i < |LoadDedup(p, syn, raw, fileName).rows| ==>
      Get(LoadDedup(p, syn, raw, fileName).rows[i], "source_file") == Str(fileName)
  {
    var s := Standardized(p, syn, raw, fileName);
    var d := DeduplicateReviews(s);
    assert LoadDedup(p, syn, raw, fileName) == Select(d, Present(ExpectedCols, d));
    StandardNames();
    SourceFileEverywhere(p, syn, raw, fileName);
    DeduplicateKeepsConstant(s, "source_file", Str(fileName));
    assert "source_file" in Present(ExpectedCols, d);
    forall i | 0 <= i < |d.rows| ensures Get(Select(d, Present(ExpectedCols, d)).rows[i], "source_file") == Str(fileName) {
      assert Get(d.rows[i], "source_file") == Str(fileName);
    }
  }

  /** The deduplicating variant returns rows with pairwise distinct review_text. */
  lemma LoadDedupUniqueText(p: Parsers, syn: Synonyms, raw: Frame, fileName: string)
    ensures forall i, j :: 0 <= i < j < |LoadDedup(p, syn, raw, fileName).rows| ==>
      Get(LoadDedup(p, syn, raw, fileName).rows[i], "review_text") != Get(LoadDedup(p, syn, raw, fileName).rows[j], "review_text")
  {
    var s := Standardized(p, syn, raw, fileName);
    var d := DeduplicateReviews(s);
    var r := LoadDedup(p, syn, raw, fileName);
    assert r == Select(d, Present(ExpectedCols, d));
    StandardNames();
    DeduplicateUniqueText(s);
    assert "review_text" in Present(ExpectedCols, d);
    forall i, j | 0 <= i < j < |r.rows| ensures Get(r.rows[i], "review_text") != Get(r.rows[j], "review_text") {
      assert Column(d, "review_text")[i] != Column(d, "review_text")[j];
    }
  }

  /**
   * The fixed-selection variant fails exactly when, for one of gender,
   * ethnicity and age_range, neither the raw column nor its derived column
   * was mapped; it then names the missing derived columns.
   */
  lemma LoadFixedFailsIffCategoricalMissing(p: Parsers, syn: Synonyms, raw: Frame, fileName: string)
    ensures LoadFixed(p, syn, raw, fileName).Failure? ==>
      exists k :: 0 <= k < |Categoricals| &&
        Lookup(Mapping(syn, raw), Categoricals[k].raw).None? && Lookup(Mapping(syn, raw), Categoricals[k].norm).None?
    ensures LoadFixed(p, syn, raw, fileName).Success? ==>
      forall k :: 0 <= k < |Categoricals| ==>
        Lookup(Mapping(syn, raw), Categoricals[k].raw).Some? || Lookup(Mapping(syn, raw), Categoricals[k].norm).Some?
  {
    var s := Standardized(p, syn, raw, fileName);
    if Absent(ExpectedCols, s) != [] {
      AbsentCategorical(p, syn, raw, fileName);
    } else {
      forall k | 0 <= k < |Categoricals|
        ensures Lookup(Mapping(syn, raw), Categoricals[k].raw).Some? || Lookup(Mapping(syn, raw), Categoricals[k].norm).Some?
      {
        PresentCategorical(p, syn, raw, fileName, k);
      }
    }
  }

  /** An absent expected column is a derived categorical column whose raw and derived names were both unmapped. */
  lemma AbsentCategorical(p: Parsers, syn: Synonyms, raw: Frame, fileName: string)
    requires Absent(ExpectedCols, Standardized(p, syn, raw, fileName)) != []
    ensures exists k :: 0 <= k < |Categoricals| &&
                        Lookup(Mapping(syn, raw), Categoricals[k].raw).None? && Lookup(Mapping(syn, raw), Categoricals[k].norm).None?
  {
    var s := Standardized(p, syn, raw, fileName);
    var c := Absent(ExpectedCols, s)[0];
    assert c in ExpectedCols && c !in s.columns;
    assert c == NormCols[0] || c == NormCols[1] || c == NormCols[2] by { StandardNames(); }
    var k := if c == NormCols[0] then 0 else if c == NormCols[1] then 1 else 2;
    CategoricalNames(k);
    StandardizedNormColumn(p, syn, raw, fileName, k);
  }

  /** With no expected column absent, every categorical had its raw or its derived column mapped. */
  lemma PresentCategorical(p: Parsers, syn: Synonyms, raw: Frame, fileName: string, k: nat)
    requires Absent(ExpectedCols, Standardized(p, syn, raw, fileName)) == [] && k < |Categoricals|
    ensures Lookup(Mapping(syn, raw), Categoricals[k].raw).Some? || Lookup(Mapping(syn, raw), Categoricals[k].norm).Some?
  {
    CategoricalNames(k);
    StandardizedNormColumn(p, syn, raw, fileName, k);
    assert Categoricals[k].norm !in Absent(ExpectedCols, Standardized(p, syn, raw, fileName));
  }

  /**
   * Without deduplication, a file with at least one recognised column yields
   * one output row per raw row, in order: row i carries the file name and the
   * cleaned text of raw row i.
   */
  lemma LoadFixedRowsCorrespond(p: Parsers, syn: Synonyms, raw: Frame, fileName: string, i: nat)
    requires LoadFixed(p, syn, raw, fileName).Success?
    requires Mapping(syn, raw) != [] && i < |raw.rows|
    ensures |LoadFixed(p, syn, raw, fileName).value.rows| == |raw.rows|
    ensures Get(LoadFixed(p, syn, raw, fileName).value.rows[i], "source_file") == Str(fileName)
    ensures Get(LoadFixed(p, syn, raw, fileName).value.rows[i], "review_text") == MappedText(syn, raw, i)
  {
    var st := Standardized(p, syn, raw, fileName);
    assert |st.rows| == |raw.rows|;
    assert LoadFixed(p, syn, raw, fileName).value == Select(st, ExpectedCols);
    assert "source_file" in ExpectedCols && "review_text" in ExpectedCols by { StandardNames(); }
    StandardizedRow(p, syn, raw, fileName, i);
    SelectGet(st, ExpectedCols, i, "source_file");
    SelectGet(st, ExpectedCols, i, "review_text");
  }

  /** A file none of whose columns is recognised yields no rows. */
  lemma UnrecognisedFileIsEmpty(p: Parsers, syn: Synonyms, raw: Frame, fileName: string)
    requires Mapping(syn, raw) == []
    ensures |LoadDedup(p, syn, raw, fileName).rows| == 0
    ensures LoadFixed(p, syn, raw, fileName).Success? ==> |LoadFixed(p, syn, raw, fileName).value.rows| == 0
  {
  }

  // ---------------------------------------------------------------------
  // The loader object: schema audit and categorical summary
  // ---------------------------------------------------------------------

  /** One entry of schema_audit_rows; raw_col is the header name after normalisation. */
  datatype AuditRow = AuditRow(sourceFile: string, unifiedCol: string, rawCol: string)

  /** The audit rows one file appends: one per mapped unified column, in mapping order. */
  function AuditFor(fileName: string, m: seq<(string, string)>): seq<AuditRow> {
    seq(|m|, k requires 0 <= k < |m| => AuditRow(fileName, m[k].0, m[k].1))
  }

  /** cat_summary: for each categorical column, a dict from source name to the values it used. */
  type Summary = map<string, seq<(string, seq<string>)>>

  /** `self.cat_summary[c.raw][source] = set(df[c.raw].dropna().unique())`, run when c.raw is a column. */
  function RecordOne(s: Summary, before: Frame, after: Frame, c: Categorical, source: string): Summary {
    if c.raw in before.columns then
      s[c.raw := DictSet(if c.raw in s then s[c.raw] else [], source, Observed(after, c.raw))]
    else s
  }

  /** The summary after the three categorical steps applied to f. */
  function Summarize(s: Summary, f: Frame, source: string): Summary {
    var f1 := ApplyCategorical(f, Categoricals[0]);
    var f2 := ApplyCategorical(f1, Categoricals[1]);
    var f3 := ApplyCategorical(f2, Categoricals[2]);
    RecordOne(RecordOne(RecordOne(s, f, f1, Categoricals[0], source), f1, f2, Categoricals[1], source), f2, f3, Categoricals[2], source)
  }

  class ReviewLoader {
    const synonyms: Synonyms
    var auditRows: seq<AuditRow>
    var catSummary: Summary

    ghost predicate Valid()
      reads this
    {
      && catSummary.Keys == {"gender", "ethnicity", "age_range"}
      && forall col :: col in catSummary ==> DistinctKeys(catSummary[col])
    }

    constructor(synonyms: Synonyms)
      ensures Valid()
      ensures this.synonyms == synonyms && auditRows == []
      ensures catSummary == map["gender" := [], "ethnicity" := [], "age_range" := []]
    {
      this.synonyms := synonyms;
      auditRows := [];
      catSummary := map["gender" := [], "ethnicity" := [], "age_range" := []];
    }

    /** The schema-audit loop: one row per mapped unified column, appended in mapping order. */
    method RecordAudit(fileName: string, mapping: seq<(string, string)>)
      modifies this
      ensures auditRows == old(auditRows) + AuditFor(fileName, mapping)
      ensures catSummary == old(catSummary)
    {
      for k := 0 to |mapping|
        invariant auditRows == old(auditRows) + AuditFor(fileName, mapping[..k])
        invariant catSummary == old(catSummary)
      {
        auditRows := auditRows + [AuditRow(fileName, mapping[k].0, mapping[k].1)];
      }
      assert mapping[..|mapping|] == mapping;
    }

    /** The three categorical blocks, each recording the values its raw column held. */
    method Categorize(typed: Frame, sourceName: string) returns (df: Frame)
      requires Valid()
      modifies this
      ensures Valid()
      ensures df == ApplyCategoricals(typed)
      ensures catSummary == Summarize(old(catSummary), typed, sourceName)
      ensures auditRows == old(auditRows)
    {
      var before := typed;
      df := ApplyCategorical(typed, Categoricals[0]);
      RecordKeepsValid(catSummary, before, df, Categoricals[0], sourceName);
      catSummary := RecordOne(catSummary, before, df, Categoricals[0], sourceName);
      before := df;
      df := ApplyCategorical(df, Categoricals[1]);
      RecordKeepsValid(catSummary, before, df, Categoricals[1], sourceName);
      catSummary := RecordOne(catSummary, before, df, Categoricals[1], sourceName);
      before := df;
      df := ApplyCategorical(df, Categoricals[2]);
      RecordKeepsValid(catSummary, before, df, Categoricals[2], sourceName);
      catSummary := RecordOne(catSummary, before, df, Categoricals[2], sourceName);
    }

    /** The steps both variants of load_and_standardize share, up to the caps. */
    method Standardize(p: Parsers, raw: Frame, fileName: string, sourceName: string) returns (df: Frame)
      requires Valid()
      modifies this
      ensures Valid()
      ensures df == Standardized(p, synonyms, raw, fileName)
      ensures auditRows == old(auditRows) + AuditFor(fileName, Mapping(synonyms, raw))
      ensures catSummary == Summarize(old(catSummary), Typed(p, Stamped(synonyms, raw, fileName)), sourceName)
    {
      var header := NormalizeHeader(raw);
      var mapping := BuildColmap(header.columns, synonyms);
      RecordAudit(fileName, mapping);
      var typed := StampAndType(p, header, mapping, fileName);
      df := Categorize(typed, sourceName);
      df := EnsureStandard(df);
      df := CapTipPercentage(df, 30.0);
      df := CapReviewLength(df, 2000);
    }

    /** load_and_standardize of src/etl/etl.py: deduplicate, then keep the expected columns present. */
    method LoadAndStandardize(p: Parsers, raw: Frame, fileName: string, sourceName: string) returns (out: Frame)
      requires Valid()
      modifies this
      ensures Valid()
      ensures out == LoadDedup(p, synonyms, raw, fileName)
      ensures auditRows == old(auditRows) + AuditFor(fileName, Mapping(synonyms, raw))
      ensures catSummary == Summarize(old(catSummary), Typed(p, Stamped(synonyms, raw, fileName)), sourceName)
    {
      var df := Standardize(p, raw, fileName, sourceName);
      df := DeduplicateReviews(df);
      out := Select(df, Present(ExpectedCols, df));
    }

    /**
     * load_and_standardize of src/etl.py: select every expected column; the
     * audit and summary updates made before the KeyError stay in place.
     */
    method LoadAndStandardizeFixed(p: Parsers, raw: Frame, fileName: string, sourceName: string) returns (out: Result<Frame, seq<string>>)
      requires Valid()
      modifies this
      ensures Valid()
      ensures out == LoadFixed(p, synonyms, raw, fileName)
      ensures auditRows == old(auditRows) + AuditFor(fileName, Mapping(synonyms, raw))
      ensures catSummary == Summarize(old(catSummary), Typed(p, Stamped(synonyms, raw, fileName)), sourceName)
    {
      var df := Standardize(p, raw, fileName, sourceName);
      var missing := Absent(ExpectedCols, df);
      if missing != [] {
        out := Failure(missing);
      } else {
        out := Success(Select(df, ExpectedCols));
      }
    }

    /**
     * schema_audit: the log sorted by source file and unified column, stably
     * (rows that share both keys keep their log order); an empty log has no
     * columns to sort by.
     */
    function SchemaAudit(): (r: Result<seq<AuditRow>, string>)
      reads this
      ensures r.Failure? <==> auditRows == []
      ensures r.Success? ==> SortedBy(r.value, AuditLe) && multiset(r.value) == multiset(auditRows)
      ensures r.Success? ==> forall y :: Ties(r.value, AuditLe, y) == Ties(auditRows, AuditLe, y)
    {
      if auditRows == [] then Failure("KeyError: source_file")
      else
        AuditLeTotalPreorder();
        SortByStable(auditRows, AuditLe);
        Success(SortBy(auditRows, AuditLe))
    }

    /** categorical_report: one row per (column, source, value), sorted by all three. */
    method CategoricalReport() returns (r: Result<seq<CatRow>, string>)
      requires Valid()
      ensures r == Report(catSummary)
    {
      var rows: seq<CatRow> := [];
      for ci := 0 to |CatKeys|
        invariant rows == ReportRows(catSummary, CatKeys[..ci])
      {
        var col := CatKeys[ci];
        assert CatKeys[..ci + 1][..ci] == CatKeys[..ci];
        assert col in catSummary;
        var part := CollectSources(col, catSummary[col]);
        rows := rows + part;
      }
      assert CatKeys[..|CatKeys|] == CatKeys;
      if rows == [] {
        r := Failure("KeyError: column");
      } else {
        TripleLeTotalPreorder();
        r := Success(SortBy(rows, TripleLe));
      }
    }
  }

  /** Selects the mapped columns, stamps source_file and applies the coercions, ratings and tip. */
  method StampAndType(p: Parsers, header: Frame, mapping: seq<(string, string)>, fileName: string) returns (df: Frame)
    ensures df == Typed(p, Derive(SelectMapped(header, mapping), "source_file", Const(Str(fileName))))
  {
    df := SelectMapped(header, mapping);
    df := Derive(df, "source_file", Const(Str(fileName)));
    df := CoerceTypes(p, df);
    df := ApplyRatings(p, df);
    df := ApplyTip(df);
  }

  /** The loop adding every missing standard column, filled with missing values. */
  method EnsureStandard(prepared: Frame) returns (df: Frame)
    ensures df == EnsureColumns(prepared, StandardCols)
  {
    df := prepared;
    for k := 0 to |StandardCols|
      invariant df == EnsureColumns(prepared, StandardCols[..k])
    {
      EnsureColumnsStep(prepared, StandardCols, k);
      if StandardCols[k] !in df.columns {
        df := Derive(df, StandardCols[k], Const(NA));
      }
    }
    assert StandardCols[..|StandardCols|] == StandardCols;
  }

  /** One more column is added as missing cells, unless the frame has it already. */
  lemma EnsureColumnsStep(f: Frame, cols: seq<string>, k: nat)
    requires k < |cols|
    ensures var g := EnsureColumns(f, cols[..k]);
      EnsureColumns(f, cols[..k + 1]) == if cols[k] in g.columns then g else Derive(g, cols[k], Const(NA))
  {
    assert cols[..k + 1][..k] == cols[..k];
  }

  /** The report's loop over the sources of one column. */
  method CollectSources(col: string, sources: seq<(string, seq<string>)>) returns (rows: seq<CatRow>)
    ensures rows == SourceRows(col, sources)
  {
    rows := [];
    for si := 0 to |sources|
      invariant rows == SourceRows(col, sources[..si])
    {
      assert sources[..si + 1][..si] == sources[..si];
      var vals := SortedStrings(sources[si].1);
      var more := CollectValues(col, sources[si].0, vals);
      rows := rows + more;
    }
    assert sources[..|sources|] == sources;
  }

  /** The inner loop over one source's sorted values. */
  method CollectValues(col: string, src: string, vals: seq<string>) returns (rows: seq<CatRow>)
    ensures rows == ValueRows(col, src, vals)
  {
    rows := [];
    for vi := 0 to |vals|
      invariant rows == ValueRows(col, src, vals[..vi])
    {
      assert vals[..vi + 1][..vi] == vals[..vi];
      rows := rows + [(col, src, vals[vi])];
    }
    assert vals[..|vals|] == vals;
  }

  /** One summary update keeps the three columns and the distinct source keys. */
  lemma RecordKeepsValid(s: Summary, before: Frame, after: Frame, c: Categorical, source: string)
    requires s.Keys == {"gender", "ethnicity", "age_range"} && c.raw in s
    requires forall col :: col in s ==> DistinctKeys(s[col])
    ensures RecordOne(s, before, after, c, source).Keys == s.Keys
    ensures forall col :: col in RecordOne(s, before, after, c, source) ==> DistinctKeys(RecordOne(s, before, after, c, source)[col])
  {
    if c.raw in before.columns {
      DictSetDistinct(s[c.raw], source, Observed(after, c.raw));
    }
  }

  /** The sort keys of schema_audit: source file, then unified column. */
  predicate AuditLe(a: AuditRow, b: AuditRow) {
    PairLe((a.sourceFile, a.unifiedCol), (b.sourceFile, b.unifiedCol))
  }

  lemma AuditLeTotalPreorder()
    ensures TotalPreorder(AuditLe)
  {
    PairLeTotalPreorder();
    forall a: AuditRow, b: AuditRow ensures AuditLe(a, b) || AuditLe(b, a) {
      assert PairLe((a.sourceFile, a.unifiedCol), (b.sourceFile, b.unifiedCol)) || PairLe((b.sourceFile, b.unifiedCol), (a.sourceFile, a.unifiedCol));
    }
    forall a: AuditRow, b: AuditRow, c: AuditRow | AuditLe(a, b) && AuditLe(b, c) ensures AuditLe(a, c) {
      assert PairLe((a.sourceFile, a.unifiedCol), (b.sourceFile, b.unifiedCol)) && PairLe((b.sourceFile, b.unifiedCol), (c.sourceFile, c.unifiedCol));
    }
  }

  /** A row of categorical_report: (column, source, value). */
  type CatRow = (string, string, string)

  /** The keys of cat_summary, in the order the constructor inserts them. */
  const CatKeys: seq<string> := ["gender", "ethnicity", "age_range"]

  /** `sorted(vals)` */
  function SortedStrings(vals: seq<string>): (r: seq<string>)
    ensures multiset(r) == multiset(vals)
  {
    StrLeTotalPreorder();
    SortBy(vals, StrLe)
  }

  /** The rows one source contributes for one column, in the order of vals. */
  function ValueRows(col: string, src: string, vals: seq<string>): seq<CatRow>
    decreases |vals|
  {
    if vals == [] then [] else ValueRows(col, src, vals[..|vals| - 1]) + [(col, src, vals[|vals| - 1])]
  }

  /** The rows of one column, source by source in insertion order. */
  function SourceRows(col: string, entries: seq<(string, seq<string>)>): seq<CatRow>
    decreases |entries|
  {
    if entries == [] then []
    else
      var last := entries[|entries| - 1];
      SourceRows(col, entries[..|entries| - 1]) + ValueRows(col, last.0, SortedStrings(last.1))
  }

  /** The rows the report's loops collect for the listed columns. */
  function ReportRows(s: Summary, cols: seq<string>): seq<CatRow>
    decreases |cols|
  {
    if cols == [] then []
    else
      var c := cols[|cols| - 1];
      ReportRows(s, cols[..|cols| - 1]) + (if c in s then SourceRows(c, s[c]) else [])
  }

  /** The report: the collected rows sorted by column, source and value; with no rows there is nothing to sort by. */
  function Report(s: Summary): Result<seq<CatRow>, string> {
    var rows := ReportRows(s, CatKeys);
    if rows == [] then Failure("KeyError: column")
    else
      TripleLeTotalPreorder();
      Success(SortBy(rows, TripleLe))
  }

  lemma {:induction false} ValueRowsHas(col: string, src: string, vals: seq<string>, t: CatRow)
    ensures t in ValueRows(col, src, vals) <==> t.0 == col && t.1 == src && t.2 in vals
    decreases |vals|
  {
    if vals != [] {
      ValueRowsHas(col, src, vals[..|vals| - 1], t);
      assert vals == vals[..|vals| - 1] + [vals[|vals| - 1]];
    }
  }

  lemma {:induction false} SourceRowsHas(col: string, entries: seq<(string, seq<string>)>, t: CatRow)
    requires DistinctKeys(entries)
    ensures t in SourceRows(col, entries) <==> t.0 == col && Lookup(entries, t.1).Some? && t.2 in Lookup(entries, t.1).value
    decreases |entries|
  {
    if entries != [] {
      var init := entries[..|entries| - 1];
      var last := entries[|entries| - 1];
      assert entries == init + [last];
      SourceRowsHas(col, init, t);
      ValueRowsHas(col, last.0, SortedStrings(last.1), t);
      assert t.2 in SortedStrings(last.1) <==> t.2 in last.1 by {
        assert t.2 in multiset(SortedStrings(last.1)) <==> t.2 in multiset(last.1);
      }
      LookupSnoc(init, last, t.1);
    }
  }

  /** Looking up in a dict whose last entry has a fresh key. */
  lemma {:induction false} LookupSnoc<V>(init: seq<(string, V)>, last: (string, V), key: string)
    requires DistinctKeys(init + [last])
    ensures Lookup(init + [last], key) == if key == last.0 then Some(last.1) else Lookup(init, key)
    decreases |init|
  {
    if init != [] {
      assert (init + [last])[1..] == init[1..] + [last];
      assert DistinctKeys(init[1..] + [last]) by {
        forall i, j | 0 <= i < j < |init[1..] + [last]| ensures (init[1..] + [last])[i].0 != (init[1..] + [last])[j].0 {
          assert (init[1..] + [last])[i] == (init + [last])[i + 1];
          assert (init[1..] + [last])[j] == (init + [last])[j + 1];
        }
      }
      LookupSnoc(init[1..], last, key);
      assert init[0].0 != last.0 by { assert (init + [last])[0] == init[0] && (init + [last])[|init|] == last; }
    }
  }

  lemma {:induction false} ReportRowsHas(s: Summary, cols: seq<string>, t: CatRow)
    requires forall c :: c in s ==> DistinctKeys(s[c])
    ensures t in ReportRows(s, cols) <==> t.0 in cols && t.0 in s && Lookup(s[t.0], t.1).Some? && t.2 in Lookup(s[t.0], t.1).value
    decreases |cols|
  {
    if cols != [] {
      var c := cols[|cols| - 1];
      assert cols == cols[..|cols| - 1] + [c];
      ReportRowsHas(s, cols[..|cols| - 1], t);
      if c in s {
        SourceRowsHas(c, s[c], t);
      }
    }
  }

  /**
   * The report lists (column, source, value) exactly when the summary
   * recorded value for source under column, and fails only when it
   * recorded nothing at all.
   */
  lemma ReportContents(s: Summary, t: CatRow)
    requires s.Keys == {"gender", "ethnicity", "age_range"}
    requires forall c :: c in s ==> DistinctKeys(s[c])
    ensures Report(s).Success? ==>
      (t in Report(s).value <==> t.0 in s && Lookup(s[t.0], t.1).Some? && t.2 in Lookup(s[t.0], t.1).value)
    ensures Report(s).Failure? ==> !(t.0 in s && Lookup(s[t.0], t.1).Some? && t.2 in Lookup(s[t.0], t.1).value)
  {
    ReportRowsHas(s, CatKeys, t);
    assert t.0 in s <==> t.0 in CatKeys;
    if Report(s).Success? {
      assert t in Report(s).value <==> t in multiset(ReportRows(s, CatKeys));
    }
  }

  /** Any ordering of the collected rows by column, source and value is the report itself: ties cannot occur. */
  lemma ReportOrderDetermined(s: Summary, other: seq<CatRow>)
    requires Report(s).Success?
    requires SortedBy(other, TripleLe) && multiset(other) == multiset(ReportRows(s, CatKeys))
    ensures other == Report(s).value
  {
    forall x, y | TripleLe(x, y) && TripleLe(y, x) ensures x == y {
      TripleLeAntisym(x, y);
    }
    SortedUnique(other, Report(s).value, TripleLe);
  }

  /** The three categorical steps use distinct raw columns, none of which is another step's derived column. */
  lemma CategoricalsApart(j: nat, k: nat)
    requires j < |Categoricals| && k < |Categoricals| && j != k
    ensures Categoricals[j].raw != Categoricals[k].raw && Categoricals[j].raw != Categoricals[k].norm
  {
  }

  /** A categorical step leaves the values observed in any other column as they were. */
  lemma ObservedKept(f: Frame, c: Categorical, col: string)
    requires col != c.raw && col != c.norm
    ensures Observed(ApplyCategorical(f, c), col) == Observed(f, col)
  {
    assert Column(ApplyCategorical(f, c), col) == Column(f, col);
  }

  /** One update touches only its own column's entry, and there only the given source. */
  lemma RecordOneEntry(s: Summary, before: Frame, after: Frame, c: Categorical, source: string, key: string, src: string)
    requires key in s
    ensures key in RecordOne(s, before, after, c, source)
    ensures Lookup(RecordOne(s, before, after, c, source)[key], src) ==
      if key == c.raw && src == source && c.raw in before.columns then Some(Observed(after, c.raw)) else Lookup(s[key], src)
  {
    if key == c.raw && c.raw in before.columns {
      DictSetLookup(s[key], source, Observed(after, c.raw), src);
    }
  }

  /**
   * After a file, cat_summary[col][source] holds the values the lower-cased
   * raw column held in the output when the file had that column; every
   * other source's entry, and this source's entry when the column was
   * absent, is as before.
   */
  lemma SummarizeEntry(s: Summary, f: Frame, source: string, k: nat, src: string)
    requires k < |Categoricals| && Categoricals[k].raw in s
    ensures Categoricals[k].raw in Summarize(s, f, source)
    ensures Lookup(Summarize(s, f, source)[Categoricals[k].raw], src) ==
      if src == source && Categoricals[k].raw in f.columns then Some(Observed(ApplyCategoricals(f), Categoricals[k].raw))
      else Lookup(s[Categoricals[k].raw], src)
  {
    var c0, c1, c2 := Categoricals[0], Categoricals[1], Categoricals[2];
    var f1 := ApplyCategorical(f, c0);
    var f2 := ApplyCategorical(f1, c1);
    var f3 := ApplyCategorical(f2, c2);
    var s1 := RecordOne(s, f, f1, c0, source);
    var s2 := RecordOne(s1, f1, f2, c1, source);
    var key := Categoricals[k].raw;
    RecordOneEntry(s, f, f1, c0, source, key, src);
    RecordOneEntry(s1, f1, f2, c1, source, key, src);
    RecordOneEntry(s2, f2, f3, c2, source, key, src);
    if k == 0 {
      CategoricalsApart(0, 1);
      CategoricalsApart(0, 2);
      ObservedKept(f1, c1, key);
      ObservedKept(f2, c2, key);
    } else if k == 1 {
      CategoricalsApart(1, 0);
      CategoricalsApart(1, 2);
      ObservedKept(f2, c2, key);
    } else {
      CategoricalsApart(2, 0);
      CategoricalsApart(2, 1);
    }
  }
}
