/**
 * The ETL Lambda (src/lambda/etl_core.py): every data file of the raw
 * bucket goes through the review loader, the results are validated and
 * concatenated, the combined `review_id` column is renumbered 1..N and a
 * bias summary counts the values of the categorical columns.
 *
 * S3 listing, downloads and uploads are parameters: the listing says whether
 * list_objects_v2 raised, answered without "Contents", or listed keys, and
 * `fetch` says, per key, whether the download raised, whether reading the
 * table raised, or which table was read.
 */
module EtlCore {
  import opened Wrappers
  import opened Text
  import opened Frames
  import opened Schema
  import opened Transforms
  import L = Loader
  import V = Validation

  // ---------------------------------------------------------------------
  // safe_json_dict
  // ---------------------------------------------------------------------

  /** The JSON key a value_counts key becomes: "NA" for a missing value, str(k) otherwise. */
  function KeyText(k: Value, show: Value -> string): string {
    match k
    case NA => "NA"
    case Str(s) => s
    case _ => show(k)
  }

  /** The dict safe_json_dict builds: entries assigned in order, so a later key with the same text overwrites. */
  function SafeJson<X>(d: seq<(Value, X)>, show: Value -> string): (r: seq<(string, X)>)
    ensures DistinctKeys(r)
    decreases |d|
  {
    if d == [] then []
    else
      var p := SafeJson(d[..|d| - 1], show);
      var last := d[|d| - 1];
      DictSetDistinct(p, KeyText(last.0, show), last.1);
      DictSet(p, KeyText(last.0, show), last.1)
  }

  /** safe_json_dict: the loop that fills `clean`. */
  method SafeJsonDict<X>(d: seq<(Value, X)>, show: Value -> string) returns (clean: seq<(string, X)>)
    ensures clean == SafeJson(d, show)
  {
    clean := [];
    for i := 0 to |d|
      invariant clean == SafeJson(d[..i], show)
    {
      assert d[..i + 1][..i] == d[..i];
      clean := DictSet(clean, KeyText(d[i].0, show), d[i].1);
    }
    assert d[..|d|] == d;
  }

  /** An entry is the last one whose key renders as t. */
  predicate LastWith<X>(d: seq<(Value, X)>, show: Value -> string, t: string, i: int) {
    0 <= i < |d| && KeyText(d[i].0, show) == t
    && forall j :: i < j < |d| ==> KeyText(d[j].0, show) != t
  }

  /**
   * A JSON key t is present exactly when some input key renders as t, and it
   * holds the value of the last such input entry.
   */
  lemma SafeJsonLookup<X>(d: seq<(Value, X)>, show: Value -> string, t: string)
    ensures Lookup(SafeJson(d, show), t).None? <==> forall i :: 0 <= i < |d| ==> KeyText(d[i].0, show) != t
    ensures Lookup(SafeJson(d, show), t).Some? ==>
      exists i :: LastWith(d, show, t, i) && d[i].1 == Lookup(SafeJson(d, show), t).value
  {
    SafeJsonAt(d, show, t);
    var k := LastKeyed(d, show, t);
    if k >= 0 {
      assert LastWith(d, show, t, k) && d[k].1 == Lookup(SafeJson(d, show), t).value;
    }
  }

  /** The position of the last entry whose key renders as t, or -1. */
  function LastKeyed<X>(d: seq<(Value, X)>, show: Value -> string, t: string): (k: int)
    ensures -1 <= k < |d|
    ensures k >= 0 ==> LastWith(d, show, t, k)
    ensures k < 0 ==> forall i :: 0 <= i < |d| ==> KeyText(d[i].0, show) != t
    decreases |d|
  {
    if d == [] then -1
    else if KeyText(d[|d| - 1].0, show) == t then |d| - 1
    else
      var k := LastKeyed(d[..|d| - 1], show, t);
      assert forall i :: 0 <= i < |d| - 1 ==> d[i] == d[..|d| - 1][i];
      k
  }

  /** safe_json_dict[t] is the value of the last entry whose key renders as t, if there is one. */
  lemma {:induction false} SafeJsonAt<X>(d: seq<(Value, X)>, show: Value -> string, t: string)
    ensures var k := LastKeyed(d, show, t);
      Lookup(SafeJson(d, show), t) == if k < 0 then None else Some(d[k].1)
    decreases |d|
  {
    if d != [] {
      var p := d[..|d| - 1];
      var last := d[|d| - 1];
      SafeJsonAt(p, show, t);
      DictSetLookup(SafeJson(p, show), KeyText(last.0, show), last.1, t);
      if KeyText(last.0, show) != t {
        var k := LastKeyed(p, show, t);
        assert k >= 0 ==> d[k] == p[k];
      }
    }
  }

  /** Keys that render pairwise differently: no entry of safe_json_dict is overwritten. */
  predicate RendersDistinct<X>(d: seq<(Value, X)>, show: Value -> string) {
    forall i, j :: 0 <= i < j < |d| ==> KeyText(d[i].0, show) != KeyText(d[j].0, show)
  }

  function Rendered<X>(d: seq<(Value, X)>, show: Value -> string): (r: seq<(string, X)>)
    ensures |r| == |d|
  {
    seq(|d|, i requires 0 <= i < |d| => (KeyText(d[i].0, show), d[i].1))
  }

  /** When the keys render pairwise differently, safe_json_dict keeps every entry, in order. */
  lemma {:induction false} SafeJsonRenders<X>(d: seq<(Value, X)>, show: Value -> string)
    requires RendersDistinct(d, show)
    ensures SafeJson(d, show) == Rendered(d, show)
    decreases |d|
  {
    if d != [] {
      var p := d[..|d| - 1];
      var last := d[|d| - 1];
      SafeJsonRenders(p, show);
      var rp := Rendered(p, show);
      DictSetAppend(rp, KeyText(last.0, show), last.1);
      assert Rendered(d, show) == rp + [(KeyText(last.0, show), last.1)];
    }
  }

  /** d[key] = v on a key that is absent appends the pair. */
  lemma {:induction false} DictSetAppend<X>(d: seq<(string, X)>, key: string, v: X)
    requires forall i :: 0 <= i < |d| ==> d[i].0 != key
    ensures DictSet(d, key, v) == d + [(key, v)]
  {
    if d != [] {
      DictSetAppend(d[1..], key, v);
      assert d == [d[0]] + d[1..];
    }
  }

  lemma {:induction false} SumCountsRendered(d: seq<(Value, nat)>, show: Value -> string)
    ensures SumCounts(Rendered(d, show)) == SumCounts(d)
    decreases |d|
  {
    if d != [] {
      assert Rendered(d, show)[1..] == Rendered(d[1..], show);
      SumCountsRendered(d[1..], show);
    }
  }

  // ---------------------------------------------------------------------
  // Combining the processed frames
  // ---------------------------------------------------------------------

  /** The column list of an outer concatenation: a's columns, then b's new ones in their order. */
  function UnionCols(a: seq<string>, b: seq<string>): (r: seq<string>)
    ensures forall c :: c in r <==> c in a || c in b
    decreases |b|
  {
    if b == [] then a else UnionCols(WithColumn(a, b[0]), b[1..])
  }

  /** pd.concat(frames, ignore_index=True): the rows one frame after another; a cell a frame lacks reads as missing. */
  function Concat(fs: seq<Frame>): (r: Frame)
    ensures forall c :: c in r.columns <==> exists i :: 0 <= i < |fs| && c in fs[i].columns
    decreases |fs|
  {
    if fs == [] then Frame([], [])
    else
      var p := Concat(fs[..|fs| - 1]);
      var f := fs[|fs| - 1];
      assert forall i :: 0 <= i < |fs| - 1 ==> fs[..|fs| - 1][i] == fs[i];
      Frame(UnionCols(p.columns, f.columns), p.rows + f.rows)
  }

  function TotalRows(fs: seq<Frame>): nat
    decreases |fs|
  {
    if fs == [] then 0 else TotalRows(fs[..|fs| - 1]) + |fs[|fs| - 1].rows|
  }

  /** Concatenation loses no row and adds none: the k-th row of frame i sits after the rows of the frames before it. */
  lemma {:induction false} ConcatRows(fs: seq<Frame>, i: nat, k: nat)
    requires i < |fs| && k < |fs[i].rows|
    ensures |Concat(fs).rows| == TotalRows(fs)
    ensures TotalRows(fs[..i]) + k < TotalRows(fs)
    ensures Concat(fs).rows[TotalRows(fs[..i]) + k] == fs[i].rows[k]
    decreases |fs|
  {
    var n := |fs| - 1;
    ConcatLength(fs);
    if i < n {
      assert fs[..n][..i] == fs[..i];
      ConcatRows(fs[..n], i, k);
    } else {
      ConcatLength(fs[..n]);
    }
  }

  lemma {:induction false} ConcatLength(fs: seq<Frame>)
    ensures |Concat(fs).rows| == TotalRows(fs)
    decreases |fs|
  {
    if fs != [] {
      ConcatLength(fs[..|fs| - 1]);
    }
  }

  /** combined_df["review_id"] = range(1, len(combined_df) + 1) */
  function Renumber(f: Frame): (r: Frame)
    ensures "review_id" in r.columns && |r.rows| == |f.rows|
  {
    Frame(WithColumn(f.columns, "review_id"),
      seq(|f.rows|, k requires 0 <= k < |f.rows| => f.rows[k]["review_id" := Num((k + 1) as real)]))
  }

  /** After renumbering the ids are exactly 1..N in row order, hence distinct; no other cell changes. */
  lemma RenumberIds(f: Frame)
    ensures "review_id" in Renumber(f).columns && |Renumber(f).rows| == |f.rows|
    ensures forall k :: 0 <= k < |f.rows| ==> Column(Renumber(f), "review_id")[k] == Num((k + 1) as real)
    ensures AllDistinct(Column(Renumber(f), "review_id"))
    ensures forall c :: c != "review_id" ==> Column(Renumber(f), c) == Column(f, c)
  {
    var ids := Column(Renumber(f), "review_id");
    forall i, j | 0 <= i < j < |ids| ensures ids[i] != ids[j] {
      assert ids[i] == Num((i + 1) as real) && ids[j] == Num((j + 1) as real);
    }
  }

  // ---------------------------------------------------------------------
  // Bias summary
  // ---------------------------------------------------------------------

  const BiasCols: seq<string> := ["gender_norm", "age_group", "ethnicity_norm"]

  /** One entry of bias_summary; `missingShare` is isna().mean() before the ×100 and the rounding. */
  datatype BiasEntry = BiasEntry(column: string, counts: seq<(string, nat)>, missingShare: Option<real>)

  function BiasFor(f: Frame, col: string, show: Value -> string): BiasEntry {
    var vs := Column(f, col);
    BiasEntry(col, SafeJson(ValueCounts(vs), show), V.NullFraction(vs))
  }

  /** The entries bias_summary receives for the listed columns that the frame has, in list order. */
  function BiasOf(f: Frame, cols: seq<string>, show: Value -> string): (r: seq<BiasEntry>)
    ensures forall b :: b in r ==> b.column in cols && b.column in f.columns && b == BiasFor(f, b.column, show)
    decreases |cols|
  {
    if cols == [] then []
    else
      var p := BiasOf(f, cols[..|cols| - 1], show);
      var c := cols[|cols| - 1];
      if c in f.columns then p + [BiasFor(f, c, show)] else p
  }

  /** The loop over the three bias columns. */
  method BiasSummary(f: Frame, cols: seq<string>, show: Value -> string) returns (bias: seq<BiasEntry>)
    ensures bias == BiasOf(f, cols, show)
  {
    bias := [];
    for i := 0 to |cols|
      invariant bias == BiasOf(f, cols[..i], show)
    {
      assert cols[..i + 1][..i] == cols[..i];
      if cols[i] in f.columns {
        var counts := SafeJsonDict(ValueCounts(Column(f, cols[i])), show);
        bias := bias + [BiasEntry(cols[i], counts, V.NullFraction(Column(f, cols[i])))];
      }
    }
    assert cols[..|cols|] == cols;
  }

  /**
   * value_counts(dropna=False) counts every row once; when the distinct values
   * render to distinct JSON keys, the summary's counts still add up to the row count.
   */
  lemma BiasCountsTotal(f: Frame, col: string, show: Value -> string)
    ensures SumCounts(ValueCounts(Column(f, col))) == |f.rows|
    ensures RendersDistinct(ValueCounts(Column(f, col)), show) ==>
      SumCounts(BiasFor(f, col, show).counts) == |f.rows|
  {
    var vc := ValueCounts(Column(f, col));
    ValueCountsTotal(Column(f, col));
    if RendersDistinct(vc, show) {
      SafeJsonRenders(vc, show);
      SumCountsRendered(vc, show);
    }
  }

  // ---------------------------------------------------------------------
  // handle_etl
  // ---------------------------------------------------------------------

  /** How s3.list_objects_v2 ends: it raises, its response has no "Contents", or it lists these keys. */
  datatype Listing = ListRaised | NoContents | Contents(keys: seq<string>)

  /** What happens to one listed object: the download raises, reading the table raises, or a table is read. */
  datatype Fetched = DownloadFailed | ReadFailed | Table(raw: Frame)

  datatype EtlResponse =
    | MissingBucket
    | NoFiles
    | NoDataFiles
    | ServerError
    | Done(processedFiles: seq<string>, validation: V.Combined, combined: Frame, bias: seq<BiasEntry>)

  function StatusCode(r: EtlResponse): int {
    match r
    case MissingBucket => 400
    case NoFiles => 404
    case NoDataFiles => 404
    case ServerError => 500
    case Done(_, _, _, _) => 200
  }

  predicate IsDataKey(key: string) {
    EndsWith(key, ".csv") || EndsWith(key, ".txt")
  }

  /** Path(key).name: the text after the last "/". */
  function BaseName(s: string): (r: string)
    ensures |r| <= |s| && r == s[|s| - |r|..] && '/' !in r
    decreases |s|
  {
    if s == [] || s[|s| - 1] == '/' then []
    else BaseName(s[..|s| - 1]) + [s[|s| - 1]]
  }

  /** The position of the last c in s. */
  function LastIndex(s: string, c: char): (r: Option<nat>)
    ensures r.None? <==> c !in s
    ensures r.Some? ==> r.value < |s| && s[r.value] == c && c !in s[r.value + 1..]
    decreases |s|
  {
    if s == [] then None
    else if s[|s| - 1] == c then Some(|s| - 1)
    else
      var r := LastIndex(s[..|s| - 1], c);
      if r.Some? then assert s[r.value + 1..] == s[..|s| - 1][r.value + 1..] + [s[|s| - 1]]; r else r
  }

  /** Path.stem: the name without its suffix, where a suffix needs a dot that is neither first nor last. */
  function Stem(name: string): (r: string)
    ensures |r| <= |name| && r == name[..|r|]
  {
    var i := LastIndex(name, '.');
    if i.Some? && 0 < i.value < |name| - 1 then name[..i.value] else name
  }

  /** A data file's stem is its name without the four-character extension, unless the name is the extension alone. */
  lemma StemOfDataName(name: string)
    requires IsDataKey(name)
    ensures Stem(name) == if |name| > 4 then name[..|name| - 4] else name
  {
    var ext := name[|name| - 4..];
    assert ext == ".csv" || ext == ".txt";
    assert name[|name| - 3..] == ext[1..];
    assert '.' !in name[|name| - 3..];
    assert name[|name| - 4] == '.';
    assert LastIndex(name, '.').Some?;
  }

  /** The key the processed parquet file is uploaded under. */
  function ProcessedKey(key: string): (k: string)
    ensures |k| > 10 && k[..10] == "processed/" && '/' !in k[10..]
  {
    var base := BaseName(key);
    var stem := Stem(base);
    var dir, name := "processed/", "processed_" + stem + ".parquet";
    PrefixKeepsOut(base, stem, '/');
    NoSeparator("processed_", stem, ".parquet", '/');
    InDirectory(dir, name);
    dir + name
  }

  /** A prefix of a string without c has no c. */
  lemma PrefixKeepsOut(s: string, p: string, c: char)
    requires |p| <= |s| && p == s[..|p|] && c !in s
    ensures c !in p
  {
    forall i | 0 <= i < |p| ensures p[i] != c {
      assert p[i] == s[i];
    }
  }

  /** A name built from separator-free parts has no separator. */
  lemma NoSeparator(a: string, b: string, c: string, sep: char)
    requires sep !in a && sep !in b && sep !in c
    ensures sep !in a + b + c
  {
  }

  /** The part of dir + name after dir is name. */
  lemma InDirectory(dir: string, name: string)
    ensures (dir + name)[..|dir|] == dir && (dir + name)[|dir|..] == name
  {
  }

  /** load_and_standardize of the deduplicating loader, on the table read for a key. */
  function LoadFn(p: Parsers, syn: Synonyms): (Frame, string) -> Frame {
    (raw, key) => L.LoadDedup(p, syn, raw, BaseName(key))
  }

  /** A data key whose table was read contributes (raw, processed, key); every other key contributes nothing. */
  function Gathered(load: (Frame, string) -> Frame, keys: seq<string>, fetch: string -> Fetched): (es: seq<V.Entry>)
    decreases |keys|
  {
    if keys == [] then []
    else
      var prev := Gathered(load, keys[..|keys| - 1], fetch);
      var key := keys[|keys| - 1];
      if IsDataKey(key) && fetch(key).Table? then
        var raw := fetch(key).raw;
        prev + [V.ReviewEntry(raw, load(raw, key), key)]
      else prev
  }

  /** Some data key's download raises: the exception escapes the loop and handle_etl answers 500. */
  predicate Aborts(keys: seq<string>, fetch: string -> Fetched)
    decreases |keys|
  {
    keys != [] && (Aborts(keys[..|keys| - 1], fetch) || (IsDataKey(keys[|keys| - 1]) && fetch(keys[|keys| - 1]) == DownloadFailed))
  }

  lemma {:induction false} AbortsIff(keys: seq<string>, fetch: string -> Fetched)
    ensures Aborts(keys, fetch) <==> exists i :: 0 <= i < |keys| && IsDataKey(keys[i]) && fetch(keys[i]) == DownloadFailed
    decreases |keys|
  {
    if keys != [] {
      var pre := keys[..|keys| - 1];
      AbortsIff(pre, fetch);
      assert forall i :: 0 <= i < |pre| ==> pre[i] == keys[i];
    }
  }

  /** One more key: how the gathered entries and the abort condition grow. */
  lemma GatherStep(load: (Frame, string) -> Frame, keys: seq<string>, i: nat, fetch: string -> Fetched)
    requires i < |keys|
    ensures Aborts(keys[..i + 1], fetch) <==> Aborts(keys[..i], fetch) || (IsDataKey(keys[i]) && fetch(keys[i]) == DownloadFailed)
    ensures Gathered(load, keys[..i + 1], fetch) ==
      if IsDataKey(keys[i]) && fetch(keys[i]).Table? then
        Gathered(load, keys[..i], fetch) + [V.ReviewEntry(fetch(keys[i]).raw, load(fetch(keys[i]).raw, keys[i]), keys[i])]
      else Gathered(load, keys[..i], fetch)
  {
    assert keys[..i + 1][..i] == keys[..i];
  }

  function Processed(es: seq<V.Entry>): (fs: seq<Frame>)
    requires forall k :: 0 <= k < |es| ==> es[k].ReviewEntry?
    ensures |fs| == |es|
  {
    seq(|es|, k requires 0 <= k < |es| => es[k].processed)
  }

  /** The processed_files list: one upload key per loaded file, in order. */
  function ProcessedKeys(es: seq<V.Entry>): (ks: seq<string>)
    ensures |ks| == |es|
    decreases |es|
  {
    if es == [] then [] else ProcessedKeys(es[..|es| - 1]) + [ProcessedKey(es[|es| - 1].sourceName)]
  }

  lemma ProcessedKeysSnoc(es: seq<V.Entry>, e: V.Entry)
    ensures ProcessedKeys(es + [e]) == ProcessedKeys(es) + [ProcessedKey(e.sourceName)]
  {
    assert (es + [e])[..|es|] == es;
  }

  /** Every entry gathered by the loop is a review entry. */
  lemma {:induction false} GatheredReviews(load: (Frame, string) -> Frame, keys: seq<string>, fetch: string -> Fetched)
    ensures forall k :: 0 <= k < |Gathered(load, keys, fetch)| ==> Gathered(load, keys, fetch)[k].ReviewEntry?
    decreases |keys|
  {
    if keys != [] {
      GatheredReviews(load, keys[..|keys| - 1], fetch);
    }
  }

  /** The whole response of handle_etl, from the event's bucket, the listing and the per-key fetch outcome. */
  function EtlOutcome(p: Parsers, syn: Synonyms, bucket: Option<string>, listing: Listing,
                      fetch: string -> Fetched, show: Value -> string): EtlResponse
  {
    if bucket.None? || bucket.value == "" then MissingBucket
    else if listing.ListRaised? then ServerError
    else if listing.NoContents? then NoFiles
    else if Aborts(listing.keys, fetch) then ServerError
    else
      var es := Gathered(LoadFn(p, syn), listing.keys, fetch);
      if es == [] then NoDataFiles
      else if !(forall k :: 0 <= k < |es| ==> V.WellFormedEntry(es[k])) then ServerError
      else
        GatheredReviews(LoadFn(p, syn), listing.keys, fetch);
        var combined := Renumber(Concat(Processed(es)));
        Done(ProcessedKeys(es), V.Combined(V.EntryReports(es), V.CombinedStatus(V.EntryReports(es))),
          combined, BiasOf(combined, BiasCols, show))
  }

  /** The loop over the listed objects: skip non-data keys and unreadable tables, load the rest. */
  method GatherFiles(p: Parsers, loader: L.ReviewLoader, ghost load: (Frame, string) -> Frame, keys: seq<string>,
                     fetch: string -> Fetched)
    returns (aborted: bool, processedFiles: seq<string>, allData: seq<V.Entry>)
    requires loader.Valid() && load == LoadFn(p, loader.synonyms)
    modifies loader
    ensures loader.Valid()
    ensures aborted == Aborts(keys, fetch)
    ensures !aborted ==> allData == Gathered(load, keys, fetch) && processedFiles == ProcessedKeys(allData)
  {
    processedFiles, allData := [], [];
    for i := 0 to |keys|
      invariant loader.Valid()
      invariant !Aborts(keys[..i], fetch)
      invariant allData == Gathered(load, keys[..i], fetch)
      invariant processedFiles == ProcessedKeys(allData)
    {
      var key := keys[i];
      GatherStep(load, keys, i, fetch);
      if !IsDataKey(key) {
        continue;
      }
      match fetch(key)
      case DownloadFailed =>
        AbortsIff(keys, fetch);
        assert IsDataKey(keys[i]) && fetch(keys[i]) == DownloadFailed;
        return true, processedFiles, allData;
      case ReadFailed =>
        continue;
      case Table(raw) =>
        var e := LoadOne(p, loader, load, raw, key);
        ProcessedKeysSnoc(allData, e);
        processedFiles := processedFiles + [ProcessedKey(key)];
        allData := allData + [e];
    }
    assert keys[..|keys|] == keys;
    aborted := false;
  }

  /** One loaded file: load_and_standardize on the table, recorded with its key. */
  method LoadOne(p: Parsers, loader: L.ReviewLoader, ghost load: (Frame, string) -> Frame, raw: Frame, key: string)
    returns (e: V.Entry)
    requires loader.Valid() && load == LoadFn(p, loader.synonyms)
    modifies loader
    ensures loader.Valid()
    ensures e == V.ReviewEntry(raw, load(raw, key), key)
  {
    var df := loader.LoadAndStandardize(p, raw, BaseName(key), key);
    e := V.ReviewEntry(raw, df, key);
  }

  /** handle_etl, with the S3 calls replaced by the listing and `fetch`. */
  method HandleEtl(p: Parsers, syn: Synonyms, bucket: Option<string>, listing: Listing,
                   fetch: string -> Fetched, show: Value -> string) returns (resp: EtlResponse)
    ensures resp == EtlOutcome(p, syn, bucket, listing, fetch, show)
  {
    if bucket.None? || bucket.value == "" {
      return MissingBucket;
    }
    if listing.ListRaised? {
      return ServerError;
    }
    if listing.NoContents? {
      return NoFiles;
    }
    var loader := new L.ReviewLoader(syn);
    var aborted, processedFiles, allData := GatherFiles(p, loader, LoadFn(p, syn), listing.keys, fetch);
    if aborted {
      return ServerError;
    }
    if allData == [] {
      return NoDataFiles;
    }
    if !(forall k :: 0 <= k < |allData| ==> V.WellFormedEntry(allData[k])) {
      return ServerError;
    }
    var validation := V.ValidateWithIntegrity(allData);
    GatheredReviews(LoadFn(p, syn), listing.keys, fetch);
    var combined := Renumber(Concat(Processed(allData)));
    var bias := BiasSummary(combined, BiasCols, show);
    resp := Done(processedFiles, validation, combined, bias);
  }

  // ---------------------------------------------------------------------
  // Properties of the handler
  // ---------------------------------------------------------------------

  /** 400 exactly when the event has no (or an empty) bucket. */
  lemma MissingBucketIff(p: Parsers, syn: Synonyms, bucket: Option<string>, listing: Listing,
                         fetch: string -> Fetched, show: Value -> string)
    ensures StatusCode(EtlOutcome(p, syn, bucket, listing, fetch, show)) == 400 <==> bucket.None? || bucket.value == ""
  {
  }

  /** The key each entry was loaded from, in order. */
  function Sources(es: seq<V.Entry>): (r: seq<string>)
    ensures |r| == |es| && forall k :: 0 <= k < |es| ==> r[k] == es[k].sourceName
  {
    seq(|es|, k requires 0 <= k < |es| => es[k].sourceName)
  }

  /**
   * A key is loaded exactly when it is a listed data key whose table was read:
   * other keys are skipped and a read failure moves on to the next key.
   */
  lemma {:induction false} GatheredSpec(load: (Frame, string) -> Frame, keys: seq<string>, fetch: string -> Fetched, key: string)
    ensures key in Sources(Gathered(load, keys, fetch)) <==> key in keys && IsDataKey(key) && fetch(key).Table?
    decreases |keys|
  {
    if keys != [] {
      var pre := keys[..|keys| - 1];
      var last := keys[|keys| - 1];
      GatheredSpec(load, pre, fetch, key);
      assert keys == pre + [last];
      if IsDataKey(last) && fetch(last).Table? {
        assert Sources(Gathered(load, keys, fetch)) == Sources(Gathered(load, pre, fetch)) + [last];
      }
    }
  }

  /** A run that returns 200 processed at least one file, and its combined ids are 1..N over all processed rows. */
  lemma DoneIds(p: Parsers, syn: Synonyms, bucket: Option<string>, listing: Listing,
                fetch: string -> Fetched, show: Value -> string)
    requires EtlOutcome(p, syn, bucket, listing, fetch, show).Done?
    ensures var r := EtlOutcome(p, syn, bucket, listing, fetch, show);
      && r.processedFiles != []
      && |r.validation.sources| == |r.processedFiles|
      && AllDistinct(Column(r.combined, "review_id"))
      && forall k :: 0 <= k < |r.combined.rows| ==> Column(r.combined, "review_id")[k] == Num((k + 1) as real)
  {
    var es := Gathered(LoadFn(p, syn), listing.keys, fetch);
    GatheredReviews(LoadFn(p, syn), listing.keys, fetch);
    RenumberIds(Concat(Processed(es)));
  }
}
