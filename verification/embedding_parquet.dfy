/**
 * The parquet embedding handler (src/lambda/embedding_handler.py): the row
 * filter and field defaults of `_iter_parquet_rows`, the NDJSON body of
 * `_bulk_upsert`, and `handler`.
 *
 * Unlike the CSV handler nothing here catches exceptions: a failed fetch,
 * a missing text or id column or a rating cell `math.isnan` rejects raises
 * out of the generator, and so out of `handler` after the batches already
 * flushed. S3 plus `pq.read_table` is the parameter `fetch` (None where it
 * raises); `str()` of a non-string cell is `show`; `json.dumps` is `dumps`.
 */
module EmbeddingParquet {
  import opened Wrappers
  import opened Text
  import F = Frames
  import opened Embedding

  const TextCol := "text"
  const IdCol := "review_id"
  const LocationCol := "location"
  const RatingCol := "rating"

  // ---------------------------------------------------------------------
  // _iter_parquet_rows
  // ---------------------------------------------------------------------

  /** str(v): a string cell as it is, anything else as pandas renders it. */
  function Render(v: F.Value, show: F.Value -> string): string {
    if v.Str? then v.s else show(v)
  }

  /** What the generator does with one row. */
  datatype Step = Skip | Yield(doc: Doc) | Raise

  /**
   * One row: r[text_col] (a KeyError without the column; a missing cell is
   * None and reads as ""), skip when the text is blank, else yield the
   * unstripped text with str(r[id_col]) (a KeyError without the column),
   * the location ("NA" without the column) and the rating (None without the
   * column or for NaN; a non-numeric cell makes math.isnan raise).
   */
  function RowStep(cols: seq<string>, r: F.Row, show: F.Value -> string): (st: Step)
    ensures st.Yield? ==> TextCol in cols && IdCol in cols && Strip(st.doc.text) != [] && st.doc.vector.None?
    ensures TextCol !in cols ==> st.Raise?
  {
    if TextCol !in cols then Raise
    else
      var cell := F.Get(r, TextCol);
      var text := if cell.NA? then "" else Render(cell, show);
      if Strip(text) == [] then Skip
      else if IdCol !in cols then Raise
      else
        var location := if LocationCol in cols then Render(F.Get(r, LocationCol), show) else "NA";
        var doc := Doc(Render(F.Get(r, IdCol), show), location, None, text, None);
        if RatingCol !in cols then Yield(doc)
        else
          match F.Get(r, RatingCol)
          case NA => Yield(doc)
          case Num(x) => Yield(doc.(rating := Some(x)))
          case _ => Raise
  }

  /** The documents a generator yields, and whether it ran to its end rather than raising. */
  datatype Stream = Stream(docs: seq<Doc>, complete: bool)

  /** Iterating the rows in order, stopping at the first row that raises. */
  function Scan(cols: seq<string>, rows: seq<F.Row>, show: F.Value -> string): (s: Stream)
    ensures |s.docs| <= |rows|
  {
    if rows == [] then Stream([], true)
    else
      var s := Scan(cols, rows[..|rows| - 1], show);
      if !s.complete then s
      else
        match RowStep(cols, rows[|rows| - 1], show)
        case Skip => s
        case Yield(d) => Stream(s.docs + [d], true)
        case Raise => Stream(s.docs, false)
  }

  /** What iterating `_iter_parquet_rows(uri)` gives: nothing and an exception when the URI or the fetch fails. */
  function ParquetDocs(uri: string, fetch: (string, string) -> Option<F.Frame>, show: F.Value -> string): Stream {
    match ParseS3Uri(uri)
    case None => Stream([], false)
    case Some((bucket, key)) =>
      match fetch(bucket, key)
      case None => Stream([], false)
      case Some(df) => Scan(df.columns, df.rows, show)
  }

  /** The generator loop of `_iter_parquet_rows`. */
  method IterParquetRows(uri: string, fetch: (string, string) -> Option<F.Frame>, show: F.Value -> string)
    returns (s: Stream)
    ensures s == ParquetDocs(uri, fetch, show)
  {
    var loc := ParseS3Uri(uri);
    if loc.None? {
      return Stream([], false);
    }
    var (bucket, key) := loc.value;
    var table := fetch(bucket, key);
    if table.None? {
      return Stream([], false);
    }
    var df := table.value;
    var docs: seq<Doc> := [];
    for i := 0 to |df.rows|
      invariant Scan(df.columns, df.rows[..i], show) == Stream(docs, true)
    {
      var step := RowStep(df.columns, df.rows[i], show);
      ScanExtend(df.columns, df.rows, i, show);
      if step.Raise? {
        ScanStops(df.columns, df.rows, i, show);
        return Stream(docs, false);
      }
      if step.Yield? {
        docs := docs + [step.doc];
      }
    }
    assert df.rows[..|df.rows|] == df.rows;
    return Stream(docs, true);
  }

  /** One more row extends a complete scan by that row's step. */
  lemma ScanExtend(cols: seq<string>, rows: seq<F.Row>, i: int, show: F.Value -> string)
    requires 0 <= i < |rows| && Scan(cols, rows[..i], show).complete
    ensures var s, st := Scan(cols, rows[..i], show), RowStep(cols, rows[i], show);
      Scan(cols, rows[..i + 1], show)
        == if st.Yield? then Stream(s.docs + [st.doc], true) else if st.Skip? then s else Stream(s.docs, false)
  {
    assert rows[..i + 1][..i] == rows[..i];
  }

  /** Once a row raises, the later rows change nothing: the stream ends there. */
  lemma {:induction false} ScanStops(cols: seq<string>, rows: seq<F.Row>, i: int, show: F.Value -> string)
    requires 0 <= i < |rows| && Scan(cols, rows[..i], show).complete && RowStep(cols, rows[i], show).Raise?
    ensures Scan(cols, rows, show) == Stream(Scan(cols, rows[..i], show).docs, false)
    decreases |rows|
  {
    if i < |rows| - 1 {
      assert rows[..|rows| - 1][..i] == rows[..i];
      ScanStops(cols, rows[..|rows| - 1], i, show);
    } else {
      assert rows[..|rows| - 1] == rows[..i];
    }
  }

  /**
   * Every yielded document has text that is not blank, kept as it was (the
   * parquet handler does not strip it), and no vector yet; a row with blank
   * text never raises.
   */
  lemma {:induction false} ScanDocsNotBlank(cols: seq<string>, rows: seq<F.Row>, show: F.Value -> string)
    ensures forall d :: d in Scan(cols, rows, show).docs ==> Strip(d.text) != [] && d.vector.None?
  {
    if rows != [] {
      ScanDocsNotBlank(cols, rows[..|rows| - 1], show);
    }
  }

  /**
   * The defaults of one yielded row: location "NA" without the column, rating
   * None without the column or for a missing cell, the rating cell's number
   * otherwise.
   */
  lemma RowDefaults(cols: seq<string>, r: F.Row, show: F.Value -> string)
    ensures RowStep(cols, r, show).Yield? ==>
      var d := RowStep(cols, r, show).doc;
      && TextCol in cols && IdCol in cols
      && (LocationCol !in cols ==> d.location == "NA")
      && (RatingCol !in cols || F.Get(r, RatingCol).NA? <==> d.rating.None?)
      && (RatingCol in cols && F.Get(r, RatingCol).Num? ==> d.rating == Some(F.Get(r, RatingCol).x))
    ensures RowStep(cols, r, show).Skip? <==>
      TextCol in cols && Strip(if F.Get(r, TextCol).NA? then "" else Render(F.Get(r, TextCol), show)) == []
  {
  }

  // ---------------------------------------------------------------------
  // _bulk_upsert
  // ---------------------------------------------------------------------

  /** A line of the bulk body before json.dumps: an index header or the document. */
  datatype BulkLine = IndexHeader(index: string, id: string) | DocLine(doc: Doc)

  /** The list `bulk` after the loop: a header and the document for each document. */
  function Pairs(index: string, docs: seq<Doc>): (ls: seq<BulkLine>)
    ensures |ls| == 2 * |docs|
  {
    if docs == [] then []
    else Pairs(index, docs[..|docs| - 1]) + [IndexHeader(index, docs[|docs| - 1].reviewId), DocLine(docs[|docs| - 1])]
  }

  /** Line 2i is the header whose _id is document i's review_id; line 2i + 1 is document i. */
  lemma {:induction false} PairsLayout(index: string, docs: seq<Doc>, i: int)
    requires 0 <= i < |docs|
    ensures Pairs(index, docs)[2 * i] == IndexHeader(index, docs[i].reviewId)
    ensures Pairs(index, docs)[2 * i + 1] == DocLine(docs[i])
    decreases |docs|
  {
    if i < |docs| - 1 {
      PairsLayout(index, docs[..|docs| - 1], i);
    }
  }

  /** "\n".join(ls) */
  function JoinLines(ls: seq<string>): string {
    if ls == [] then "" else if |ls| == 1 then ls[0] else ls[0] + "\n" + JoinLines(ls[1..])
  }

  /** map(json.dumps, bulk) */
  function Dumped(ls: seq<BulkLine>, dumps: BulkLine -> string): seq<string> {
    seq(|ls|, i requires 0 <= i < |ls| => dumps(ls[i]))
  }

  /** The body `_bulk_upsert` posts, or None when it posts nothing (no documents). */
  function BulkBody(index: string, docs: seq<Doc>, dumps: BulkLine -> string): Option<string> {
    var ls := Pairs(index, docs);
    if ls == [] then None else Some(JoinLines(Dumped(ls, dumps)) + "\n")
  }

  /** `_bulk_upsert`: the append loop, then the join. */
  method BulkUpsert(index: string, docs: seq<Doc>, dumps: BulkLine -> string) returns (body: Option<string>)
    ensures body == BulkBody(index, docs, dumps)
  {
    var bulk: seq<BulkLine> := [];
    for i := 0 to |docs|
      invariant bulk == Pairs(index, docs[..i])
    {
      assert docs[..i + 1][..i] == docs[..i];
      bulk := bulk + [IndexHeader(index, docs[i].reviewId)];
      bulk := bulk + [DocLine(docs[i])];
    }
    assert docs[..|docs|] == docs;
    if bulk != [] {
      body := Some(JoinLines(Dumped(bulk, dumps)) + "\n");
    } else {
      body := None;
    }
  }

  /** Splitting a newline-terminated body back into its lines. */
  function SplitLines(s: string): seq<string>
    decreases |s|
  {
    if s == [] then []
    else
      var l := BeforeFirst(s, '\n');
      if |l| == |s| then [s] else [l] + SplitLines(s[|l| + 1..])
  }

  /** Joining lines without newlines and terminating the result, then splitting it, gives the lines back. */
  lemma {:induction false} SplitJoinLines(ls: seq<string>)
    requires ls != [] && forall i :: 0 <= i < |ls| ==> '\n' !in ls[i]
    ensures SplitLines(JoinLines(ls) + "\n") == ls
    decreases |ls|
  {
    if |ls| == 1 {
      assert JoinLines(ls) + "\n" == ls[0] + "\n" + "";
      SplitLinesCons(ls[0], "");
    } else {
      var tail := JoinLines(ls[1..]) + "\n";
      assert JoinLines(ls) + "\n" == ls[0] + "\n" + tail;
      SplitLinesCons(ls[0], tail);
      SplitJoinLines(ls[1..]);
      assert ls == [ls[0]] + ls[1..];
    }
  }

  /** A line without newlines, then a newline, splits off as the first line. */
  lemma SplitLinesCons(l: string, tail: string)
    requires '\n' !in l
    ensures SplitLines(l + "\n" + tail) == [l] + SplitLines(tail)
  {
    var s := l + "\n" + tail;
    BeforeFirstOf(l, '\n', tail);
    assert s[|l| + 1..] == tail;
  }

  /**
   * The bulk body is newline-terminated and, as json.dumps writes no raw
   * newline, holds exactly two lines per document: the header then the
   * document. No body at all for no documents.
   */
  lemma BulkBodyLines(index: string, docs: seq<Doc>, dumps: BulkLine -> string)
    requires forall l :: '\n' !in dumps(l)
    ensures BulkBody(index, docs, dumps).None? <==> docs == []
    ensures BulkBody(index, docs, dumps).Some? ==>
      var body := BulkBody(index, docs, dumps).value;
      && body[|body| - 1] == '\n'
      && SplitLines(body) == Dumped(Pairs(index, docs), dumps)
      && |SplitLines(body)| == 2 * |docs|
  {
    if docs != [] {
      SplitJoinLines(Dumped(Pairs(index, docs), dumps));
    }
  }

  /** The bodies posted for the upserted batches, in order. */
  function Requests(index: string, us: seq<seq<Doc>>, dumps: BulkLine -> string): (rs: seq<string>)
    ensures |rs| <= |us|
  {
    if us == [] then []
    else
      var body := BulkBody(index, us[|us| - 1], dumps);
      Requests(index, us[..|us| - 1], dumps) + (if body.Some? then [body.value] else [])
  }

  // ---------------------------------------------------------------------
  // handler
  // ---------------------------------------------------------------------

  /** The event fields the handler reads: "s3_parquet_uri", "records", "os_index". */
  datatype Event = Event(parquetUri: Option<string>, records: Option<seq<Doc>>, osIndex: Option<string>)

  /** 400 without a source; an exception after the given bodies were posted; or 200. */
  datatype Response = BadRequest | Raised(sent: seq<string>) | Ok(index: string, ingested: nat, sent: seq<string>)

  function StatusCode(r: Response): Option<int> {
    match r
    case BadRequest => Some(400)
    case Raised(_) => None
    case Ok(_, _, _) => Some(200)
  }

  function Source(event: Event, fetch: (string, string) -> Option<F.Frame>, show: F.Value -> string): Stream
    requires event.parquetUri.Some? || event.records.Some?
  {
    if event.parquetUri.Some? then ParquetDocs(event.parquetUri.value, fetch, show)
    else Stream(event.records.value, true)
  }

  /**
   * The handler as a function of its event and services. A stream that
   * raises leaves the pending partial batch unsent: only the full batches
   * flushed inside the loop were posted.
   */
  function Outcome(event: Event, defaultIndex: string, size: int, fetch: (string, string) -> Option<F.Frame>,
                   show: F.Value -> string, embedBatch: seq<string> -> seq<Vector>, dumps: BulkLine -> string): Response
  {
    if event.parquetUri.None? && event.records.None? then BadRequest
    else
      var index := event.osIndex.GetOr(defaultIndex);
      var s := Source(event, fetch, show);
      if s.complete then
        Ok(index, |s.docs|, Requests(index, Upserts(Batches(s.docs, Capacity(size)), embedBatch), dumps))
      else
        Raised(Requests(index, Upserts(FullBatches(s.docs, Capacity(size)), embedBatch), dumps))
  }

  /** `handler`. */
  method Handler(event: Event, defaultIndex: string, size: int, fetch: (string, string) -> Option<F.Frame>,
                 show: F.Value -> string, embedBatch: seq<string> -> seq<Vector>, dumps: BulkLine -> string)
    returns (resp: Response)
    ensures resp == Outcome(event, defaultIndex, size, fetch, show, embedBatch, dumps)
  {
    var index := event.osIndex.GetOr(defaultIndex);
    var s: Stream;
    if event.parquetUri.Some? {
      s := IterParquetRows(event.parquetUri.value, fetch, show);
    } else if event.records.Some? {
      s := Stream(event.records.value, true);
    } else {
      return BadRequest;
    }
    if s.complete {
      var upserts, ingested := EmbedInBatches(s.docs, size, embedBatch);
      return Ok(index, ingested, Requests(index, upserts, dumps));
    } else {
      var upserts, pending, ingested := FillBatches(s.docs, size, embedBatch);
      return Raised(Requests(index, upserts, dumps));
    }
  }

  /** The handler answers 400 exactly when the event names neither source. */
  lemma BadRequestIff(event: Event, defaultIndex: string, size: int, fetch: (string, string) -> Option<F.Frame>,
                      show: F.Value -> string, embedBatch: seq<string> -> seq<Vector>, dumps: BulkLine -> string)
    ensures StatusCode(Outcome(event, defaultIndex, size, fetch, show, embedBatch, dumps)) == Some(400)
      <==> event.parquetUri.None? && event.records.None?
  {
  }

  /**
   * One body per batch: a completed run posts one body per batch of Batches,
   * a run that raised posts one per full batch only, and each body holds two
   * lines per document of its batch.
   */
  lemma OneBodyPerBatch(event: Event, defaultIndex: string, size: int, fetch: (string, string) -> Option<F.Frame>,
                        show: F.Value -> string, embedBatch: seq<string> -> seq<Vector>, dumps: BulkLine -> string)
    requires event.parquetUri.Some? || event.records.Some?
    ensures var r := Outcome(event, defaultIndex, size, fetch, show, embedBatch, dumps);
      var s := Source(event, fetch, show);
      && (r.Ok? ==> |r.sent| == |Batches(s.docs, Capacity(size))|)
      && (r.Raised? ==> |r.sent| == |FullBatches(s.docs, Capacity(size))|)
  {
    var s := Source(event, fetch, show);
    var cap := Capacity(size);
    var index := event.osIndex.GetOr(defaultIndex);
    BatchesSpec(s.docs, cap);
    RequestsOfBatches(index, Batches(s.docs, cap), embedBatch, dumps, cap);
    var bs := Batches(s.docs, cap);
    if bs != [] && |bs[|bs| - 1]| < cap {
      assert Batched(bs[..|bs| - 1], cap) by {
        if |bs| > 1 {
          assert |bs[|bs| - 2]| == cap;
        }
      }
    }
    RequestsOfBatches(index, FullBatches(s.docs, cap), embedBatch, dumps, cap);
  }

  /** Every batch of a batching is non-empty, so each one is posted. */
  lemma {:induction false} RequestsOfBatches(index: string, bs: seq<seq<Doc>>, embedBatch: seq<string> -> seq<Vector>,
                                             dumps: BulkLine -> string, cap: nat)
    requires Batched(bs, cap) && 0 < cap
    ensures |Requests(index, Upserts(bs, embedBatch), dumps)| == |bs|
    decreases |bs|
  {
    if bs != [] {
      var init := bs[..|bs| - 1];
      var us := Upserts(bs, embedBatch);
      assert us[..|us| - 1] == Upserts(init, embedBatch);
      assert Batched(init, cap) by {
        if init != [] {
          assert |init[|init| - 1]| == cap;
        }
      }
      RequestsOfBatches(index, init, embedBatch, dumps, cap);
      assert |Embedded(bs[|bs| - 1], embedBatch)| >= 1;
    }
  }
}
