/**
 * The CSV embedding handler (src/lambda_functions/embedding_handler.py):
 * delimiter sniffing on the first line, the row filter and field defaults
 * of `_iter_csv_rows`, the action list of `_bulk_upsert`, and `handler`,
 * which picks the document source and runs the shared batching loop.
 *
 * S3, `csv.DictReader`, `float()` on a string, Bedrock and OpenSearch are
 * function parameters: `fetch` returns the decoded object body (None when
 * `get_object` or the read fails), `reader` returns the rows of a body for
 * a delimiter (a missing trailing field reads as None, as DictReader's
 * restval), `parseFloat` returns None where `float()` raises.
 */
module EmbeddingCsv {
  import opened Wrappers
  import opened Text
  import opened Embedding

  const TextCol := "review_text"
  const IdCol := "review_id"
  const LocationCol := "location"
  const RatingCol := "rating_1_5"

  /** A DictReader row: field name to value, None for a field the line did not reach. */
  type CsvRow = map<string, Option<string>>

  // ---------------------------------------------------------------------
  // Delimiter detection
  // ---------------------------------------------------------------------

  /** The characters str.splitlines breaks at. */
  predicate IsLineBreak(c: char) {
    c == '\n' || c == '\r' || c == '\U{0B}' || c == '\U{0C}' || c == '\U{1C}' || c == '\U{1D}'
    || c == '\U{1E}' || c == '\U{85}' || c == '\U{2028}' || c == '\U{2029}'
  }

  /** body.splitlines()[0] for a body that is not blank: the text before the first line break. */
  function FirstLine(body: string): (line: string)
    ensures |line| <= |body| && line == body[..|line|]
    ensures forall i :: 0 <= i < |line| ==> !IsLineBreak(line[i])
    ensures |line| < |body| ==> IsLineBreak(body[|line|])
  {
    if body == [] || IsLineBreak(body[0]) then [] else [body[0]] + FirstLine(body[1..])
  }

  /** ';' when semicolons strictly outnumber commas and tabs, else tab when tabs outnumber commas, else ','. */
  function Delimiter(sample: string): (d: char)
    ensures d == ',' || d == ';' || d == '\t'
  {
    var commas := Count(sample, ',');
    var semicolons := Count(sample, ';');
    var tabs := Count(sample, '\t');
    if semicolons > commas && semicolons > tabs then ';'
    else if tabs > commas then '\t'
    else ','
  }

  /**
   * The chosen delimiter is one of the three and occurs at least as often as
   * each of the others; ties go to ',' before tab before ';'.
   */
  lemma DelimiterMostFrequent(sample: string)
    ensures var d := Delimiter(sample);
      && (d == ',' || d == ';' || d == '\t')
      && Count(sample, d) >= Count(sample, ',')
      && Count(sample, d) >= Count(sample, ';')
      && Count(sample, d) >= Count(sample, '\t')
    ensures Delimiter(sample) == ';' <==> Count(sample, ';') > Count(sample, ',') && Count(sample, ';') > Count(sample, '\t')
    ensures Delimiter(sample) == ',' <==> Count(sample, ',') >= Count(sample, ';') && Count(sample, ',') >= Count(sample, '\t')
    ensures (',' !in sample && ';' !in sample && '\t' !in sample) ==> Delimiter(sample) == ','
  {
  }

  // ---------------------------------------------------------------------
  // Rows to documents
  // ---------------------------------------------------------------------

  /** str(row.get(c, "") or ""): the value, or "" when it is absent, None or empty. */
  function TextField(row: CsvRow, c: string): string {
    if c in row && row[c].Some? then row[c].value else ""
  }

  /** str(row.get(c, default)): the default when the field is absent, "None" for a None value. */
  function Shown(row: CsvRow, c: string, default: string): string {
    if c !in row then default
    else if row[c].None? then "None"
    else row[c].value
  }

  /** float(row.get(c) or 0.0): 0.0 for an absent, None or empty value; None where float() raises. */
  function RatingField(row: CsvRow, c: string, parseFloat: string -> Option<real>): Option<real> {
    var v := TextField(row, c);
    if v == "" then Some(0.0) else parseFloat(v)
  }

  /**
   * The document `_iter_csv_rows` yields for one row, or None when the row is
   * skipped: blank text (`continue`) or a rating float() rejects (the
   * exception handler's `continue`).
   */
  function RowDoc(row: CsvRow, parseFloat: string -> Option<real>): (d: Option<Doc>)
    ensures d.Some? ==> d.value.text != [] && d.value.rating.Some? && d.value.vector.None?
  {
    var text := Strip(TextField(row, TextCol));
    var rating := RatingField(row, RatingCol, parseFloat);
    if text == [] || rating.None? then None
    else Some(Doc(Shown(row, IdCol, ""), Shown(row, LocationCol, "NA"), rating, text, None))
  }

  /** The documents yielded for a list of rows, in row order. */
  function KeptDocs(rows: seq<CsvRow>, parseFloat: string -> Option<real>): (docs: seq<Doc>)
    ensures |docs| <= |rows|
  {
    if rows == [] then []
    else
      var last := RowDoc(rows[|rows| - 1], parseFloat);
      KeptDocs(rows[..|rows| - 1], parseFloat) + (if last.Some? then [last.value] else [])
  }

  /** The documents of an object body: none for a blank body, else the kept rows under the sniffed delimiter. */
  function BodyDocs(body: string, reader: (string, char) -> seq<CsvRow>, parseFloat: string -> Option<real>): seq<Doc> {
    if Strip(body) == [] then [] else KeptDocs(reader(body, Delimiter(FirstLine(body))), parseFloat)
  }

  /**
   * What iterating `_iter_csv_rows(uri)` produces: None when the URI assert
   * or split raises; no documents when the object cannot be fetched or read.
   */
  function CsvDocs(uri: string, fetch: (string, string) -> Option<string>,
                   reader: (string, char) -> seq<CsvRow>, parseFloat: string -> Option<real>): Option<seq<Doc>> {
    match ParseS3Uri(uri)
    case None => None
    case Some((bucket, key)) =>
      match fetch(bucket, key)
      case None => Some([])
      case Some(body) => Some(BodyDocs(body, reader, parseFloat))
  }

  /** The generator loop of `_iter_csv_rows`. */
  method IterCsvRows(uri: string, fetch: (string, string) -> Option<string>,
                     reader: (string, char) -> seq<CsvRow>, parseFloat: string -> Option<real>)
    returns (docs: Option<seq<Doc>>)
    ensures docs == CsvDocs(uri, fetch, reader, parseFloat)
  {
    var loc := ParseS3Uri(uri);
    if loc.None? {
      return None;
    }
    var (bucket, key) := loc.value;
    var fetched := fetch(bucket, key);
    if fetched.None? {
      return Some([]);
    }
    var body := fetched.value;
    if Strip(body) == [] {
      return Some([]);
    }
    var delimiter := Delimiter(FirstLine(body));
    var rows := reader(body, delimiter);
    var out: seq<Doc> := [];
    for i := 0 to |rows|
      invariant out == KeptDocs(rows[..i], parseFloat)
    {
      var text := Strip(TextField(rows[i], TextCol));
      assert rows[..i + 1][..i] == rows[..i];
      if text == [] {
        continue;
      }
      var rating := RatingField(rows[i], RatingCol, parseFloat);
      if rating.None? {
        continue;
      }
      out := out + [Doc(Shown(rows[i], IdCol, ""), Shown(rows[i], LocationCol, "NA"), rating, text, None)];
    }
    assert rows[..|rows|] == rows;
    return Some(out);
  }

  /**
   * A row is kept exactly when its stripped text is non-empty and its rating
   * is empty or parses; the kept document has the stripped text, the id
   * ("" when absent), the location ("NA" when absent) and the rating (0.0
   * when empty).
   */
  lemma RowDocDefaults(row: CsvRow, parseFloat: string -> Option<real>)
    ensures RowDoc(row, parseFloat).Some? <==>
      Strip(TextField(row, TextCol)) != [] && (TextField(row, RatingCol) == "" || parseFloat(TextField(row, RatingCol)).Some?)
    ensures RowDoc(row, parseFloat).Some? ==>
      var d := RowDoc(row, parseFloat).value;
      && d.text == Strip(TextField(row, TextCol)) && Strip(d.text) == d.text && d.text != []
      && (IdCol !in row ==> d.reviewId == "")
      && (LocationCol !in row ==> d.location == "NA")
      && (TextField(row, RatingCol) == "" ==> d.rating == Some(0.0))
      && d.vector.None?
  {
    StripIdempotent(TextField(row, TextCol));
  }

  /** Every yielded document has non-empty stripped text and a rating, and no vector yet. */
  lemma {:induction false} KeptDocsStripped(rows: seq<CsvRow>, parseFloat: string -> Option<real>)
    ensures forall d :: d in KeptDocs(rows, parseFloat) ==>
      d.text != [] && Strip(d.text) == d.text && d.rating.Some? && d.vector.None?
  {
    if rows != [] {
      KeptDocsStripped(rows[..|rows| - 1], parseFloat);
      RowDocDefaults(rows[|rows| - 1], parseFloat);
    }
  }

  // ---------------------------------------------------------------------
  // _bulk_upsert
  // ---------------------------------------------------------------------

  /** One bulk helper action: `_op_type`, `_index`, `_id`, `_source`. */
  datatype Action = Action(opType: string, index: string, id: string, source: Doc)

  function Actions(index: string, docs: seq<Doc>): seq<Action> {
    seq(|docs|, i requires 0 <= i < |docs| => Action("index", index, docs[i].reviewId, docs[i]))
  }

  /** The bulk call `_bulk_upsert` makes, or None when there are no documents (no call). */
  function BulkCall(index: string, docs: seq<Doc>): Option<seq<Action>> {
    if docs == [] then None else Some(Actions(index, docs))
  }

  /** Sources of the actions, in order. */
  function SourcesOf(actions: seq<Action>): seq<Doc> {
    seq(|actions|, i requires 0 <= i < |actions| => actions[i].source)
  }

  /**
   * One "index" action per document into the given index, keyed by the
   * document's review_id; reading back the sources gives the documents.
   */
  lemma ActionsRoundTrip(index: string, docs: seq<Doc>)
    ensures SourcesOf(Actions(index, docs)) == docs
    ensures forall a :: a in Actions(index, docs) ==> a.opType == "index" && a.index == index && a.id == a.source.reviewId
    ensures BulkCall(index, docs).None? <==> docs == []
  {
  }

  /** The bulk calls made for the upserted batches, in order. */
  function Calls(index: string, us: seq<seq<Doc>>): (calls: seq<seq<Action>>)
    ensures |calls| <= |us|
  {
    if us == [] then []
    else
      var call := BulkCall(index, us[|us| - 1]);
      Calls(index, us[..|us| - 1]) + (if call.Some? then [call.value] else [])
  }

  // ---------------------------------------------------------------------
  // handler
  // ---------------------------------------------------------------------

  /** The event fields the handler reads: "s3_csv_uri", "records", "os_index". */
  datatype Event = Event(csvUri: Option<string>, records: Option<seq<Doc>>, osIndex: Option<string>)

  /** 400 when there is no source, an exception out of the URI check, or 200 with what was sent. */
  datatype Response = BadRequest | Raised | Ok(index: string, ingested: nat, calls: seq<seq<Action>>)

  function StatusCode(r: Response): Option<int> {
    match r
    case BadRequest => Some(400)
    case Raised => None
    case Ok(_, _, _) => Some(200)
  }

  /** The documents the handler iterates over, or None when iterating raises. */
  function Source(event: Event, fetch: (string, string) -> Option<string>,
                  reader: (string, char) -> seq<CsvRow>, parseFloat: string -> Option<real>): Option<seq<Doc>>
    requires event.csvUri.Some? || event.records.Some?
  {
    if event.csvUri.Some? then CsvDocs(event.csvUri.value, fetch, reader, parseFloat)
    else Some(event.records.value)
  }

  /** The whole handler as a function of its event and the services it calls. */
  function Outcome(event: Event, defaultIndex: string, size: int, fetch: (string, string) -> Option<string>,
                   reader: (string, char) -> seq<CsvRow>, parseFloat: string -> Option<real>,
                   embedBatch: seq<string> -> seq<Vector>): Response
  {
    if event.csvUri.None? && event.records.None? then BadRequest
    else
      var index := event.osIndex.GetOr(defaultIndex);
      match Source(event, fetch, reader, parseFloat)
      case None => Raised
      case Some(docs) => Ok(index, |docs|, Calls(index, Upserts(Batches(docs, Capacity(size)), embedBatch)))
  }

  /** `handler`: choose the source, then embed and upsert in batches. */
  method Handler(event: Event, defaultIndex: string, size: int, fetch: (string, string) -> Option<string>,
                 reader: (string, char) -> seq<CsvRow>, parseFloat: string -> Option<real>,
                 embedBatch: seq<string> -> seq<Vector>)
    returns (resp: Response)
    ensures resp == Outcome(event, defaultIndex, size, fetch, reader, parseFloat, embedBatch)
  {
    var index := event.osIndex.GetOr(defaultIndex);
    var docs: seq<Doc>;
    if event.csvUri.Some? {
      var read := IterCsvRows(event.csvUri.value, fetch, reader, parseFloat);
      if read.None? {
        return Raised;
      }
      docs := read.value;
    } else if event.records.Some? {
      docs := event.records.value;
    } else {
      return BadRequest;
    }
    var upserts, ingested := EmbedInBatches(docs, size, embedBatch);
    return Ok(index, ingested, Calls(index, upserts));
  }

  /** The handler answers 400 exactly when the event names neither source. */
  lemma BadRequestIff(event: Event, defaultIndex: string, size: int, fetch: (string, string) -> Option<string>,
                      reader: (string, char) -> seq<CsvRow>, parseFloat: string -> Option<real>,
                      embedBatch: seq<string> -> seq<Vector>)
    ensures StatusCode(Outcome(event, defaultIndex, size, fetch, reader, parseFloat, embedBatch)) == Some(400)
      <==> event.csvUri.None? && event.records.None?
  {
  }

  /**
   * A successful run reports as `ingested` exactly the number of actions it
   * sent, and sends them in batches of BATCH but for a shorter last one.
   */
  lemma IngestedCountsActions(event: Event, defaultIndex: string, size: int, fetch: (string, string) -> Option<string>,
                              reader: (string, char) -> seq<CsvRow>, parseFloat: string -> Option<real>,
                              embedBatch: seq<string> -> seq<Vector>)
    ensures var r := Outcome(event, defaultIndex, size, fetch, reader, parseFloat, embedBatch);
      r.Ok? ==> r.ingested == |Flatten(r.calls)| && Batched(r.calls, Capacity(size))
  {
    var r := Outcome(event, defaultIndex, size, fetch, reader, parseFloat, embedBatch);
    if r.Ok? {
      var docs := Source(event, fetch, reader, parseFloat).value;
      var bs := Batches(docs, Capacity(size));
      BatchesSpec(docs, Capacity(size));
      CallsOfBatches(r.index, bs, embedBatch, Capacity(size));
    }
  }

  /** Bulk calls over the embedded batches of a batching: one call per batch, of the batch's size. */
  lemma {:induction false} CallsOfBatches(index: string, bs: seq<seq<Doc>>, embedBatch: seq<string> -> seq<Vector>, cap: nat)
    requires Batched(bs, cap) && 0 < cap
    ensures var calls := Calls(index, Upserts(bs, embedBatch));
      |Flatten(calls)| == |Flatten(bs)| && Batched(calls, cap)
    decreases |bs|
  {
    if bs != [] {
      var init := bs[..|bs| - 1];
      var b := bs[|bs| - 1];
      var us := Upserts(bs, embedBatch);
      assert us[..|us| - 1] == Upserts(init, embedBatch);
      assert Batched(init, cap) by {
        if init != [] {
          assert |init[|init| - 1]| == cap;
        }
      }
      CallsOfBatches(index, init, embedBatch, cap);
      var calls := Calls(index, us);
      var e := Embedded(b, embedBatch);
      assert |e| == |b| >= 1;
      assert calls == Calls(index, Upserts(init, embedBatch)) + [Actions(index, e)];
      FlattenSnoc(Calls(index, Upserts(init, embedBatch)), Actions(index, e));
      assert bs == init + [b];
      FlattenSnoc(init, b);
    }
  }
}
