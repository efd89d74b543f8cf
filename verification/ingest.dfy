/**
 * The batch indexer of the retrieval layer
 * (src/rag/ingest_parquet_to_opensearch.py): the OpenSearch host taken from
 * the endpoint, the retry loop of `embed_one`, the generator `make_actions`
 * that turns review rows into one index action per text chunk, and the text
 * filter `main` applies first.
 *
 * Bedrock is a parameter: `embed_one` sees the outcome of each numbered
 * attempt, and `make_actions` sees the vector each chunk embeds to.
 */
module Ingest {
  import opened Wrappers
  import opened Text
  import F = Frames
  import C = Chunker
  import E = Embedding

  // ---------------------------------------------------------------------
  // Host normalisation
  // ---------------------------------------------------------------------

  /** OS_ENDPOINT.replace("https://", "").replace("http://", "").split("/")[0] */
  function Host(endpoint: string): (host: string)
    ensures '/' !in host && |host| <= |endpoint|
  {
    BeforeFirst(RemoveAll(RemoveAll(endpoint, "https://"), "http://"), '/')
  }

  /** An endpoint that is already a bare host is kept as it is. */
  lemma HostOfBareHost(endpoint: string)
    requires '/' !in endpoint
    ensures Host(endpoint) == endpoint
  {
    RemoveAllAbsent(endpoint, "https://", '/');
    RemoveAllAbsent(endpoint, "http://", '/');
  }

  /** With either scheme, and a path that is empty or starts at "/", the host comes back. */
  lemma HostOfUrl(scheme: string, host: string, path: string)
    requires scheme == "https://" || scheme == "http://"
    requires '/' !in host && ':' !in host
    requires path == [] || path[0] == '/'
    ensures Host(scheme + host + path) == host
  {
    var p1 := RemoveAll(path, "https://");
    if path != [] {
      RemoveAllSlashHead(path, "https://");
    }
    if scheme == "https://" {
      DropHttps(host, path);
    } else {
      DropHttpsAfterHttp(host, path);
      var u := scheme + host + p1;
      assert u[..7] == "http://" && u[7..] == host + p1;
    }
    HostAfterHttps(host, p1);
  }

  lemma DropHttps(host: string, path: string)
    requires ':' !in host && (path == [] || path[0] == '/')
    ensures RemoveAll("https://" + host + path, "https://") == host + RemoveAll(path, "https://")
  {
    var s := "https://" + host + path;
    assert s[..8] == "https://" && s[8..] == host + path;
    RemoveAllKeepsHead(host, path, "https://", 5);
  }

  lemma DropHttpsAfterHttp(host: string, path: string)
    requires ':' !in host && (path == [] || path[0] == '/')
    ensures RemoveAll("http://" + host + path, "https://") == "http://" + host + RemoveAll(path, "https://")
  {
    KeepHttp(host + path);
    RemoveAllKeepsHead(host, path, "https://", 5);
    RemoveAllRegroup("http://", host, path, "https://");
  }

  /** Regrouping pre + (host + path) as pre + host + path, for a removal that passes over pre and host. */
  lemma RemoveAllRegroup(pre: string, host: string, path: string, pat: string)
    requires pat != []
    requires RemoveAll(pre + (host + path), pat) == pre + RemoveAll(host + path, pat)
    requires RemoveAll(host + path, pat) == host + RemoveAll(path, pat)
    ensures RemoveAll(pre + host + path, pat) == pre + host + RemoveAll(path, pat)
  {
    assert pre + host + path == pre + (host + path);
  }

  /** "http://" holds no occurrence of "https://", so that removal passes over the scheme. */
  lemma KeepHttp(b: string)
    ensures RemoveAll("http://" + b, "https://") == "http://" + RemoveAll(b, "https://")
  {
    var s := "http://" + b;
    forall j | 0 <= j < 7
      ensures !MatchAt(s, "https://", j)
    {
      if j + 8 <= |s| {
        var w := s[j..j + 8];
        if j == 0 {
          assert w[4] == ':';
        } else {
          assert w[0] == "http://"[j];
        }
      }
    }
    RemoveAllAfterHead("http://", b, "https://");
  }

  /** Once "https://" is gone from host + rest, the rest of the normalisation yields the host. */
  lemma HostAfterHttps(host: string, p1: string)
    requires '/' !in host && ':' !in host && (p1 == [] || p1[0] == '/')
    ensures BeforeFirst(RemoveAll(host + p1, "http://"), '/') == host
  {
    HttpScheme("http://");
    HostAfterScheme(host, p1, "http://");
  }

  /** The facts about "http://" the removal lemmas need. */
  lemma HttpScheme(pat: string)
    requires pat == "http://"
    ensures 4 < |pat| && pat[4] == ':' && '/' !in pat[..5] && pat[0] != '/'
  {
  }

  /** Removing a scheme-like pattern, then cutting at the first "/", leaves the host. */
  lemma HostAfterScheme(host: string, p1: string, pat: string)
    requires 4 < |pat| && pat[4] == ':' && '/' !in pat[..5] && pat[0] != '/'
    requires '/' !in host && ':' !in host && (p1 == [] || p1[0] == '/')
    ensures BeforeFirst(RemoveAll(host + p1, pat), '/') == host
  {
    var p2 := RemoveAll(p1, pat);
    assert RemoveAll(host + p1, pat) == host + p2 by {
      RemoveAllKeepsHead(host, p1, pat, 4);
    }
    if p1 != [] {
      assert p2 == ['/'] + p2[1..] by {
        RemoveAllSlashHead(p1, pat);
      }
      assert host + p2 == host + ['/'] + p2[1..];
      BeforeFirstOf(host, '/', p2[1..]);
    } else {
      assert host + p2 == host;
    }
  }

  // ---------------------------------------------------------------------
  // embed_one
  // ---------------------------------------------------------------------

  const RetryAttempts: nat := 5

  /** How one invoke_model attempt ends: a vector, a ClientError (its code and HTTP status, if any), or another exception. */
  datatype Attempt = Returned(vector: E.Vector) | ClientError(code: string, status: Option<int>) | Failed

  /** How embed_one ends: the vector and the attempt that produced it, an exception re-raised at an attempt, or RuntimeError. */
  datatype EmbedResult = Embedded(vector: E.Vector, attempt: nat) | Raised(attempt: nat) | RetriesExhausted

  predicate Retryable(code: string, status: int) {
    code == "ThrottlingException" || code == "TooManyRequestsException" || status >= 500
  }

  /**
   * The attempt fails and the loop moves on to the next: any exception but a
   * ClientError, or a throttling or server-side ClientError. A ClientError
   * without an HTTP status raises KeyError while it is examined.
   */
  predicate Retried(a: Attempt) {
    a.Failed? || (a.ClientError? && a.status.Some? && Retryable(a.code, a.status.value))
  }

  /** The attempts from `attempt` on, up to RetryAttempts; call(n) is the outcome of attempt n. */
  function EmbedFrom(attempt: nat, call: nat -> Attempt): EmbedResult
    decreases RetryAttempts + 1 - attempt
  {
    if attempt > RetryAttempts then RetriesExhausted
    else
      match call(attempt)
      case Returned(v) => Embedded(v, attempt)
      case ClientError(code, status) =>
        if status.Some? && Retryable(code, status.value) then EmbedFrom(attempt + 1, call) else Raised(attempt)
      case Failed => EmbedFrom(attempt + 1, call)
  }

  /** The number of invoke_model calls a run that ends in r has made. */
  function AttemptsMade(r: EmbedResult): nat {
    match r
    case Embedded(_, n) => n
    case Raised(n) => n
    case RetriesExhausted => RetryAttempts
  }

  /** `embed_one`: for attempt in 1..RETRY_ATTEMPTS, return, retry (`continue`) or raise. */
  method EmbedOne(call: nat -> Attempt) returns (r: EmbedResult, attempts: nat)
    ensures r == EmbedFrom(1, call)
    ensures attempts == AttemptsMade(r) <= RetryAttempts
  {
    attempts := 0;
    for attempt := 1 to RetryAttempts + 1
      invariant attempts == attempt - 1
      invariant EmbedFrom(1, call) == EmbedFrom(attempt, call)
    {
      var outcome := call(attempt);
      attempts := attempts + 1;
      match outcome {
        case Returned(v) =>
          EmbedFromBounds(1, call);
          return Embedded(v, attempt), attempts;
        case ClientError(code, status) =>
          if status.None? {
            EmbedFromBounds(1, call);
            return Raised(attempt), attempts;
          }
          if Retryable(code, status.value) {
            continue;
          }
          EmbedFromBounds(1, call);
          return Raised(attempt), attempts;
        case Failed =>
      }
    }
    r := RetriesExhausted;
  }

  lemma {:induction false} EmbedFromBounds(attempt: nat, call: nat -> Attempt)
    requires 1 <= attempt
    ensures AttemptsMade(EmbedFrom(attempt, call)) <= RetryAttempts
    ensures EmbedFrom(attempt, call).Embedded? || EmbedFrom(attempt, call).Raised? ==>
      attempt <= EmbedFrom(attempt, call).attempt
    decreases RetryAttempts + 1 - attempt
  {
    if attempt <= RetryAttempts && Retried(call(attempt)) {
      EmbedFromBounds(attempt + 1, call);
    }
  }

  /**
   * What embed_one returns, for every sequence of attempt outcomes: the
   * vector of the first attempt that returns one, after failures that were
   * all retried; a re-raise at the first attempt that fails without being
   * retried; RuntimeError exactly when all RETRY_ATTEMPTS attempts fail and
   * are retried.
   */
  lemma EmbedOneOutcome(call: nat -> Attempt)
    ensures var r := EmbedFrom(1, call);
      && (r.Embedded? ==> 1 <= r.attempt <= RetryAttempts && call(r.attempt) == Returned(r.vector))
      && (r.Raised? ==> 1 <= r.attempt <= RetryAttempts && call(r.attempt).ClientError? && !Retried(call(r.attempt)))
      && (r.Embedded? || r.Raised? ==> forall a :: 1 <= a < r.attempt ==> Retried(call(a)))
      && (r.RetriesExhausted? <==> forall a :: 1 <= a <= RetryAttempts ==> Retried(call(a)))
  {
    EmbedFromOutcome(1, call);
  }

  lemma {:induction false} EmbedFromOutcome(start: nat, call: nat -> Attempt)
    requires 1 <= start
    ensures var r := EmbedFrom(start, call);
      && (r.Embedded? ==> start <= r.attempt <= RetryAttempts && call(r.attempt) == Returned(r.vector))
      && (r.Raised? ==> start <= r.attempt <= RetryAttempts && call(r.attempt).ClientError? && !Retried(call(r.attempt)))
      && (r.Embedded? || r.Raised? ==> forall a :: start <= a < r.attempt ==> Retried(call(a)))
      && (r.RetriesExhausted? <==> forall a :: start <= a <= RetryAttempts ==> Retried(call(a)))
    decreases RetryAttempts + 1 - start
  {
    if start <= RetryAttempts && Retried(call(start)) {
      EmbedFromOutcome(start + 1, call);
    }
  }

  // ---------------------------------------------------------------------
  // make_actions
  // ---------------------------------------------------------------------

  const TextCol := "review_text"
  const TargetChars := 1200
  const OverlapChars: nat := 240

  /** The metadata every chunk of a row carries. */
  datatype Meta = Meta(reviewId: F.Value, location: F.Value, menuItem: F.Value, rating: Rating,
                       sentiment: F.Value, ts: F.Value)

  /**
   * The "rating" entry: None when the frame has no rating column (row.get
   * returns None), NaN for a missing cell (float(nan) is nan) and here also for
   * a text or date cell, else the number.
   */
  datatype Rating = NoRating | NaN | Rated(x: real)

  /** {"_op_type": "index", "_index": index, "_source": {"vector": ..., "chunk_text": ..., **meta}} */
  datatype Action = Action(index: string, vector: E.Vector, chunkText: string, meta: Meta)

  /** row.get(TEXT_COL) or "": a missing or empty text is read as "". */
  function RowText(row: F.Row): (t: Option<string>)
    ensures t.Some? <==> F.Get(row, TextCol).Str?
    ensures t.Some? ==> F.Get(row, TextCol) == F.Str(t.value)
  {
    match F.Get(row, TextCol)
    case Str(s) => Some(s)
    case _ => None
  }

  /**
   * float(row.get("rating")) if row.get("rating") is not None else None, on a
   * row of df.iterrows() (see IterRow): the key is absent exactly when the
   * frame has no rating column, and a missing cell reads as NaN.
   */
  function RatingOf(row: F.Row): (r: Rating)
    ensures r.NoRating? <==> "rating" !in row
    ensures r.Rated? ==> row["rating"] == F.Num(r.x)
  {
    if "rating" !in row then NoRating
    else match row["rating"]
      case Num(x) => Rated(x)
      case _ => NaN
  }

  function MetaOf(row: F.Row): Meta {
    Meta(F.Get(row, "review_id"), F.Get(row, "location"), F.Get(row, "menu_item"),
         RatingOf(row), F.Get(row, "sentiment"), F.Get(row, "ts"))
  }

  /** chunk_text(text, target_chars=1200, overlap=240) */
  function RowChunks(row: F.Row): seq<string> {
    C.Chunks(RowText(row), TargetChars, OverlapChars)
  }

  /** The actions for a run of chunks of one row, in chunk order. */
  function ChunkActions(chunks: seq<string>, meta: Meta, index: string, embed: string -> E.Vector): (acts: seq<Action>)
    ensures |acts| == |chunks|
  {
    seq(|chunks|, i requires 0 <= i < |chunks| => Action(index, embed(chunks[i]), chunks[i], meta))
  }

  function RowActions(row: F.Row, index: string, embed: string -> E.Vector): seq<Action> {
    ChunkActions(RowChunks(row), MetaOf(row), index, embed)
  }

  /** Everything make_actions yields for the rows, row after row. */
  function Actions(rows: seq<F.Row>, index: string, embed: string -> E.Vector): seq<Action> {
    if rows == [] then []
    else Actions(rows[..|rows| - 1], index, embed) + RowActions(rows[|rows| - 1], index, embed)
  }

  /** The texts handed to embed_parallel, call by call. */
  function EmbedCalls(rows: seq<F.Row>, batchChunks: nat): seq<seq<string>>
    requires 0 < batchChunks
  {
    if rows == [] then []
    else EmbedCalls(rows[..|rows| - 1], batchChunks) + E.Batches(RowChunks(rows[|rows| - 1]), batchChunks)
  }

  lemma ChunkActionsAppend(a: seq<string>, b: seq<string>, meta: Meta, index: string, embed: string -> E.Vector)
    ensures ChunkActions(a + b, meta, index, embed) == ChunkActions(a, meta, index, embed) + ChunkActions(b, meta, index, embed)
  {
    var l := ChunkActions(a + b, meta, index, embed);
    var r := ChunkActions(a, meta, index, embed) + ChunkActions(b, meta, index, embed);
    assert forall i :: 0 <= i < |l| ==> l[i] == r[i];
  }

  /**
   * `make_actions`: for each row, chunk its text, then yield the actions of
   * its chunks slice by slice.
   */
  method MakeActions(rows: seq<F.Row>, batchChunks: nat, index: string, embed: string -> E.Vector)
    returns (actions: seq<Action>, calls: seq<seq<string>>)
    requires 0 < batchChunks
    ensures actions == Actions(rows, index, embed)
    ensures calls == EmbedCalls(rows, batchChunks)
  {
    actions, calls := [], [];
    for r := 0 to |rows|
      invariant actions == Actions(rows[..r], index, embed)
      invariant calls == EmbedCalls(rows[..r], batchChunks)
    {
      var row := rows[r];
      var chunks := C.ChunkText(RowText(row), TargetChars, OverlapChars);
      var acts, embedded := SliceActions(chunks, MetaOf(row), batchChunks, index, embed);
      PrefixStep(rows, r, index, embed, batchChunks);
      actions := actions + acts;
      calls := calls + embedded;
    }
    assert rows[..|rows|] == rows;
  }

  /** One more row appends that row's actions and embedding calls. */
  lemma PrefixStep(rows: seq<F.Row>, r: int, index: string, embed: string -> E.Vector, batchChunks: nat)
    requires 0 <= r < |rows| && 0 < batchChunks
    ensures Actions(rows[..r + 1], index, embed) == Actions(rows[..r], index, embed) + RowActions(rows[r], index, embed)
    ensures EmbedCalls(rows[..r + 1], batchChunks) ==
      EmbedCalls(rows[..r], batchChunks) + E.Batches(RowChunks(rows[r]), batchChunks)
  {
    assert rows[..r + 1][..r] == rows[..r];
  }

  /**
   * The inner loop of `make_actions` over one row's chunks: for i in
   * range(0, len(chunks), batch_chunks) embed chunks[i:i + batch_chunks]
   * and yield an action per chunk. Python's range rejects a step of 0, so
   * batch_chunks is positive.
   */
  method SliceActions(chunks: seq<string>, meta: Meta, batchChunks: nat, index: string, embed: string -> E.Vector)
    returns (actions: seq<Action>, calls: seq<seq<string>>)
    requires 0 < batchChunks
    ensures actions == ChunkActions(chunks, meta, index, embed)
    ensures calls == E.Batches(chunks, batchChunks)
  {
    actions, calls := [], [];
    var i := 0;
    while i < |chunks|
      invariant 0 <= i
      invariant E.Flatten(calls) == chunks[..C.Min(i, |chunks|)]
      invariant E.Batched(calls, batchChunks)
      invariant i < |chunks| ==> forall j :: 0 <= j < |calls| ==> |calls[j]| == batchChunks
      invariant actions == ChunkActions(chunks[..C.Min(i, |chunks|)], meta, index, embed)
      decreases |chunks| - i
    {
      var end := C.Min(i + batchChunks, |chunks|);
      var batch := chunks[i..end];
      var vectors := seq(|batch|, j requires 0 <= j < |batch| => embed(batch[j]));
      var acts := ZipBatch(batch, vectors, meta, index);
      assert acts == ChunkActions(batch, meta, index, embed);
      E.FlattenSnoc(calls, batch);
      assert chunks[..end] == chunks[..i] + batch;
      ChunkActionsAppend(chunks[..i], batch, meta, index, embed);
      actions := actions + acts;
      calls := calls + [batch];
      i := i + batchChunks;
    }
    assert chunks[..|chunks|] == chunks;
    E.BatchesUnique(calls, chunks, batchChunks);
  }

  /** `for ch, vec in zip(batch, vectors): yield {...}`, with one vector per chunk. */
  method ZipBatch(batch: seq<string>, vectors: seq<E.Vector>, meta: Meta, index: string) returns (actions: seq<Action>)
    requires |vectors| == |batch|
    ensures |actions| == |batch|
    ensures forall j :: 0 <= j < |batch| ==> actions[j] == Action(index, vectors[j], batch[j], meta)
  {
    actions := [];
    for j := 0 to |batch|
      invariant |actions| == j
      invariant forall k :: 0 <= k < j ==> actions[k] == Action(index, vectors[k], batch[k], meta)
    {
      actions := actions + [Action(index, vectors[j], batch[j], meta)];
    }
  }

  /**
   * One row's actions: one per chunk, each a non-empty piece of the row's
   * text with the vector of exactly that piece, the target index and the
   * row's metadata; read back and stitched at the overlap they give the
   * normalised text, and there are none exactly when the text is blank.
   */
  lemma RowActionsSpec(row: F.Row, index: string, embed: string -> E.Vector)
    ensures var acts := RowActions(row, index, embed);
      && |acts| == |RowChunks(row)|
      && (forall a :: a in acts ==>
            a.index == index && a.meta == MetaOf(row) && a.vector == embed(a.chunkText) && a.chunkText != [])
      && C.Stitch(ChunkTexts(acts), OverlapChars) == NormalizeWs(RowText(row).GetOr(""))
      && (acts == [] <==> forall i :: 0 <= i < |RowText(row).GetOr("")| ==> IsSpace(RowText(row).GetOr("")[i]))
  {
    forall a | a in RowActions(row, index, embed)
      ensures a.index == index && a.meta == MetaOf(row) && a.vector == embed(a.chunkText) && a.chunkText != []
    {
      RowActionFields(row, index, embed, a);
    }
    RowActionsStitch(row, index, embed);
    C.ChunksEmpty(RowText(row), TargetChars, OverlapChars);
  }

  lemma RowActionFields(row: F.Row, index: string, embed: string -> E.Vector, a: Action)
    requires a in RowActions(row, index, embed)
    ensures a.index == index && a.meta == MetaOf(row) && a.vector == embed(a.chunkText) && a.chunkText != []
  {
    var acts := RowActions(row, index, embed);
    var chunks := RowChunks(row);
    var i :| 0 <= i < |acts| && acts[i] == a;
    assert a.chunkText == chunks[i];
    C.ChunksAreSlices(C.ChunkInput(RowText(row)), TargetChars, OverlapChars);
  }

  lemma RowActionsStitch(row: F.Row, index: string, embed: string -> E.Vector)
    ensures C.Stitch(ChunkTexts(RowActions(row, index, embed)), OverlapChars) == NormalizeWs(RowText(row).GetOr(""))
  {
    ChunkTextsOf(RowChunks(row), MetaOf(row), index, embed);
    C.ChunksCover(C.ChunkInput(RowText(row)), TargetChars, OverlapChars);
  }

  /** The chunk texts of a run of actions. */
  function ChunkTexts(acts: seq<Action>): (ts: seq<string>)
    ensures |ts| == |acts|
  {
    seq(|acts|, i requires 0 <= i < |acts| => acts[i].chunkText)
  }

  lemma ChunkTextsOf(chunks: seq<string>, meta: Meta, index: string, embed: string -> E.Vector)
    ensures ChunkTexts(ChunkActions(chunks, meta, index, embed)) == chunks
  {
  }

  lemma ChunkTextsAppend(a: seq<Action>, b: seq<Action>)
    ensures ChunkTexts(a + b) == ChunkTexts(a) + ChunkTexts(b)
  {
    var l := ChunkTexts(a + b);
    var r := ChunkTexts(a) + ChunkTexts(b);
    assert forall i :: 0 <= i < |l| ==> l[i] == r[i];
  }

  /** The chunks of every row, row after row. */
  function AllChunks(rows: seq<F.Row>): (cs: seq<seq<string>>)
    ensures |cs| == |rows|
  {
    if rows == [] then [] else AllChunks(rows[..|rows| - 1]) + [RowChunks(rows[|rows| - 1])]
  }

  /** The generator yields exactly one action per chunk, rows in order and chunks in order within a row. */
  lemma {:induction false} ActionsInOrder(rows: seq<F.Row>, index: string, embed: string -> E.Vector)
    ensures ChunkTexts(Actions(rows, index, embed)) == E.Flatten(AllChunks(rows))
  {
    if rows != [] {
      var init := rows[..|rows| - 1];
      var last := rows[|rows| - 1];
      ActionsInOrder(init, index, embed);
      E.FlattenSnoc(AllChunks(init), RowChunks(last));
      ChunkTextsAppend(Actions(init, index, embed), RowActions(last, index, embed));
      ChunkTextsOf(RowChunks(last), MetaOf(last), index, embed);
    }
  }

  /** The same chunks, in the same order, are embedded in slices of 1 to batch_chunks texts. */
  lemma EmbedCallsInOrder(rows: seq<F.Row>, batchChunks: nat)
    requires 0 < batchChunks
    ensures E.Flatten(EmbedCalls(rows, batchChunks)) == E.Flatten(AllChunks(rows))
    ensures forall c :: c in EmbedCalls(rows, batchChunks) ==> 1 <= |c| <= batchChunks
  {
    EmbedCallsFlatten(rows, batchChunks);
    EmbedCallsSizes(rows, batchChunks);
  }

  lemma {:induction false} EmbedCallsFlatten(rows: seq<F.Row>, batchChunks: nat)
    requires 0 < batchChunks
    ensures E.Flatten(EmbedCalls(rows, batchChunks)) == E.Flatten(AllChunks(rows))
  {
    if rows != [] {
      var init := rows[..|rows| - 1];
      var last := rows[|rows| - 1];
      EmbedCallsFlatten(init, batchChunks);
      E.FlattenSnoc(AllChunks(init), RowChunks(last));
      var bs := E.Batches(RowChunks(last), batchChunks);
      E.BatchesSpec(RowChunks(last), batchChunks);
      FlattenAppend(EmbedCalls(init, batchChunks), bs);
    }
  }

  lemma {:induction false} EmbedCallsSizes(rows: seq<F.Row>, batchChunks: nat)
    requires 0 < batchChunks
    ensures forall c :: c in EmbedCalls(rows, batchChunks) ==> 1 <= |c| <= batchChunks
  {
    if rows != [] {
      var init := rows[..|rows| - 1];
      EmbedCallsSizes(init, batchChunks);
      BatchSizes(RowChunks(rows[|rows| - 1]), batchChunks);
    }
  }

  /** Every slice of one row's chunks holds 1 to batch_chunks texts. */
  lemma BatchSizes(chunks: seq<string>, batchChunks: nat)
    requires 0 < batchChunks
    ensures forall c :: c in E.Batches(chunks, batchChunks) ==> 1 <= |c| <= batchChunks
  {
    var bs := E.Batches(chunks, batchChunks);
    E.BatchesSpec(chunks, batchChunks);
    forall c | c in bs
      ensures 1 <= |c| <= batchChunks
    {
      var k :| 0 <= k < |bs| && bs[k] == c;
    }
  }

  lemma {:induction false} FlattenAppend<T>(a: seq<seq<T>>, b: seq<seq<T>>)
    ensures E.Flatten(a + b) == E.Flatten(a) + E.Flatten(b)
  {
    if a != [] {
      assert (a + b)[0] == a[0] && (a + b)[1..] == a[1..] + b;
      FlattenAppend(a[1..], b);
    } else {
      assert a + b == b;
    }
  }



  // ---------------------------------------------------------------------
  // main
  // ---------------------------------------------------------------------

  /** df[TEXT_COL].notna() & (df[TEXT_COL].str.len() > 0) */
  predicate HasText(row: F.Row) {
    F.Get(row, TextCol).Str? && |F.Get(row, TextCol).s| > 0
  }

  /** The rows main keeps, in their order. */
  function TextRows(rows: seq<F.Row>): (kept: seq<F.Row>)
    ensures |kept| <= |rows|
    ensures forall r :: r in kept ==> r in rows && HasText(r)
  {
    if rows == [] then []
    else if HasText(rows[|rows| - 1]) then TextRows(rows[..|rows| - 1]) + [rows[|rows| - 1]]
    else TextRows(rows[..|rows| - 1])
  }

  /** Every row with a non-empty text is kept; none is dropped that has one. */
  lemma {:induction false} TextRowsKeep(rows: seq<F.Row>, r: F.Row)
    ensures r in TextRows(rows) <==> r in rows && HasText(r)
  {
    if rows != [] {
      TextRowsKeep(rows[..|rows| - 1], r);
      assert rows == rows[..|rows| - 1] + [rows[|rows| - 1]];
    }
  }

  /**
   * A row of df.iterrows(): a Series with an entry for every column of the
   * frame, holding the cell, or NA where the row has none.
   */
  function IterRow(cols: seq<string>, row: F.Row): (s: F.Row)
    ensures s.Keys == set c | c in cols
    ensures forall c :: c in cols ==> s[c] == F.Get(row, c)
  {
    map c | c in cols :: F.Get(row, c)
  }

  function IterRows(cols: seq<string>, rows: seq<F.Row>): (rs: seq<F.Row>)
    ensures |rs| == |rows|
    ensures forall i :: 0 <= i < |rows| ==> rs[i] == IterRow(cols, rows[i])
  {
    seq(|rows|, i requires 0 <= i < |rows| => IterRow(cols, rows[i]))
  }

  /** What main streams to OpenSearch: the actions of df.iterrows() over the rows with text. */
  function Ingested(f: F.Frame, index: string, embed: string -> E.Vector): seq<Action> {
    Actions(IterRows(f.columns, TextRows(f.rows)), index, embed)
  }

  /**
   * `main` on the frame it read: indexing df[TEXT_COL] raises KeyError when
   * the frame has no text column, before anything is streamed.
   */
  function Main(f: F.Frame, index: string, embed: string -> E.Vector): (r: Option<seq<Action>>)
    ensures r.None? <==> TextCol !in f.columns
  {
    if TextCol !in f.columns then None else Some(Ingested(f, index, embed))
  }

  /**
   * The rating in the metadata of a row main streams: None exactly when the
   * frame has no rating column, the number when the cell holds one, and NaN
   * for a missing or non-numeric cell of a rating column.
   */
  lemma IterRowRating(cols: seq<string>, row: F.Row)
    ensures RatingOf(IterRow(cols, row)).NoRating? <==> "rating" !in cols
    ensures RatingOf(IterRow(cols, row)).Rated? <==> "rating" in cols && F.Get(row, "rating").Num?
    ensures RatingOf(IterRow(cols, row)).Rated? ==> F.Get(row, "rating") == F.Num(RatingOf(IterRow(cols, row)).x)
    ensures RatingOf(IterRow(cols, row)).NaN? <==> "rating" in cols && !F.Get(row, "rating").Num?
  {
    var s := IterRow(cols, row);
    if "rating" in cols {
      assert "rating" in s.Keys;
    } else {
      assert "rating" !in s.Keys;
    }
  }

  /** Every ingested action comes from a kept row's text: a non-empty chunk with that row's metadata. */
  lemma IngestedFromText(f: F.Frame, index: string, embed: string -> E.Vector)
    ensures forall a :: a in Ingested(f, index, embed) ==>
      a.index == index && a.chunkText != [] && a.vector == embed(a.chunkText)
      && exists r :: r in f.rows && HasText(r) && a.meta == MetaOf(IterRow(f.columns, r))
  {
    var kept := TextRows(f.rows);
    var rs := IterRows(f.columns, kept);
    ActionsFromRows(rs, index, embed);
    forall a | a in Actions(rs, index, embed)
      ensures exists r :: r in f.rows && HasText(r) && a.meta == MetaOf(IterRow(f.columns, r))
    {
      var s :| s in rs && a.meta == MetaOf(s);
      var r := KeptSource(f.columns, kept, s);
      assert r in f.rows && HasText(r);
    }
  }

  /** A row of IterRows comes from one of the rows it was built from. */
  lemma KeptSource(cols: seq<string>, rows: seq<F.Row>, s: F.Row) returns (r: F.Row)
    requires s in IterRows(cols, rows)
    ensures r in rows && s == IterRow(cols, r)
  {
    var rs := IterRows(cols, rows);
    var i :| 0 <= i < |rs| && rs[i] == s;
    r := rows[i];
  }

  lemma {:induction false} ActionsFromRows(rows: seq<F.Row>, index: string, embed: string -> E.Vector)
    ensures forall a :: a in Actions(rows, index, embed) ==>
      a.index == index && a.chunkText != [] && a.vector == embed(a.chunkText)
      && exists r :: r in rows && a.meta == MetaOf(r)
  {
    if rows != [] {
      var init := rows[..|rows| - 1];
      var last := rows[|rows| - 1];
      ActionsFromRows(init, index, embed);
      RowActionsSpec(last, index, embed);
      forall a | a in Actions(rows, index, embed)
        ensures a.index == index && a.chunkText != [] && a.vector == embed(a.chunkText)
        ensures exists r :: r in rows && a.meta == MetaOf(r)
      {
        if a in Actions(init, index, embed) {
          var r :| r in init && a.meta == MetaOf(r);
          assert r in rows;
        } else {
          assert a in RowActions(last, index, embed);
          assert last in rows;
        }
      }
    }
  }
}
