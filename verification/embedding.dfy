/**
 * What the two embedding handlers (src/lambda_functions/embedding_handler.py
 * for CSV input and src/lambda/embedding_handler.py for parquet input) have
 * in common: the document they index, the "s3://bucket/key" URI split, and
 * the batching loop of `handler` that embeds and upserts BATCH documents at
 * a time and flushes the remainder once at the end.
 *
 * The embedding call (`_embed_batch`, a Bedrock call) is a function
 * parameter from the batch's texts to the vectors it returns.
 */
module Embedding {
  import opened Wrappers
  import opened Text

  type Vector = seq<real>

  /** A document as the handlers index it; `vector` is set once the batch is embedded. */
  datatype Doc = Doc(reviewId: string, location: string, rating: Option<real>, text: string, vector: Option<Vector>)

  // ---------------------------------------------------------------------
  // S3 URIs
  // ---------------------------------------------------------------------

  /**
   * The URI must start with "s3://" (an assert) and the rest is split once at
   * "/" into bucket and key (the unpacking raises when there is no "/").
   * None stands for either failure.
   */
  function ParseS3Uri(uri: string): Option<(string, string)> {
    if !StartsWith(uri, "s3://") then None else SplitOnce(uri[5..], '/')
  }

  /** A parsed URI is "s3://" + bucket + "/" + key with no "/" in the bucket. */
  lemma S3UriParsed(uri: string)
    ensures ParseS3Uri(uri).Some? <==> StartsWith(uri, "s3://") && '/' in uri[5..]
    ensures ParseS3Uri(uri).Some? ==>
      var (bucket, key) := ParseS3Uri(uri).value;
      uri == "s3://" + bucket + "/" + key && '/' !in bucket
  {
    if StartsWith(uri, "s3://") {
      var rest := uri[5..];
      assert uri == uri[..5] + rest;
      match SplitOnce(rest, '/')
      case None =>
      case Some((bucket, key)) =>
        assert rest == bucket + "/" + key;
    }
  }

  /** Building a URI from a bucket without "/" and any key and parsing it gives them back. */
  lemma S3UriRoundTrip(bucket: string, key: string)
    requires '/' !in bucket
    ensures ParseS3Uri("s3://" + bucket + "/" + key) == Some((bucket, key))
  {
    var uri := "s3://" + bucket + "/" + key;
    assert uri[..5] == "s3://";
    var rest := uri[5..];
    assert rest == bucket + "/" + key;
    BeforeFirstOf(bucket, '/', key);
    assert rest[|bucket| + 1..] == key;
  }

  // ---------------------------------------------------------------------
  // Batches
  // ---------------------------------------------------------------------

  /** The batches laid end to end. */
  function Flatten<T>(bs: seq<seq<T>>): seq<T> {
    if bs == [] then [] else bs[0] + Flatten(bs[1..])
  }

  lemma {:induction false} FlattenSnoc<T>(bs: seq<seq<T>>, b: seq<T>)
    ensures Flatten(bs + [b]) == Flatten(bs) + b
  {
    if bs != [] {
      assert (bs + [b])[1..] == bs[1..] + [b];
      FlattenSnoc(bs[1..], b);
    }
  }

  /**
   * The batch size in effect: `len(batch) >= BATCH` is checked right after an
   * append, so a BATCH below 1 flushes every document on its own.
   */
  function Capacity(size: int): (cap: nat)
    ensures 1 <= cap && (size >= 1 ==> cap == size)
  {
    if size < 1 then 1 else size
  }

  /** Every batch but the last holds exactly cap items; the last holds 1 to cap. */
  predicate Batched<T>(bs: seq<seq<T>>, cap: nat) {
    && (forall i :: 0 <= i < |bs| - 1 ==> |bs[i]| == cap)
    && (bs != [] ==> 1 <= |bs[|bs| - 1]| <= cap)
  }

  /** The items cut into consecutive batches of cap, the last one shorter if need be. */
  function Batches<T>(xs: seq<T>, cap: nat): seq<seq<T>>
    requires 0 < cap
    decreases |xs|
  {
    if xs == [] then []
    else if |xs| <= cap then [xs]
    else [xs[..cap]] + Batches(xs[cap..], cap)
  }

  /** The batches hold every item once and in order, and are full but for the last. */
  lemma {:induction false} BatchesSpec<T>(xs: seq<T>, cap: nat)
    requires 0 < cap
    ensures Flatten(Batches(xs, cap)) == xs
    ensures Batched(Batches(xs, cap), cap)
    decreases |xs|
  {
    if |xs| > cap {
      BatchesSpec(xs[cap..], cap);
      var bs := Batches(xs, cap);
      assert bs[1..] == Batches(xs[cap..], cap);
      assert xs == xs[..cap] + xs[cap..];
    }
  }

  /** Any batching that is full but for a non-empty last batch and lays out xs is Batches(xs). */
  lemma {:induction false} BatchesUnique<T>(bs: seq<seq<T>>, xs: seq<T>, cap: nat)
    requires 0 < cap
    requires Batched(bs, cap) && Flatten(bs) == xs
    ensures bs == Batches(xs, cap)
    decreases |bs|
  {
    if |bs| > 1 {
      var rest := bs[1..];
      assert Batched(rest, cap) by {
        assert forall i :: 0 <= i < |rest| - 1 ==> rest[i] == bs[i + 1];
        assert rest[|rest| - 1] == bs[|bs| - 1];
      }
      FlattenLength(rest);
      assert |Flatten(rest)| >= |rest[|rest| - 1]| >= 1;
      assert |bs[0]| == cap;
      assert xs[..cap] == bs[0] && xs[cap..] == Flatten(rest);
      BatchesUnique(rest, Flatten(rest), cap);
    } else if |bs| == 1 {
      assert bs[1..] == [];
      assert Flatten(bs) == bs[0];
    }
  }

  lemma {:induction false} FlattenLength<T>(bs: seq<seq<T>>)
    requires bs != []
    ensures |Flatten(bs)| >= |bs[|bs| - 1]|
  {
    if |bs| > 1 {
      FlattenLength(bs[1..]);
    }
  }

  // ---------------------------------------------------------------------
  // Embedding a batch
  // ---------------------------------------------------------------------

  /** [d["text"] for d in batch] */
  function Texts(ds: seq<Doc>): seq<string> {
    seq(|ds|, i requires 0 <= i < |ds| => ds[i].text)
  }

  /** zip(batch, vecs): the i-th document gets the i-th vector; documents beyond the vectors keep theirs. */
  function Zip(batch: seq<Doc>, vecs: seq<Vector>): seq<Doc> {
    seq(|batch|, i requires 0 <= i < |batch| => if i < |vecs| then batch[i].(vector := Some(vecs[i])) else batch[i])
  }

  /** `for d, v in zip(batch, vecs): d["vector"] = v` */
  method AttachVectors(batch: seq<Doc>, vecs: seq<Vector>) returns (out: seq<Doc>)
    ensures out == Zip(batch, vecs)
  {
    out := batch;
    var i := 0;
    while i < |batch| && i < |vecs|
      invariant 0 <= i <= |batch| && i <= |vecs| && |out| == |batch|
      invariant forall j :: 0 <= j < i ==> out[j] == batch[j].(vector := Some(vecs[j]))
      invariant forall j :: i <= j < |batch| ==> out[j] == batch[j]
    {
      out := out[i := out[i].(vector := Some(vecs[i]))];
      i := i + 1;
    }
  }

  /** Each document receives the vector at its own position and is otherwise unchanged. */
  lemma ZipVectors(batch: seq<Doc>, vecs: seq<Vector>, i: int)
    requires 0 <= i < |batch|
    ensures |Zip(batch, vecs)| == |batch|
    ensures Zip(batch, vecs)[i].(vector := batch[i].vector) == batch[i]
    ensures i < |vecs| ==> Zip(batch, vecs)[i].vector == Some(vecs[i])
    ensures i >= |vecs| ==> Zip(batch, vecs)[i] == batch[i]
  {
  }

  /** A batch as it is handed to `_bulk_upsert`: its documents with their vectors. */
  function Embedded(batch: seq<Doc>, embedBatch: seq<string> -> seq<Vector>): seq<Doc> {
    Zip(batch, embedBatch(Texts(batch)))
  }

  /** The batches handed to `_bulk_upsert`, in order. */
  function Upserts(bs: seq<seq<Doc>>, embedBatch: seq<string> -> seq<Vector>): (us: seq<seq<Doc>>)
    ensures |us| == |bs|
  {
    if bs == [] then [] else Upserts(bs[..|bs| - 1], embedBatch) + [Embedded(bs[|bs| - 1], embedBatch)]
  }

  lemma UpsertsAt(bs: seq<seq<Doc>>, embedBatch: seq<string> -> seq<Vector>, i: int)
    requires 0 <= i < |bs|
    ensures Upserts(bs, embedBatch)[i] == Embedded(bs[i], embedBatch)
    decreases |bs|
  {
    if i < |bs| - 1 {
      UpsertsAt(bs[..|bs| - 1], embedBatch, i);
    }
  }

  // ---------------------------------------------------------------------
  // The batching loop of `handler`
  // ---------------------------------------------------------------------

  /**
   * The `for doc in docs_iter` loop: append, and flush (embed, upsert, count)
   * once the batch reaches BATCH. Returns the upserted batches, the batch
   * still pending when the stream ends, and the running `ingested` count.
   */
  method FillBatches(docs: seq<Doc>, size: int, embedBatch: seq<string> -> seq<Vector>)
    returns (upserts: seq<seq<Doc>>, batch: seq<Doc>, ingested: nat)
    ensures ingested <= |docs| && batch == docs[ingested..] && |batch| < Capacity(size)
    ensures upserts == Upserts(FullBatches(docs, Capacity(size)), embedBatch)
    ensures Batches(docs, Capacity(size)) == FullBatches(docs, Capacity(size)) + (if batch == [] then [] else [batch])
  {
    var cap := Capacity(size);
    upserts := [];
    batch := [];
    ingested := 0;
    ghost var sent: seq<seq<Doc>> := [];
    for k := 0 to |docs|
      invariant ingested <= k && batch == docs[ingested..k] && |batch| < cap
      invariant Flatten(sent) == docs[..ingested]
      invariant forall i :: 0 <= i < |sent| ==> |sent[i]| == cap
      invariant upserts == Upserts(sent, embedBatch)
    {
      batch := batch + [docs[k]];
      if |batch| >= size {
        var vecs := embedBatch(Texts(batch));
        var out := AttachVectors(batch, vecs);
        FlushStep(docs, ingested, k + 1, sent, batch, embedBatch);
        sent := sent + [batch];
        upserts := upserts + [out];
        ingested := ingested + |batch|;
        batch := [];
      }
    }
    FullBatchesSplit(docs, sent, ingested, cap);
  }

  /**
   * The batches the loop flushes as soon as they fill up: all of Batches but
   * a last one that is short.
   */
  function FullBatches<T>(xs: seq<T>, cap: nat): seq<seq<T>>
    requires 0 < cap
  {
    var bs := Batches(xs, cap);
    if bs != [] && |bs[|bs| - 1]| < cap then bs[..|bs| - 1] else bs
  }

  /** Full batches laying out xs[..m], with fewer than cap items after m, are the full batches of xs. */
  lemma FullBatchesSplit<T>(xs: seq<T>, sent: seq<seq<T>>, m: int, cap: nat)
    requires 0 < cap && 0 <= m <= |xs| && |xs| - m < cap
    requires Flatten(sent) == xs[..m] && forall i :: 0 <= i < |sent| ==> |sent[i]| == cap
    ensures sent == FullBatches(xs, cap)
    ensures Batches(xs, cap) == sent + (if m == |xs| then [] else [xs[m..]])
  {
    var rest := xs[m..];
    if m == |xs| {
      assert xs[..m] == xs;
      BatchesUnique(sent, xs, cap);
    } else {
      FlattenSnoc(sent, rest);
      assert xs == xs[..m] + rest;
      assert (sent + [rest])[..|sent|] == sent;
      BatchesUnique(sent + [rest], xs, cap);
    }
  }

  /** Flushing the pending batch docs[m..k] keeps the loop's account of what was sent. */
  lemma FlushStep(docs: seq<Doc>, m: int, k: int, sent: seq<seq<Doc>>, batch: seq<Doc>, embedBatch: seq<string> -> seq<Vector>)
    requires 0 <= m <= k <= |docs| && batch == docs[m..k]
    requires Flatten(sent) == docs[..m]
    ensures Flatten(sent + [batch]) == docs[..k]
    ensures Upserts(sent + [batch], embedBatch) == Upserts(sent, embedBatch) + [Embedded(batch, embedBatch)]
  {
    FlattenSnoc(sent, batch);
    assert docs[..k] == docs[..m] + batch;
    assert (sent + [batch])[..|sent|] == sent;
  }

  /**
   * The whole loop of `handler` plus the final `if batch:` flush: every
   * document is upserted once, in batches of BATCH but for a shorter last
   * one, and `ingested` counts them all.
   */
  method EmbedInBatches(docs: seq<Doc>, size: int, embedBatch: seq<string> -> seq<Vector>)
    returns (upserts: seq<seq<Doc>>, ingested: nat)
    ensures upserts == Upserts(Batches(docs, Capacity(size)), embedBatch)
    ensures ingested == |docs|
  {
    var batch;
    upserts, batch, ingested := FillBatches(docs, size, embedBatch);
    if batch != [] {
      var vecs := embedBatch(Texts(batch));
      var out := AttachVectors(batch, vecs);
      ghost var full := FullBatches(docs, Capacity(size));
      assert (full + [batch])[..|full|] == full;
      upserts := upserts + [out];
      ingested := ingested + |batch|;
    }
  }

  /**
   * What the batching loop promises: the upserted documents are the input
   * documents, in order, each carrying the vector of its batch position; every
   * batch but the last has exactly BATCH documents and the last 1 to BATCH.
   */
  lemma UpsertsCoverDocs(docs: seq<Doc>, size: int, embedBatch: seq<string> -> seq<Vector>, j: int)
    requires 0 <= j < |Batches(docs, Capacity(size))|
    ensures var bs := Batches(docs, Capacity(size)); var us := Upserts(bs, embedBatch);
      && Flatten(bs) == docs
      && (j < |bs| - 1 ==> |us[j]| == Capacity(size))
      && 1 <= |us[j]| <= Capacity(size)
      && us[j] == Zip(bs[j], embedBatch(Texts(bs[j])))
  {
    var bs := Batches(docs, Capacity(size));
    BatchesSpec(docs, Capacity(size));
    UpsertsAt(bs, embedBatch, j);
    if j < |bs| - 1 {
      assert |bs[j]| == Capacity(size);
    }
  }
}
