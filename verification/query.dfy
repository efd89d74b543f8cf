/**
 * Retrieval from src/rag/test_query.py: the OpenSearch host taken from the
 * endpoint, the k-NN query `search` sends, with its optional metadata
 * filters, and the mapping of the hits it returns.
 *
 * The query embedding (Bedrock) and the search call (OpenSearch) are
 * function parameters; the request bodies are datatypes whose shape is
 * the JSON the code builds.
 */
module Query {
  import opened Wrappers
  import opened Text
  import S = Schema

  // ---------------------------------------------------------------------
  // Host normalisation
  // ---------------------------------------------------------------------

  /** OS_ENDPOINT.replace("https://", "").split("/")[0] */
  function Host(endpoint: string): (host: string)
    ensures '/' !in host && |host| <= |endpoint|
  {
    BeforeFirst(RemoveAll(endpoint, "https://"), '/')
  }

  /** An endpoint that is already a bare host is kept as it is. */
  lemma HostOfBareHost(endpoint: string)
    requires '/' !in endpoint
    ensures Host(endpoint) == endpoint
  {
    RemoveAllAbsent(endpoint, "https://", '/');
  }

  /** "https://" + host + path, with the path empty or starting at "/", gives back the host. */
  lemma HostOfUrl(host: string, path: string)
    requires '/' !in host && ':' !in host
    requires path == [] || path[0] == '/'
    ensures Host("https://" + host + path) == host
  {
    var s := "https://" + host + path;
    assert s[..8] == "https://" && s[8..] == host + path;
    RemoveAllKeepsHead(host, path, "https://", 5);
    if path != [] {
      RemoveAllSlashHead(path, "https://");
      BeforeFirstOf(host, '/', RemoveAll(path, "https://")[1..]);
      assert host + RemoveAll(path, "https://") == host + ['/'] + RemoveAll(path, "https://")[1..];
    } else {
      assert host + RemoveAll(path, "https://") == host;
    }
  }

  // ---------------------------------------------------------------------
  // The query
  // ---------------------------------------------------------------------

  /** A filter value: a JSON scalar, or a list of them. */
  datatype Scalar = Text(s: string) | Number(x: real) | Flag(b: bool) | Null
  datatype FilterValue = One(v: Scalar) | Many(vs: seq<Scalar>)

  /** {"term": {field: value}} or {"terms": {field: [values]}} */
  datatype Clause = Term(field: string, value: Scalar) | Terms(field: string, values: seq<Scalar>)

  /** {"knn": {"vector": {"vector": vec, "k": k}}} */
  datatype Knn = Knn(vector: seq<real>, k: int)

  /** {"size": k, "query": knn} or {"size": k, "query": {"bool": {"filter": [...], "must": [knn]}}} */
  datatype SearchBody = KnnQuery(size: int, knn: Knn) | BoolQuery(size: int, filter: seq<Clause>, must: seq<Knn>)

  /** The clause for one filter entry: "terms" for a list value, "term" otherwise. */
  function ClauseOf(field: string, value: FilterValue): Clause {
    match value
    case Many(vs) => Terms(field, vs)
    case One(v) => Term(field, v)
  }

  /** The clauses of the filter entries, in the dict's order. */
  function Clauses(filters: seq<(string, FilterValue)>): (cs: seq<Clause>)
    ensures |cs| == |filters|
  {
    if filters == [] then []
    else Clauses(filters[..|filters| - 1]) + [ClauseOf(filters[|filters| - 1].0, filters[|filters| - 1].1)]
  }

  /** The append loop over filters.items(). */
  method FilterClauses(filters: seq<(string, FilterValue)>) returns (clauses: seq<Clause>)
    ensures clauses == Clauses(filters)
  {
    clauses := [];
    for i := 0 to |filters|
      invariant clauses == Clauses(filters[..i])
    {
      assert filters[..i + 1][..i] == filters[..i];
      var (field, value) := filters[i];
      if value.Many? {
        clauses := clauses + [Terms(field, value.vs)];
      } else {
        clauses := clauses + [Term(field, value.v)];
      }
    }
    assert filters[..|filters|] == filters;
  }

  /** Clause i filters on entry i's field: "terms" exactly when its value is a list, with the same values. */
  lemma {:induction false} ClausesAt(filters: seq<(string, FilterValue)>, i: int)
    requires 0 <= i < |filters|
    ensures Clauses(filters)[i].field == filters[i].0
    ensures Clauses(filters)[i].Terms? <==> filters[i].1.Many?
    ensures Clauses(filters)[i].Terms? ==> Clauses(filters)[i].values == filters[i].1.vs
    ensures Clauses(filters)[i].Term? ==> Clauses(filters)[i].value == filters[i].1.v
    decreases |filters|
  {
    if i < |filters| - 1 {
      ClausesAt(filters[..|filters| - 1], i);
    }
  }

  /** The body `search` sends: the bare k-NN query, or, for a non-empty filter dict, the bool query around it. */
  function Body(vec: seq<real>, k: int, filters: Option<seq<(string, FilterValue)>>): (b: SearchBody)
    ensures b.size == k
  {
    var knn := Knn(vec, k);
    if filters.None? || filters.value == [] then KnnQuery(k, knn)
    else BoolQuery(k, Clauses(filters.value), [knn])
  }

  /**
   * Both shapes ask for k results with the same k-NN clause; filters add one
   * clause per entry, and an empty dict counts as no filters.
   */
  lemma BodyShape(vec: seq<real>, k: int, filters: Option<seq<(string, FilterValue)>>)
    ensures Body(vec, k, filters).size == k
    ensures Body(vec, k, filters).KnnQuery? <==> filters.None? || filters.value == []
    ensures Body(vec, k, filters).KnnQuery? ==> Body(vec, k, filters).knn == Knn(vec, k)
    ensures Body(vec, k, filters).BoolQuery? ==>
      Body(vec, k, filters).must == [Knn(vec, k)] && |Body(vec, k, filters).filter| == |filters.value|
    ensures Body(vec, k, filters) == Body(vec, k, Some([]))
      <==> filters.None? || filters.value == []
  {
  }

  // ---------------------------------------------------------------------
  // The results
  // ---------------------------------------------------------------------

  /** A hit: its `_score` and its `_source` dict. */
  datatype Hit<X> = Hit(score: real, source: seq<(string, X)>)

  /** A result entry: the hit's score, or a value copied from `_source`. */
  datatype Cell<X> = Score(x: real) | Stored(v: X)

  /** The dict {"score": ..., **src}: each source entry is set in turn, later ones overwriting. */
  function Spread<X>(d: seq<(string, Cell<X>)>, src: seq<(string, X)>): (r: seq<(string, Cell<X>)>)
    ensures d != [] ==> r != [] && r[0].0 == d[0].0
  {
    if src == [] then d
    else
      var e := src[|src| - 1];
      var r := Spread(d, src[..|src| - 1]);
      FirstKeyKept(r, e.0, Stored(e.1));
      S.DictSet(r, e.0, Stored(e.1))
  }

  lemma FirstKeyKept<V>(d: seq<(string, V)>, key: string, v: V)
    ensures d != [] ==> S.DictSet(d, key, v) != [] && S.DictSet(d, key, v)[0].0 == d[0].0
  {
  }

  function ResultOf<X>(h: Hit<X>): seq<(string, Cell<X>)> {
    Spread([("score", Score(h.score))], h.source)
  }

  /** [{"score": h["_score"], **h["_source"]} for h in hits] */
  function Results<X>(hits: seq<Hit<X>>): seq<seq<(string, Cell<X>)>> {
    seq(|hits|, i requires 0 <= i < |hits| => ResultOf(hits[i]))
  }

  /**
   * A result keeps "score" as its first key; every `_source` key maps to its
   * source value (a source "score" overriding the hit's score), and "score"
   * otherwise maps to `_score`.
   */
  lemma {:induction false} ResultLookup<X>(h: Hit<X>, key: string)
    requires S.DistinctKeys(h.source)
    ensures ResultOf(h)[0].0 == "score"
    ensures S.Lookup(ResultOf(h), key) ==
      if S.Lookup(h.source, key).Some? then Some(Stored(S.Lookup(h.source, key).value))
      else if key == "score" then Some(Score(h.score))
      else None
  {
    SpreadLookup([("score", Score(h.score))], h.source, key);
  }

  lemma {:induction false} SpreadLookup<X>(d: seq<(string, Cell<X>)>, src: seq<(string, X)>, key: string)
    requires S.DistinctKeys(src)
    ensures S.Lookup(Spread(d, src), key) ==
      if S.Lookup(src, key).Some? then Some(Stored(S.Lookup(src, key).value)) else S.Lookup(d, key)
    decreases |src|
  {
    if src != [] {
      var init := src[..|src| - 1];
      var e := src[|src| - 1];
      assert src == init + [e];
      assert S.DistinctKeys(init);
      SpreadLookup(d, init, key);
      S.DictSetLookup(Spread(d, init), e.0, Stored(e.1), key);
      if key == e.0 {
        S.LookupAt(src, |src| - 1);
      } else {
        S.LookupAppendOther(init, key, e);
      }
    }
  }

  /** `search`: embed the question, send the body, map the hits in order. */
  method Search<X>(q: string, k: int, filters: Option<seq<(string, FilterValue)>>, efSearch: int, index: string,
                   embed: string -> seq<real>, search: (string, SearchBody, int) -> seq<Hit<X>>)
    returns (results: seq<seq<(string, Cell<X>)>>)
    ensures results == Results(search(index, Body(embed(q), k, filters), efSearch))
  {
    var vec := embed(q);
    var body := KnnQuery(k, Knn(vec, k));
    if filters.Some? && filters.value != [] {
      var clauses := FilterClauses(filters.value);
      body := BoolQuery(k, clauses, [body.knn]);
    }
    var hits := search(index, body, efSearch);
    results := seq(|hits|, i requires 0 <= i < |hits| => ResultOf(hits[i]));
  }

  /** Results keep the hits' order: result i comes from hit i and starts with its score key. */
  lemma ResultsInOrder<X>(hits: seq<Hit<X>>, i: int)
    requires 0 <= i < |hits| && S.DistinctKeys(hits[i].source) && S.Lookup(hits[i].source, "score").None?
    ensures |Results(hits)| == |hits|
    ensures S.Lookup(Results(hits)[i], "score") == Some(Score(hits[i].score))
  {
    ResultLookup(hits[i], "score");
  }
}
