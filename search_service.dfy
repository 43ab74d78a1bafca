/** search-service/main.py: the `/search` endpoint of the FastAPI service. It checks that
    the index is loaded and the embedding is valid, normalises the query, asks FAISS for
    `min(20, ntotal)` neighbours and turns them into ranked result records. */
module SearchService {
  import opened Wrappers
  import opened PyText
  import opened Utils
  import opened Faiss
  import opened Collecting

  /** The most results a search returns. */
  const MaxResults := 20
  const SampleImages := "/sample-images/"
  /** The text of Python's IndexError for a list index out of range. */
  const IndexOutOfRange := "list index out of range"

  /** The JSON body of a search request: its "embedding" field, if any. */
  datatype SearchBody = SearchBody(embedding: Option<seq<Float>>)

  datatype ResultRecord = ResultRecord(
    rank: int, index: int, filename: string, filepath: string, similarity: real, distance: real)

  datatype SearchReply = SearchReply(queryEmbeddingNorm: real, totalResults: int, results: seq<ResultRecord>)

  /** The endpoint's answer: a JSON reply, or the HTTPException it raises. */
  datatype HttpOutcome = Reply(reply: SearchReply) | HttpError(status: int, detail: string)

  function SearchFailed(message: string): HttpOutcome {
    HttpError(500, "Search failed: " + message)
  }

  /** `k = min(20, index.ntotal)` */
  function NeighbourCount(ntotal: nat): (k: nat)
    ensures k <= MaxResults && k <= ntotal
    ensures k == MaxResults || k == ntotal
  {
    if MaxResults <= ntotal then MaxResults else ntotal
  }

  // ---------------------------------------------------------------------------
  // Query normalisation

  function SquaredNorm(v: seq<real>): (s: real)
    ensures s >= 0.0
    decreases |v|
  {
    if v == [] then 0.0
    else
      assert v[0] * v[0] >= 0.0;
      v[0] * v[0] + SquaredNorm(v[1..])
  }

  function Scale(v: seq<real>, c: real): (w: seq<real>)
    ensures |w| == |v| && forall i :: 0 <= i < |v| ==> w[i] == c * v[i]
    decreases |v|
  {
    if v == [] then [] else [c * v[0]] + Scale(v[1..], c)
  }

  /** `query_embedding / query_norm`, applied only when the norm is positive. */
  function NormalizedQuery(v: seq<real>, norm: real): seq<real> {
    if norm > 0.0 then Scale(v, 1.0 / norm) else v
  }

  lemma {:induction false} ScaleSquaredNorm(v: seq<real>, c: real)
    ensures SquaredNorm(Scale(v, c)) == c * c * SquaredNorm(v)
    decreases |v|
  {
    if v != [] {
      ScaleSquaredNorm(v[1..], c);
      var w := Scale(v, c);
      assert w[1..] == Scale(v[1..], c);
      assert (c * v[0]) * (c * v[0]) == c * c * (v[0] * v[0]);
    }
  }

  lemma InverseSquare(norm: real)
    requires norm > 0.0
    ensures (1.0 / norm) * (1.0 / norm) * (norm * norm) == 1.0
  {
    var c := 1.0 / norm;
    assert c * norm == 1.0;
    assert c * c * (norm * norm) == (c * norm) * (c * norm);
  }

  /** Dividing by a positive L2 norm yields a unit vector; with a zero norm the query is
      passed on unchanged. */
  lemma NormalizedQueryIsUnit(v: seq<real>, norm: real)
    requires norm >= 0.0 && norm * norm == SquaredNorm(v)
    ensures norm > 0.0 ==> SquaredNorm(NormalizedQuery(v, norm)) == 1.0
    ensures norm == 0.0 ==> NormalizedQuery(v, norm) == v
  {
    if norm > 0.0 {
      var c := 1.0 / norm;
      calc {
        SquaredNorm(NormalizedQuery(v, norm));
        SquaredNorm(Scale(v, c));
        { ScaleSquaredNorm(v, c); }
        c * c * SquaredNorm(v);
        c * c * (norm * norm);
        { InverseSquare(norm); }
        1.0;
      }
    }
  }

  /** `np.linalg.norm` is supplied by the caller: for a valid embedding it is the L2 norm
      of the query. */
  predicate IsQueryNorm(body: SearchBody, norm: real) {
    body.embedding.Some? && ValidateEmbedding(body.embedding.value) ==>
      norm >= 0.0 && norm * norm == SquaredNorm(Values(body.embedding.value))
  }

  // ---------------------------------------------------------------------------
  // Result formatting

  /** The filename of a metadata entry: the dict's "filename", else `str(idx)`; a non-dict
      entry is turned into a string. */
  function FilenameOf(item: MetaItem, idx: int): (filename: string)
    ensures item.Dict? && item.filename.Some? ==> filename == item.filename.value
    ensures item.Dict? && item.filename.None? ==> ParseInt(filename) == Some(idx)
    ensures item.Str? ==> filename == item.text
  {
    IntToStringRoundTrip(idx);
    match item
    case Dict(name) => name.GetOr(IntToString(idx))
    case Str(text) => text
  }

  /** What the loop does with the FAISS pair at position `pos`. */
  function Entry(metadata: seq<MetaItem>, pos: nat, distance: real, idx: int): Step<ResultRecord> {
    if idx < |metadata| then
      match PyIndex(metadata, idx)
      case None => Raise
      case Some(item) =>
        var filename := FilenameOf(item, idx);
        Keep(ResultRecord(pos + 1, idx, filename, SampleImages + filename, 1.0 - distance, distance))
    else Drop
  }

  function Steps(metadata: seq<MetaItem>, rows: Neighbours): seq<Step<ResultRecord>> {
    seq(PairCount(rows), pos requires 0 <= pos < PairCount(rows) =>
      Entry(metadata, pos, rows.distances[pos], rows.ids[pos]))
  }

  /** The formatting loop raises IndexError exactly when some id lies below `-len(metadata)`;
      negative ids down to that bound pass the filter. */
  lemma FormattingRaises(metadata: seq<MetaItem>, rows: Neighbours)
    ensures Collect(Steps(metadata, rows)).None? <==>
      exists pos :: 0 <= pos < PairCount(rows) && rows.ids[pos] < -|metadata|
  {
    var steps := Steps(metadata, rows);
    CollectRaises(steps);
    assert forall pos :: 0 <= pos < |steps| ==> (steps[pos].Raise? <==> rows.ids[pos] < -|metadata|);
  }

  /** A result record describes the FAISS pair at position `rank - 1`: that pair's id passes
      `idx < len(metadata)`, the record carries the id, the filename of the metadata entry
      Python's indexing selects, the file path under /sample-images/, the distance, and the
      similarity `1 - distance`. */
  predicate DescribesPair(metadata: seq<MetaItem>, rows: Neighbours, r: ResultRecord) {
    var pos := r.rank - 1;
    && 0 <= pos < PairCount(rows)
    && r.index == rows.ids[pos]
    && r.index < |metadata|
    && PyIndex(metadata, r.index).Some?
    && r.filename == FilenameOf(PyIndex(metadata, r.index).value, r.index)
    && r.filepath == SampleImages + r.filename
    && r.distance == rows.distances[pos]
    && r.similarity == 1.0 - rows.distances[pos]
  }

  lemma KeptEntry(metadata: seq<MetaItem>, rows: Neighbours, pos: nat, r: ResultRecord)
    requires pos < PairCount(rows)
    requires Entry(metadata, pos, rows.distances[pos], rows.ids[pos]) == Keep(r)
    ensures r.rank == pos + 1 && DescribesPair(metadata, rows, r)
  {
  }

  /** The records the loop builds: one per FAISS pair whose id passes `idx < len(metadata)`,
      in FAISS order, ranked by FAISS position plus one, and none for any other pair. */
  lemma {:induction false} FormattedResults(metadata: seq<MetaItem>, rows: Neighbours, results: seq<ResultRecord>)
    requires Collect(Steps(metadata, rows)) == Some(results)
    ensures |results| <= PairCount(rows)
    ensures forall j :: 0 <= j < |results| ==> DescribesPair(metadata, rows, results[j])
    ensures forall j, j' :: 0 <= j < j' < |results| ==> results[j].rank < results[j'].rank
    ensures forall pos :: 0 <= pos < PairCount(rows) && rows.ids[pos] < |metadata| ==>
      exists j :: 0 <= j < |results| && results[j].rank == pos + 1
  {
    var steps := Steps(metadata, rows);
    CollectKept(steps, results);
    KeptExactly(steps);
    CollectRaises(steps);
    var kept := Kept(steps);
    forall j | 0 <= j < |results|
      ensures results[j].rank == kept[j] + 1 && DescribesPair(metadata, rows, results[j])
    {
      KeptEntry(metadata, rows, kept[j], results[j]);
    }
    forall pos | 0 <= pos < PairCount(rows) && rows.ids[pos] < |metadata|
      ensures exists j :: 0 <= j < |results| && results[j].rank == pos + 1
    {
      assert !steps[pos].Raise?;
      assert pos in kept;
      var j :| 0 <= j < |kept| && kept[j] == pos;
      assert results[j].rank == pos + 1;
    }
  }

  /** FAISS's padding id -1 is not filtered out: it selects the last metadata entry. */
  lemma PaddingIdSelectsLastEntry(metadata: seq<MetaItem>, rows: Neighbours, results: seq<ResultRecord>, pos: nat)
    requires Collect(Steps(metadata, rows)) == Some(results)
    requires pos < PairCount(rows) && rows.ids[pos] == -1 && |metadata| > 0
    ensures exists j :: (0 <= j < |results| && results[j].rank == pos + 1 && results[j].index == -1 &&
      results[j].filename == FilenameOf(metadata[|metadata| - 1], -1))
  {
    var steps := Steps(metadata, rows);
    CollectKept(steps, results);
    KeptExactly(steps);
    var last := metadata[|metadata| - 1];
    assert PyIndex(metadata, -1) == Some(last);
    assert steps[pos] == Keep(ResultRecord(pos + 1, -1, FilenameOf(last, -1),
      SampleImages + FilenameOf(last, -1), 1.0 - rows.distances[pos], rows.distances[pos]));
    var kept := Kept(steps);
    var j :| 0 <= j < |kept| && kept[j] == pos;
    assert steps[kept[j]] == Keep(results[j]);
  }

  /** What the endpoint answers once FAISS has been called. */
  function Respond(metadata: seq<MetaItem>, queryNorm: real, found: Result<Neighbours, string>): HttpOutcome {
    match found
    case Err(message) => SearchFailed(message)
    case Ok(rows) =>
      match Collect(Steps(metadata, rows))
      case None => SearchFailed(IndexOutOfRange)
      case Some(results) => Reply(SearchReply(queryNorm, |results|, results))
  }

  /** The service's process-wide handles, set at startup by `load_index`. */
  class Service {
    var index: Option<FaissIndex>
    var metadata: Option<seq<MetaItem>>

    constructor (index: Option<FaissIndex>, metadata: Option<seq<MetaItem>>)
      requires index.Some? ==> WellShaped(index.value)
      ensures Valid()
      ensures this.index == index && this.metadata == metadata
    {
      this.index := index;
      this.metadata := metadata;
    }

    ghost predicate Valid()
      reads this
    {
      index.Some? ==> WellShaped(index.value)
    }

    /** `not index or not metadata` is false: an index is present and the metadata list is
        present and non-empty. */
    predicate Ready()
      reads this
    {
      index.Some? && metadata.Some? && |metadata.value| > 0
    }

    /** `search_similar_images` */
    method SearchSimilarImages(body: SearchBody, queryNorm: real) returns (outcome: HttpOutcome)
      requires Valid()
      requires IsQueryNorm(body, queryNorm)
      ensures !Ready() ==> outcome == HttpError(503, "Index not loaded")
      ensures Ready() && (body.embedding.None? || body.embedding.value == []) ==>
        outcome == HttpError(400, "Embedding is required")
      ensures Ready() && body.embedding.Some? && body.embedding.value != [] && !ValidateEmbedding(body.embedding.value) ==>
        outcome == HttpError(400, "Invalid embedding")
      ensures Ready() && body.embedding.Some? && ValidateEmbedding(body.embedding.value) ==>
        outcome == Respond(metadata.value, queryNorm,
          index.value.search(ToFloats(NormalizedQuery(Values(body.embedding.value), queryNorm)),
                             NeighbourCount(index.value.ntotal)))
      ensures outcome.Reply? ==>
        && Ready()
        && outcome.reply.totalResults == |outcome.reply.results|
        && |outcome.reply.results| <= NeighbourCount(index.value.ntotal)
    {
      if index.None? || metadata.None? || |metadata.value| == 0 {
        return HttpError(503, "Index not loaded");
      }
      var embedding := body.embedding;
      if embedding.None? || |embedding.value| == 0 {
        return HttpError(400, "Embedding is required");
      }
      if !ValidateEmbedding(embedding.value) {
        return HttpError(400, "Invalid embedding");
      }
      var query := Values(embedding.value);
      if queryNorm > 0.0 {
        query := Scale(query, 1.0 / queryNorm);
      }
      var k := NeighbourCount(index.value.ntotal);
      var found := index.value.search(ToFloats(query), k);
      if found.Err? {
        return SearchFailed(found.error);
      }
      var rows := found.value;
      var meta := metadata.value;
      ghost var steps := Steps(meta, rows);
      var n := PairCount(rows);
      var results: seq<ResultRecord> := [];
      var i := 0;
      while i < n
        invariant 0 <= i <= n
        invariant Collect(steps[..i]) == Some(results)
      {
        CollectExtend(steps, i);
        var distance, idx := rows.distances[i], rows.ids[i];
        if idx < |meta| {
          var item := PyIndex(meta, idx);
          if item.None? {
            RaisePersists(steps, i + 1);
            return SearchFailed(IndexOutOfRange);
          }
          var filename;
          match item.value {
            case Dict(name) =>
              filename := if name.Some? then name.value else IntToString(idx);
            case Str(text) =>
              filename := text;
          }
          results := results + [ResultRecord(i + 1, idx, filename, SampleImages + filename, 1.0 - distance, distance)];
        }
        i := i + 1;
      }
      assert steps[..n] == steps;
      FormattedResults(meta, rows, results);
      return Reply(SearchReply(queryNorm, |results|, results));
    }
  }
}
