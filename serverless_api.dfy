/** api/index.py: the serverless search handler. It loads the FAISS index and metadata
    lazily on first use, keeps FAISS's top 10 (no clamp to the index size, no rank), and
    answers every failure inside the search with an empty list. */
module ServerlessApi {
  import opened Wrappers
  import opened PyText
  import opened Utils
  import opened Faiss
  import opened Collecting

  /** `search_similar_images`' default `top_k`. */
  const DefaultTopK := 10
  const TextNotImplemented := "Text search not implemented yet"
  const InvalidRequestFormat := "Invalid request format"

  datatype ApiRecord = ApiRecord(index: int, filename: string, similarity: real, distance: real)

  /** What `load_index` would obtain: the FAISS index (None when the download or
      `read_index` raises) and then the metadata list (None when its download raises). */
  datatype Download = Download(index: Option<FaissIndex>, metadata: Option<seq<MetaItem>>)

  predicate LoadSucceeds(download: Download) {
    download.index.Some? && download.metadata.Some?
  }

  /** `metadata[idx].get('filename', f'image_{idx}.jpg')` */
  function ApiFilename(name: Option<string>, idx: int): (filename: string)
    ensures name.Some? ==> filename == name.value
    ensures name.None? ==>
      && |filename| > 10
      && filename[..6] == "image_"
      && filename[|filename| - 4..] == ".jpg"
      && ParseInt(filename[6..|filename| - 4]) == Some(idx)
  {
    var digits := IntToString(idx);
    IntToStringRoundTrip(idx);
    var fallback := "image_" + digits + ".jpg";
    assert fallback[6..|fallback| - 4] == digits;
    name.GetOr(fallback)
  }

  /** What the loop does with one FAISS pair: a string entry has no `.get` and raises
      AttributeError, an id below `-len(metadata)` raises IndexError. */
  function ApiEntry(metadata: seq<MetaItem>, distance: real, idx: int): Step<ApiRecord> {
    if idx < |metadata| then
      match PyIndex(metadata, idx)
      case None => Raise
      case Some(item) =>
        if item.Str? then Raise
        else Keep(ApiRecord(idx, ApiFilename(item.filename, idx), 1.0 - distance, distance))
    else Drop
  }

  function ApiSteps(metadata: seq<MetaItem>, rows: Neighbours): seq<Step<ApiRecord>> {
    seq(PairCount(rows), pos requires 0 <= pos < PairCount(rows) =>
      ApiEntry(metadata, rows.distances[pos], rows.ids[pos]))
  }

  /** The request's "embedding" value as `np.array([query_embedding], dtype=np.float32)`
      sees it: a list of numbers is a row of floats (a null inside it becomes NaN); any
      other value, such as null, a single number, an object, a non-numeric string or a
      ragged list, raises either in `np.array` or when FAISS's wrapper unpacks a query that
      is not one row of columns. */
  datatype Query = Vector(values: seq<Float>) | Unconvertible

  /** The search result for loaded globals: the formatted records, or [] when `np.array`,
      FAISS or the formatting loop raises. */
  function ApiSearch(index: FaissIndex, metadata: seq<MetaItem>, query: Query, topK: int): (records: seq<ApiRecord>)
    ensures query.Unconvertible? ==> records == []
  {
    match query
    case Unconvertible => []
    case Vector(values) =>
      match index.search(values, topK)
      case Err(_) => []
      case Ok(rows) => Collect(ApiSteps(metadata, rows)).GetOr([])
  }

  /** A record describes the FAISS pair at `pos`: its id passes `idx < len(metadata)` and
      selects a dict entry, and the record carries the id, that entry's filename (or the
      `image_{idx}.jpg` default), the distance and the similarity `1 - distance`. */
  predicate DescribesApiPair(metadata: seq<MetaItem>, rows: Neighbours, pos: nat, r: ApiRecord) {
    && pos < PairCount(rows)
    && r.index == rows.ids[pos]
    && r.index < |metadata|
    && PyIndex(metadata, r.index).Some?
    && PyIndex(metadata, r.index).value.Dict?
    && r.filename == ApiFilename(PyIndex(metadata, r.index).value.filename, r.index)
    && r.distance == rows.distances[pos]
    && r.similarity == 1.0 - rows.distances[pos]
  }

  /** The formatting loop raises exactly when an id that passes the filter either lies below
      `-len(metadata)` or selects a string entry. */
  lemma ApiFormattingRaises(metadata: seq<MetaItem>, rows: Neighbours)
    ensures Collect(ApiSteps(metadata, rows)).None? <==>
      exists pos :: 0 <= pos < PairCount(rows) && rows.ids[pos] < |metadata| &&
        (PyIndex(metadata, rows.ids[pos]).None? || PyIndex(metadata, rows.ids[pos]).value.Str?)
  {
    var steps := ApiSteps(metadata, rows);
    CollectRaises(steps);
    assert forall pos :: 0 <= pos < |steps| ==> (steps[pos].Raise? <==>
      rows.ids[pos] < |metadata| &&
      (PyIndex(metadata, rows.ids[pos]).None? || PyIndex(metadata, rows.ids[pos]).value.Str?));
  }

  /** The records are those of the pairs whose id passes `idx < len(metadata)`, in FAISS
      order (the positions `Kept` lists ascend), one per such pair and none for the rest. */
  lemma {:induction false} ApiFormattedResults(metadata: seq<MetaItem>, rows: Neighbours, results: seq<ApiRecord>)
    requires Collect(ApiSteps(metadata, rows)) == Some(results)
    ensures |results| == |Kept(ApiSteps(metadata, rows))| <= PairCount(rows)
    ensures forall j :: 0 <= j < |results| ==>
      DescribesApiPair(metadata, rows, Kept(ApiSteps(metadata, rows))[j], results[j])
    ensures forall j, j' :: 0 <= j < j' < |results| ==>
      Kept(ApiSteps(metadata, rows))[j] < Kept(ApiSteps(metadata, rows))[j']
    ensures forall pos :: 0 <= pos < PairCount(rows) ==>
      (rows.ids[pos] < |metadata| <==> pos in Kept(ApiSteps(metadata, rows)))
  {
    var steps := ApiSteps(metadata, rows);
    CollectKept(steps, results);
    KeptExactly(steps);
    CollectRaises(steps);
    var kept := Kept(steps);
    forall j | 0 <= j < |results|
      ensures DescribesApiPair(metadata, rows, kept[j], results[j])
    {
      assert steps[kept[j]] == Keep(results[j]);
    }
    forall pos | 0 <= pos < PairCount(rows)
      ensures rows.ids[pos] < |metadata| <==> pos in kept
    {
      assert !steps[pos].Raise?;
    }
  }

  /** With `top_k` not clamped, FAISS pads with id -1, which passes `-1 < len(metadata)` and
      reads the last metadata entry; when that entry is a dict, a record with index -1 and
      that entry's filename is returned. */
  lemma PaddingIdSelectsLastEntry(metadata: seq<MetaItem>, rows: Neighbours, results: seq<ApiRecord>, pos: nat)
    requires Collect(ApiSteps(metadata, rows)) == Some(results)
    requires pos < PairCount(rows) && rows.ids[pos] == -1 && |metadata| > 0
    ensures metadata[|metadata| - 1].Dict?
    ensures exists j :: (0 <= j < |results| && results[j].index == -1 &&
      results[j].filename == ApiFilename(metadata[|metadata| - 1].filename, -1))
  {
    ApiFormattedResults(metadata, rows, results);
    var kept := Kept(ApiSteps(metadata, rows));
    assert pos in kept;
    var j :| 0 <= j < |kept| && kept[j] == pos;
    assert DescribesApiPair(metadata, rows, pos, results[j]);
  }

  /** A search that returns records returns at most `top_k` of them. */
  lemma ApiSearchBound(index: FaissIndex, metadata: seq<MetaItem>, query: Query, topK: int)
    requires WellShaped(index)
    ensures |ApiSearch(index, metadata, query, topK)| <= if topK > 0 then topK else 0
  {
    if query.Vector? && index.search(query.values, topK).Ok? {
      var found := index.search(query.values, topK);
      var steps := ApiSteps(metadata, found.value);
      if Collect(steps).Some? {
        ApiFormattedResults(metadata, found.value, Collect(steps).value);
      }
    }
  }

  /** The JSON object `do_POST` parsed: its "embedding" value, if the key is present
      (whatever it holds), and whether a "text" key is present. */
  datatype Payload = Payload(embedding: Option<Query>, hasText: bool)

  /** The response `do_POST` writes: the HTTP status and the JSON keys it sends. */
  datatype PostResponse = PostResponse(
    status: int,
    success: bool,
    results: Option<seq<ApiRecord>>,
    totalResults: Option<int>,
    message: Option<string>,
    error: Option<string>)

  /** The module's global `index` and `metadata`, both None when the module is imported. */
  class Backend {
    var index: Option<FaissIndex>
    var metadata: Option<seq<MetaItem>>

    constructor ()
      ensures Valid()
      ensures index.None? && metadata.None?
    {
      index := None;
      metadata := None;
    }

    ghost predicate Valid()
      reads this
    {
      index.Some? ==> WellShaped(index.value)
    }

    /** `index is None or metadata is None` is false (an empty list counts as loaded). */
    predicate Loaded()
      reads this
    {
      index.Some? && metadata.Some?
    }

    /** `load_index`: the index is assigned as soon as it is read, even if the metadata
        download then fails. */
    method LoadIndex(download: Download) returns (ok: bool)
      requires Valid()
      requires download.index.Some? ==> WellShaped(download.index.value)
      modifies this
      ensures Valid()
      ensures ok <==> LoadSucceeds(download)
      ensures index == if download.index.Some? then download.index else old(index)
      ensures metadata == if ok then download.metadata else old(metadata)
    {
      if download.index.None? {
        return false;
      }
      index := download.index;
      if download.metadata.None? {
        return false;
      }
      metadata := download.metadata;
      return true;
    }

    /** `search_similar_images(query_embedding, top_k=10)` */
    method SearchSimilarImages(queryEmbedding: Query, download: Download, topK: int := DefaultTopK)
      returns (results: seq<ApiRecord>)
      requires Valid()
      requires download.index.Some? ==> WellShaped(download.index.value)
      modifies this
      ensures Valid()
      ensures old(Loaded()) ==> index == old(index) && metadata == old(metadata)
      ensures !old(Loaded()) ==>
        index == (if download.index.Some? then download.index else old(index)) &&
        metadata == (if LoadSucceeds(download) then download.metadata else old(metadata))
      ensures !old(Loaded()) && !LoadSucceeds(download) ==> results == []
      ensures old(Loaded()) || LoadSucceeds(download) ==>
        Loaded() && results == ApiSearch(index.value, metadata.value, queryEmbedding, topK)
      ensures queryEmbedding.Unconvertible? ==> results == []
      ensures |results| <= if topK > 0 then topK else 0
    {
      if index.None? || metadata.None? {
        var ok := LoadIndex(download);
        if !ok {
          return [];
        }
      }
      if queryEmbedding.Unconvertible? {
        return [];
      }
      var found := index.value.search(queryEmbedding.values, topK);
      if found.Err? {
        return [];
      }
      var rows := found.value;
      var meta := metadata.value;
      ghost var steps := ApiSteps(meta, rows);
      var n := PairCount(rows);
      results := [];
      var i := 0;
      while i < n
        invariant 0 <= i <= n
        invariant Collect(steps[..i]) == Some(results)
        modifies {}
      {
        CollectExtend(steps, i);
        var distance, idx := rows.distances[i], rows.ids[i];
        if idx < |meta| {
          var item := PyIndex(meta, idx);
          if item.None? || item.value.Str? {
            RaisePersists(steps, i + 1);
            return [];
          }
          var filename := item.value.filename.GetOr("image_" + IntToString(idx) + ".jpg");
          results := results + [ApiRecord(idx, filename, 1.0 - distance, distance)];
        }
        i := i + 1;
      }
      assert steps[..n] == steps;
      ApiSearchBound(index.value, meta, queryEmbedding, topK);
    }

    /** `handler.do_POST`: `request` is the parsed JSON body, or the text of the exception
        reading or parsing it raised. */
    method DoPost(request: Result<Payload, string>, download: Download) returns (response: PostResponse)
      requires Valid()
      requires download.index.Some? ==> WellShaped(download.index.value)
      modifies this
      ensures Valid()
      ensures request.Err? ==>
        response == PostResponse(500, false, None, None, None, Some(request.error)) &&
        index == old(index) && metadata == old(metadata)
      ensures request.Ok? && request.value.embedding.Some? ==>
        && response.status == 200 && response.success
        && response.message.None? && response.error.None?
        && response.results.Some?
        && response.totalResults == Some(|response.results.value|)
        && (old(Loaded()) ==> index == old(index) && metadata == old(metadata))
        && (!old(Loaded()) ==>
              index == (if download.index.Some? then download.index else old(index)) &&
              metadata == (if LoadSucceeds(download) then download.metadata else old(metadata)))
        && (!old(Loaded()) && !LoadSucceeds(download) ==> response.results.value == [])
        && (old(Loaded()) || LoadSucceeds(download) ==>
              Loaded() && response.results.value ==
                ApiSearch(index.value, metadata.value, request.value.embedding.value, DefaultTopK))
        && (request.value.embedding.value.Unconvertible? ==>
              response.results == Some([]) && response.totalResults == Some(0))
      ensures request.Ok? && request.value.embedding.None? && request.value.hasText ==>
        response == PostResponse(200, true, Some([]), Some(0), Some(TextNotImplemented), None) &&
        index == old(index) && metadata == old(metadata)
      ensures request.Ok? && request.value.embedding.None? && !request.value.hasText ==>
        response == PostResponse(200, false, None, None, None, Some(InvalidRequestFormat)) &&
        index == old(index) && metadata == old(metadata)
    {
      if request.Err? {
        return PostResponse(500, false, None, None, None, Some(request.error));
      }
      var data := request.value;
      if data.embedding.Some? {
        var results := SearchSimilarImages(data.embedding.value, download);
        response := PostResponse(200, true, Some(results), Some(|results|), None, None);
      } else if data.hasText {
        response := PostResponse(200, true, Some([]), Some(0), Some(TextNotImplemented), None);
      } else {
        response := PostResponse(200, false, None, None, None, Some(InvalidRequestFormat));
      }
    }
  }
}
