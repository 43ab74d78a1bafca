# Image similarity search: result shaping around FAISS

This project models the logic of the image-similarity-app repository that sits around its
FAISS nearest-neighbour call. There are two search services:

- **search-service/main.py**, the FastAPI `/search` endpoint. It refuses a request when the
  index or the metadata list is not loaded (503). It refuses a missing or empty embedding and
  one that fails `validate_embedding` (400). It then normalises the query when its L2 norm is
  positive and asks FAISS for `min(20, ntotal)` neighbours. Each FAISS pair whose id passes
  `idx < len(metadata)` becomes a ranked record: rank = FAISS position + 1, the index, a
  filename and a file path under `/sample-images/`, `similarity = 1 - distance`, and the
  distance.
- **api/index.py**, the serverless handler. It loads the index and metadata lazily on first
  use. It asks FAISS for `top_k = 10` neighbours, with no clamp to the index size. It keeps
  the same filter but emits no rank and uses a different default filename. Any failure inside
  the search gives an empty list. `do_POST` picks its response by which request key is
  present, and `embedding` takes precedence over `text`.
- **search-service/utils.py** supplies `validate_embedding` and `decode_base64_image`; the
  model covers the latter's `data:` URL stripping and its failure-to-None behaviour.

The library calls are inputs to the model. FAISS's `index.search` is a function field of a
`FaissIndex` value, and it returns parallel distance and id rows or the text of the exception
it raised. `np.linalg.norm` is a parameter of the search method. The CDN download is a
`Download` value telling what `load_index` would obtain. `b64decode`, `Image.open` and
`convert('RGB')` make up an `ImageCodec`. Embedding elements are `Finite(real) | NaN | Inf`.
Metadata entries are `Dict(filename?) | Str(text)`.

Python's own semantics are written out where the code relies on them:
- `zip` stops at the shorter row.
- A negative list index counts from the end, and one below `-len` raises IndexError.
- `str(idx)` writes decimal digits.
- `s.split(',')[1]` raises IndexError when there is no comma.

FAISS pads with id -1 when fewer than k neighbours exist. `idx < len(metadata)` does not
exclude negative ids, so the padding id reads the last metadata entry. The model keeps this
behaviour, and the two `PaddingIdSelectsLastEntry` lemmas exhibit it. It is reachable in
api/index.py, where `top_k` is not clamped.

- Ranks are FAISS position + 1 and skip values where pairs are dropped.
- `main.py` returns at most 20 results; `api/index.py` asks for 10 without a clamp.
- Failures are HTTP 503/400/500 responses or empty lists.

Modules: `Wrappers` (Option, Result), `PyText` (Python string behaviour), `Utils`
(utils.py), `Faiss` (the index, its rows, the metadata entries, Python list indexing),
`Collecting` (the keep/drop/raise loop both services run over the FAISS pairs),
`SearchService` (main.py) and `ServerlessApi` (api/index.py).

## Model

| member | source | states |
|---|---|---|
| SearchService.Service.SearchSimilarImages | search-service/main.py:241-304 | 503 "Index not loaded" when the index is absent or the metadata is absent or empty, whatever the body; otherwise 400 "Embedding is required" for a missing or empty embedding; otherwise 400 "Invalid embedding" when validation fails; otherwise FAISS is queried with the normalised query and `min(20, ntotal)`, and the answer is the formatted results, or 500 "Search failed: ..." when FAISS or the loop raises; a reply's `total_results` equals the length of `results`, which is at most `min(20, ntotal)` |
| SearchService.NeighbourCount | search-service/main.py:268 | k is at most 20 and at most the index size, and equals one of them |
| SearchService.NormalizedQueryIsUnit | search-service/main.py:262-265 | dividing by a positive L2 norm gives a vector of squared norm 1; a zero norm leaves the query unchanged |
| SearchService.ScaleSquaredNorm | search-service/main.py:265 | scaling a vector by c scales its squared norm by c squared |
| SearchService.FilenameOf | search-service/main.py:277-281 | a dict entry with "filename" yields that value; a dict without it yields `str(idx)`, which reads back as the id; a non-dict entry yields its string |
| SearchService.FormattedResults | search-service/main.py:271-292 | when the loop completes, every record describes the FAISS pair at position rank-1 (its id passes `idx < len(metadata)`; `index` is the id; the filename comes from the entry Python's indexing selects; `filepath` is "/sample-images/" + filename; the distance and `similarity = 1 - distance` are that pair's); ranks strictly increase; every passing pair has a record; there are at most as many records as pairs |
| SearchService.FormattingRaises | search-service/main.py:273-304 | the loop raises IndexError exactly when some FAISS id lies below `-len(metadata)` |
| SearchService.PaddingIdSelectsLastEntry | search-service/main.py:274-275 | a FAISS id -1 yields a record with index -1 whose filename is taken from the last metadata entry |
| Utils.ValidateEmbedding | search-service/utils.py:129-146 | true exactly when the length equals `expected_dim` (default 512) and every element is finite; so false for a wrong length and false when any element is NaN or infinite |
| Utils.HasNaN | search-service/utils.py:143 | true exactly when some element is NaN |
| Utils.HasInf | search-service/utils.py:143 | true exactly when some element is infinite |
| Utils.StripDataUrl | search-service/utils.py:24-25 | input not starting with "data:" passes unchanged; a "data:" input without a comma fails (IndexError); otherwise the result is the text between the first comma and the next comma or the end |
| Utils.DecodeBase64Image | search-service/utils.py:12-41 | a `data:` string without a comma gives None; a payload base64 cannot decode gives None; bytes PIL cannot open give None; an opened RGB image is returned as it is, any other is the result of `convert('RGB')` (None when that raises); every returned image is RGB |
| PyText.SecondPiece | search-service/utils.py:25 | `s.split(sep)[1]` exists exactly when `sep` occurs in `s` and equals the text between the first occurrence of `sep` and the next occurrence or the end |
| PyText.SplitJoin | search-service/utils.py:25 | no piece of `s.split(sep)` contains `sep`, and joining the pieces with `sep` gives back `s` |
| PyText.IntToStringRoundTrip | search-service/main.py:279 | `str(idx)` reads back as `idx` |
| PyText.IntToStringInjective | api/index.py:75 | distinct ids give distinct `str(idx)`, so distinct default filenames |
| Faiss.PairCount | search-service/main.py:273 | `zip(distances, indices)` yields as many pairs as the shorter row |
| Collecting.CollectRaises | search-service/main.py:272-304 | the result loop raises exactly when one of its steps raises |
| Collecting.CollectKept | search-service/main.py:272-292 | when the loop completes, its records are those of the kept pairs, one each, in FAISS order |
| Collecting.KeptExactly | search-service/main.py:273-274 | the kept positions strictly increase and are exactly the positions whose step keeps a record |
| ServerlessApi.ApiFilename | api/index.py:75 | a present "filename" is used; otherwise the name is "image_" + `str(idx)` + ".jpg", whose digits read back as the id |
| ServerlessApi.ApiFormattedResults | api/index.py:70-84 | when the loop completes, the records correspond one by one, in ascending FAISS order, to exactly the pairs whose id passes `idx < len(metadata)`; each carries that pair's id, filename, distance and `similarity = 1 - distance`; there is no rank |
| ServerlessApi.ApiFormattingRaises | api/index.py:72-88 | the loop raises exactly when a passing id lies below `-len(metadata)` or selects a string entry, which has no `.get` |
| ServerlessApi.PaddingIdSelectsLastEntry | api/index.py:68-75 | with `top_k` unclamped, a padding id -1 passes the filter; the last metadata entry must then be a dict, and a record with index -1 and that entry's filename is returned |
| ServerlessApi.ApiSearchBound | api/index.py:55-84 | a search returns at most `top_k` records, whatever the embedding value |
| ServerlessApi.Backend.LoadIndex | api/index.py:25-53 | succeeds exactly when both downloads do; the index is assigned once read, even if the metadata download then fails; the metadata only on success; the index it stores keeps FAISS's output shape |
| ServerlessApi.Backend.SearchSimilarImages | api/index.py:55-88 | loaded globals are not reloaded; otherwise `load_index` runs and its failure gives []; an embedding `np.array` cannot convert gives []; FAISS is asked for `top_k` (default 10) neighbours with no clamp; any exception gives []; at most `top_k` records are returned |
| ServerlessApi.Backend.DoPost | api/index.py:91-148 | an unreadable body gives 500 with the exception text; an `embedding` key searches whatever its value (even if `text` is present) and answers success with `total_results` equal to the length of `results`, which are empty for a value `np.array` cannot convert; `text` alone answers success, empty results, 0 and "Text search not implemented yet"; neither key answers failure with "Invalid request format"; only the search branch changes the globals |

## Left out

- CLIP model loading, preprocessing and inference (search-service/main.py:58-76, search-service/utils.py:43-127) and the `/embed/image` and `/embed/text` endpoints: foreign library calls over tensors.
- The FAISS search and `read_index`: the search is an input function, and the index's `ntotal` is an input number.
- SearchService.Service.SearchSimilarImages: `np.linalg.norm` is a parameter, required to be the L2 norm of a valid query (Dafny's reals have no square root); float32 rounding and overflow to infinity in `np.array(..., dtype=float32)` are not modelled, and similarity is real subtraction, not IEEE arithmetic.
- SearchService.Service.SearchSimilarImages: exceptions other than FAISS's own and the loop's IndexError are not modelled. An example is `np.array` on an embedding that is not a list of numbers. The request body is a list of elements or absent.
- ServerlessApi.Backend.DoPost: an `embedding` value that is not a list of numbers (null, a number, an object, a string, a ragged list) is one `Unconvertible` value and always gives `[]`; which exception it raises is not modelled. A list holding nulls is a row with NaN in those places, and what FAISS does with it is up to the index's `search`, which is an input.
- SearchService.Service.SearchSimilarImages requires FAISS to honour its output shape of k columns (`WellShaped`); this is what the bound on the number of results rests on.
- `search-service/main.py`'s `not index` is taken to mean the index is None: a FAISS index object has no length and is always truthy.
- Metadata entries other than JSON objects and strings, "filename" values that are not strings, and a metadata file that is a JSON object rather than a list. For a non-dict entry, `str(item)` is modelled for strings only.
- CDN downloads, temporary files and startup initialisation (search-service/main.py:78-128, api/index.py:25-53). These are I/O; the outcome of `load_index` is the `Download` input.
- HTTP routing, CORS headers, the root, health, model-info and index-info endpoints, `do_GET`, `do_OPTIONS`, reading the Content-Length bytes and JSON decoding. A body that cannot be read or parsed is an error text.
- Logging.
- search-service/models.py (pydantic schemas and the 1..1000 text-length bound), search-service/setup_index.py (filesystem globbing and a missing module), search-service/start_production.py (launch only) and the tests, which need a live service.
