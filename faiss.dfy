/** The FAISS index as both services see it, the metadata list that goes with it,
    and the Python list indexing the services apply to FAISS ids. */
module Faiss {
  import opened Wrappers
  import opened Utils

  /** One row of `index.search`'s output: parallel `distances` and `indices`.
      An id of -1 is FAISS's padding when fewer than k neighbours exist. */
  datatype Neighbours = Neighbours(distances: seq<real>, ids: seq<int>)

  /** The number of pairs Python's `zip(distances, indices)` yields: the shorter length. */
  function PairCount(rows: Neighbours): (n: nat)
    ensures n <= |rows.distances| && n <= |rows.ids|
    ensures n == |rows.distances| || n == |rows.ids|
  {
    if |rows.distances| <= |rows.ids| then |rows.distances| else |rows.ids|
  }

  /** A loaded FAISS index: how many vectors it holds, and its `search(query, k)`,
      which either returns the neighbours or raises (Err carries the exception text). */
  datatype FaissIndex = FaissIndex(ntotal: nat, search: (seq<Float>, int) -> Result<Neighbours, string>)

  /** FAISS allocates its output as k columns: a search that succeeds returns exactly k pairs. */
  ghost predicate WellShaped(index: FaissIndex) {
    forall query, k :: index.search(query, k).Ok? ==>
      |index.search(query, k).value.distances| == k && |index.search(query, k).value.ids| == k
  }

  /** An entry of the JSON metadata list: an object, whose "filename" key may be absent,
      or a bare string. */
  datatype MetaItem = Dict(filename: Option<string>) | Str(text: string)

  /** Python's `items[i]`: a negative index counts from the end, and an index outside
      `-len(items) .. len(items) - 1` raises IndexError (None). */
  function PyIndex<T>(items: seq<T>, i: int): Option<T> {
    if 0 <= i < |items| then Some(items[i])
    else if -|items| <= i < 0 then Some(items[|items| + i])
    else None
  }
}
