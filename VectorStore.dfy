/**
 * The in-memory vector database: `DocumentChunk` records kept in a list that
 * only grows, and a top-k similarity search over them.
 */
module VectorStore {
  import opened Options
  import opened Ranking

  /** A metadata value: the source stores strings, integers and timestamps. */
  datatype MetaValue = Str(s: string) | Int(n: int) | Float(x: real)

  /** A stored fragment: its id, its text, its embedding vector and its metadata. */
  datatype DocumentChunk = DocumentChunk(
    id: string,
    text: string,
    embedding: seq<real>,
    metadata: map<string, MetaValue>)

  /** The chunks at the given store positions, in that order. */
  function Project(chunks: seq<DocumentChunk>, idx: seq<nat>): (r: seq<DocumentChunk>)
    requires InRange(idx, |chunks|)
  {
    seq(|idx|, p requires 0 <= p < |idx| => chunks[idx[p]])
  }

  /** Projecting one more index at the end. */
  lemma ProjectSnoc(chunks: seq<DocumentChunk>, idx: seq<nat>, i: nat)
    requires InRange(idx, |chunks|) && i < |chunks|
    ensures InRange(idx + [i], |chunks|)
    ensures Project(chunks, idx + [i]) == Project(chunks, idx) + [chunks[i]]
  {
  }

  /** A projection has one chunk per index, each taken from the store. */
  lemma ProjectMembers(chunks: seq<DocumentChunk>, idx: seq<nat>)
    requires InRange(idx, |chunks|)
    ensures |Project(chunks, idx)| == |idx|
    ensures forall r :: r in Project(chunks, idx) ==> r in chunks
  {
  }

  /** One iteration of the filtering loop of `search`. */
  lemma SearchStep(chunks: seq<DocumentChunk>, scores: seq<real>, top: seq<nat>, k: nat,
                   picked: seq<nat>, results: seq<DocumentChunk>)
    requires |scores| == |chunks| && InRange(top, |scores|) && k < |top|
    requires picked == AboveThreshold(scores, top[..k]) && results == Project(chunks, picked)
    ensures scores[top[k]] > Threshold ==>
      && picked + [top[k]] == AboveThreshold(scores, top[..k + 1])
      && results + [chunks[top[k]]] == Project(chunks, picked + [top[k]])
    ensures scores[top[k]] <= Threshold ==> picked == AboveThreshold(scores, top[..k + 1])
  {
    assert top[..k + 1] == top[..k] + [top[k]];
    AboveThresholdSnoc(scores, top[..k], top[k]);
    ProjectSnoc(chunks, picked, top[k]);
  }

  /**
   * The filtering loop of `search`: walk the candidates best first and keep
   * the chunk of every one scoring above the threshold.
   */
  method KeepAboveThreshold(chunks: seq<DocumentChunk>, scores: seq<real>, top: seq<nat>)
    returns (results: seq<DocumentChunk>)
    requires |scores| == |chunks| && InRange(top, |scores|)
    ensures InRange(AboveThreshold(scores, top), |chunks|)
    ensures results == Project(chunks, AboveThreshold(scores, top))
  {
    results := [];
    ghost var picked: seq<nat> := [];
    for k := 0 to |top|
      invariant picked == AboveThreshold(scores, top[..k])
      invariant results == Project(chunks, picked)
    {
      var idx := top[k];
      SearchStep(chunks, scores, top, k, picked, results);
      if scores[idx] > Threshold {
        results := results + [chunks[idx]];
        picked := picked + [idx];
      }
    }
    assert top[..|top|] == top;
  }

  /** An empty store selects nothing. */
  lemma EmptySearch(chunks: seq<DocumentChunk>, scores: seq<real>, order: seq<nat>, topK: int)
    requires |scores| == |chunks| == 0 && IsArgsort(scores, order)
    ensures Project(chunks, Selected(scores, order, topK)) == []
  {
    SelectedSize(scores, order, topK);
  }

  /** What `search` promises about any list of results its selection rule yields. */
  lemma SearchResults(chunks: seq<DocumentChunk>, scores: seq<real>, order: seq<nat>, topK: int,
                      results: seq<DocumentChunk>)
    requires |scores| == |chunks| && IsArgsort(scores, order)
    requires results == Project(chunks, Selected(scores, order, topK))
    ensures chunks == [] ==> results == []
    ensures topK >= 1 ==> |results| <= topK
    ensures forall r :: r in results ==> r in chunks
  {
    SelectedSize(scores, order, topK);
    ProjectMembers(chunks, Selected(scores, order, topK));
  }

  class VectorDB {
    /** Every stored chunk, in insertion order. */
    var chunks: seq<DocumentChunk>

    /**
     * A store over what loading the database file produced: its records when
     * the file exists and parses, and nothing when it is missing or unreadable.
     */
    constructor (loaded: Option<seq<DocumentChunk>>)
      ensures chunks == if loaded.Some? then loaded.value else []
    {
      chunks := if loaded.Some? then loaded.value else [];
    }

    /** `add_chunk`: append, with no check that the id is new. */
    method AddChunk(chunk: DocumentChunk)
      modifies this
      ensures chunks == old(chunks) + [chunk]
      ensures |chunks| == |old(chunks)| + 1 && chunks[|chunks| - 1] == chunk
      ensures forall i :: 0 <= i < |old(chunks)| ==> chunks[i] == old(chunks)[i]
    {
      chunks := chunks + [chunk];
    }

    /**
     * `search`: `scores[i]` is the cosine similarity of the query with chunk `i`,
     * and `order` is what `np.argsort(scores)` returned. The result is the chunks
     * of the `top_k` best candidates, best first, keeping only those scoring above
     * the threshold.
     */
    method Search(scores: seq<real>, order: seq<nat>, topK: int) returns (results: seq<DocumentChunk>)
      requires |scores| == |chunks| && IsArgsort(scores, order)
      ensures results == Project(chunks, Selected(scores, order, topK))
      ensures chunks == [] ==> results == []
    {
      if |chunks| == 0 {
        EmptySearch(chunks, scores, order, topK);
        return [];
      }
      var top := TopIndices(order, topK);
      results := KeepAboveThreshold(chunks, scores, top);
    }
  }
}
