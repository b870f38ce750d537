/**
 * What `process_document` stores for one document: chunk ids, chunk metadata,
 * which chunks are skipped, and the document id it falls back on.
 */
module Ingestion {
  import opened Options
  import opened Strings
  import opened Ranking
  import opened VectorStore

  /** The chunking parameters `process_document` uses (the defaults of `chunk_text`). */
  const DefaultChunkSize: nat := 500
  const DefaultOverlap: nat := 50

  const ChunkInfix: string := "_chunk_"

  /** The id of chunk `i` of document `docId`: `{doc_id}_chunk_{i}`. */
  function ChunkId(docId: string, i: nat): (id: string)
    ensures |id| > |docId| + |ChunkInfix|
    ensures id[..|docId|] == docId
    ensures id[|docId|..|docId| + |ChunkInfix|] == ChunkInfix
    ensures IsDigits(id[|docId| + |ChunkInfix|..])
  {
    docId + ChunkInfix + NatToString(i)
  }

  /** The chunk index is written in full after the infix, so it can be read back. */
  lemma ChunkIdIndex(docId: string, i: nat)
    ensures ParseNat(ChunkId(docId, i)[|docId| + |ChunkInfix|..]) == i
  {
    assert ChunkId(docId, i)[|docId| + |ChunkInfix|..] == NatToString(i);
    ParseNatToString(i);
  }

  /** Two chunks of one document never share an id. */
  lemma ChunkIdInjective(docId: string, i: nat, j: nat)
    requires ChunkId(docId, i) == ChunkId(docId, j)
    ensures i == j
  {
    ChunkIdIndex(docId, i);
    ChunkIdIndex(docId, j);
  }

  /** The metadata stored with chunk `i`. */
  function Metadata(docId: string, i: nat, sourceFile: string, createdAt: real): (md: map<string, MetaValue>)
    ensures md.Keys == {"doc_id", "chunk_index", "source_file", "created_at"}
    ensures md["doc_id"] == Str(docId) && md["chunk_index"] == Int(i)
    ensures md["source_file"] == Str(sourceFile) && md["created_at"] == Float(createdAt)
  {
    map["doc_id" := Str(docId), "chunk_index" := Int(i),
        "source_file" := Str(sourceFile), "created_at" := Float(createdAt)]
  }

  /**
   * The indices below `n` whose embedding came back non-empty, ascending: the
   * chunks the ingestion loop stores, the others being skipped.
   */
  function EmbeddedBelow(embeddings: seq<seq<real>>, n: nat): (idx: seq<nat>)
    requires n <= |embeddings|
    ensures |idx| <= n
    ensures InRange(idx, n)
    ensures forall i :: 0 <= i < n ==> (i in idx <==> embeddings[i] != [])
  {
    if n == 0 then []
    else if embeddings[n - 1] == [] then EmbeddedBelow(embeddings, n - 1)
    else EmbeddedBelow(embeddings, n - 1) + [n - 1]
  }

  /** Indices strictly increasing along `s`. */
  predicate Ascending(s: seq<nat>)
  {
    forall p, q :: 0 <= p < q < |s| ==> s[p] < s[q]
  }

  /** The stored indices come in chunk order, each once. */
  lemma {:induction false} EmbeddedBelowAscending(embeddings: seq<seq<real>>, n: nat)
    requires n <= |embeddings|
    ensures Ascending(EmbeddedBelow(embeddings, n))
  {
    if n > 0 {
      EmbeddedBelowAscending(embeddings, n - 1);
    }
  }

  /** The record stored for chunk `i`. */
  function Entry(docId: string, sourceFile: string, chunks: seq<string>,
                 embeddings: seq<seq<real>>, stamps: seq<real>, i: nat): (e: DocumentChunk)
    requires i < |chunks| == |embeddings| == |stamps|
    ensures e.id == ChunkId(docId, i) && e.text == chunks[i] && e.embedding == embeddings[i]
    ensures e.metadata == Metadata(docId, i, sourceFile, stamps[i])
  {
    DocumentChunk(ChunkId(docId, i), chunks[i], embeddings[i],
                  Metadata(docId, i, sourceFile, stamps[i]))
  }

  /** The records for the chunks at `idx`, in that order. */
  function Stored(docId: string, sourceFile: string, chunks: seq<string>,
                  embeddings: seq<seq<real>>, stamps: seq<real>, idx: seq<nat>): (r: seq<DocumentChunk>)
    requires |chunks| == |embeddings| == |stamps| && InRange(idx, |chunks|)
    ensures |r| == |idx|
  {
    seq(|idx|, p requires 0 <= p < |idx| => Entry(docId, sourceFile, chunks, embeddings, stamps, idx[p]))
  }

  /** Storing one more chunk appends its record. */
  lemma StoredSnoc(docId: string, sourceFile: string, chunks: seq<string>,
                   embeddings: seq<seq<real>>, stamps: seq<real>, idx: seq<nat>, i: nat)
    requires |chunks| == |embeddings| == |stamps| && InRange(idx, |chunks|) && i < |chunks|
    ensures InRange(idx + [i], |chunks|)
    ensures Stored(docId, sourceFile, chunks, embeddings, stamps, idx + [i])
         == Stored(docId, sourceFile, chunks, embeddings, stamps, idx)
            + [Entry(docId, sourceFile, chunks, embeddings, stamps, i)]
  {
  }

  /** One iteration of the ingestion loop: chunk `i` is stored exactly when it has an embedding. */
  lemma IngestStep(docId: string, sourceFile: string, chunks: seq<string>,
                   embeddings: seq<seq<real>>, stamps: seq<real>, i: nat)
    requires i < |chunks| == |embeddings| == |stamps|
    ensures embeddings[i] == [] ==>
      Stored(docId, sourceFile, chunks, embeddings, stamps, EmbeddedBelow(embeddings, i + 1))
      == Stored(docId, sourceFile, chunks, embeddings, stamps, EmbeddedBelow(embeddings, i))
    ensures embeddings[i] != [] ==>
      Stored(docId, sourceFile, chunks, embeddings, stamps, EmbeddedBelow(embeddings, i + 1))
      == Stored(docId, sourceFile, chunks, embeddings, stamps, EmbeddedBelow(embeddings, i))
         + [Entry(docId, sourceFile, chunks, embeddings, stamps, i)]
  {
    if embeddings[i] != [] {
      StoredSnoc(docId, sourceFile, chunks, embeddings, stamps, EmbeddedBelow(embeddings, i), i);
    }
  }

  /** The records one document adds to the store. */
  function Ingested(docId: string, sourceFile: string, chunks: seq<string>,
                    embeddings: seq<seq<real>>, stamps: seq<real>): (r: seq<DocumentChunk>)
    requires |chunks| == |embeddings| == |stamps|
    ensures |r| <= |chunks|
  {
    Stored(docId, sourceFile, chunks, embeddings, stamps, EmbeddedBelow(embeddings, |chunks|))
  }

  /**
   * Every record the document adds carries a non-empty embedding, the text and
   * index of its own chunk and the document's metadata; no two share an id; and
   * every chunk with an embedding is among them.
   */
  lemma IngestedSpec(docId: string, sourceFile: string, chunks: seq<string>,
                     embeddings: seq<seq<real>>, stamps: seq<real>)
    requires |chunks| == |embeddings| == |stamps|
    ensures forall e :: e in Ingested(docId, sourceFile, chunks, embeddings, stamps) ==>
      exists i :: 0 <= i < |chunks| && embeddings[i] != [] && e == Entry(docId, sourceFile, chunks, embeddings, stamps, i)
    ensures forall i :: 0 <= i < |chunks| && embeddings[i] != [] ==>
      Entry(docId, sourceFile, chunks, embeddings, stamps, i) in Ingested(docId, sourceFile, chunks, embeddings, stamps)
    ensures forall p, q :: 0 <= p < q < |Ingested(docId, sourceFile, chunks, embeddings, stamps)| ==>
      Ingested(docId, sourceFile, chunks, embeddings, stamps)[p].id
        != Ingested(docId, sourceFile, chunks, embeddings, stamps)[q].id
  {
    var idx := EmbeddedBelow(embeddings, |chunks|);
    var r := Ingested(docId, sourceFile, chunks, embeddings, stamps);
    forall e | e in r
      ensures exists i :: 0 <= i < |chunks| && embeddings[i] != [] && e == Entry(docId, sourceFile, chunks, embeddings, stamps, i)
    {
      var p :| 0 <= p < |r| && r[p] == e;
      assert idx[p] in idx;
    }
    forall i | 0 <= i < |chunks| && embeddings[i] != []
      ensures Entry(docId, sourceFile, chunks, embeddings, stamps, i) in r
    {
      assert i in idx;
      var p :| 0 <= p < |idx| && idx[p] == i;
      assert r[p] == Entry(docId, sourceFile, chunks, embeddings, stamps, i);
    }
    EmbeddedBelowAscending(embeddings, |chunks|);
    forall p, q | 0 <= p < q < |r|
      ensures r[p].id != r[q].id
    {
      if r[p].id == r[q].id {
        ChunkIdInjective(docId, idx[p], idx[q]);
        assert false;
      }
    }
  }

  /** With every embedding present, each chunk is stored, in chunk order. */
  lemma IngestedAll(docId: string, sourceFile: string, chunks: seq<string>,
                    embeddings: seq<seq<real>>, stamps: seq<real>)
    requires |chunks| == |embeddings| == |stamps|
    requires forall i :: 0 <= i < |embeddings| ==> embeddings[i] != []
    ensures |Ingested(docId, sourceFile, chunks, embeddings, stamps)| == |chunks|
    ensures forall i :: 0 <= i < |chunks| ==>
      Ingested(docId, sourceFile, chunks, embeddings, stamps)[i].text == chunks[i]
  {
    EmbeddedBelowAll(embeddings, |chunks|);
  }

  /** With every embedding below `n` present, the stored indices are `0, 1, …, n-1`. */
  lemma {:induction false} EmbeddedBelowAll(embeddings: seq<seq<real>>, n: nat)
    requires n <= |embeddings|
    requires forall i :: 0 <= i < n ==> embeddings[i] != []
    ensures |EmbeddedBelow(embeddings, n)| == n
    ensures forall p :: 0 <= p < n ==> EmbeddedBelow(embeddings, n)[p] == p
  {
    if n > 0 {
      EmbeddedBelowAll(embeddings, n - 1);
    }
  }

  /**
   * The document id: the caller's when it is given and non-empty, otherwise
   * `doc_{seconds}_{basename}` built from the current time in whole seconds.
   */
  function ResolveDocId(docId: Option<string>, nowSeconds: nat, filePath: string): (id: string)
    ensures id != []
    ensures docId.Some? && docId.value != [] ==> id == docId.value
    ensures (docId.None? || docId.value == []) ==>
      && |id| > |BaseName(filePath)| + 5
      && id[..4] == "doc_"
      && BaseName(filePath) == id[|id| - |BaseName(filePath)|..]
      && id[|id| - |BaseName(filePath)| - 1] == '_'
      && id[4..|id| - |BaseName(filePath)| - 1] == NatToString(nowSeconds)
  {
    if docId.Some? && docId.value != [] then docId.value
    else
      var stamp := NatToString(nowSeconds);
      var prefix := "doc_" + stamp + "_";
      var base := BaseName(filePath);
      assert prefix[..4] == "doc_" && prefix[|prefix| - 1] == '_';
      assert prefix[4..|prefix| - 1] == stamp;
      assert (prefix + base)[..|prefix|] == prefix;
      assert (prefix + base)[|prefix|..] == base;
      prefix + base
  }
}
