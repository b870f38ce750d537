/**
 * `OllamaRAGProxy`: ingesting a document into its vector store, retrieving
 * texts for a query, and turning a chat request into the request forwarded to
 * the model.
 */
module Proxy {
  import opened Options
  import opened Strings
  import opened Chunker
  import opened Ranking
  import opened VectorStore
  import opened Ingestion
  import opened Prompt

  /** How many chunks `search_relevant_chunks` asks for by default. */
  const DefaultTopK: int := 5

  /** The texts of the given chunks, in order. */
  function Texts(cs: seq<DocumentChunk>): (ts: seq<string>)
    ensures |ts| == |cs|
    ensures forall p :: 0 <= p < |cs| ==> ts[p] == cs[p].text
  {
    seq(|cs|, p requires 0 <= p < |cs| => cs[p].text)
  }

  /**
   * What `search_relevant_chunks` returns: nothing when the query could not be
   * embedded, and otherwise the texts of what `search` returns.
   */
  function RelevantTexts(chunks: seq<DocumentChunk>, queryEmbedding: seq<real>, scores: seq<real>,
                         order: seq<nat>, topK: int): (ts: seq<string>)
    requires queryEmbedding != [] ==> |scores| == |chunks| && IsArgsort(scores, order)
    ensures queryEmbedding == [] || chunks == [] ==> ts == []
  {
    if queryEmbedding == [] then []
    else
      SelectedSize(scores, order, topK);
      Texts(Project(chunks, Selected(scores, order, topK)))
  }

  /**
   * The retrieved texts: one per selected chunk and so at most `topK` of them, each
   * the text of a stored chunk whose score is above the threshold, and in the
   * order of the selection.
   */
  lemma RelevantTextsSpec(chunks: seq<DocumentChunk>, queryEmbedding: seq<real>, scores: seq<real>,
                          order: seq<nat>, topK: int)
    requires queryEmbedding != [] ==> |scores| == |chunks| && IsArgsort(scores, order)
    ensures topK >= 1 ==> |RelevantTexts(chunks, queryEmbedding, scores, order, topK)| <= topK
    ensures queryEmbedding != [] ==>
      |RelevantTexts(chunks, queryEmbedding, scores, order, topK)| == |Selected(scores, order, topK)|
    ensures queryEmbedding != [] ==>
      forall p :: 0 <= p < |RelevantTexts(chunks, queryEmbedding, scores, order, topK)| ==>
        && Selected(scores, order, topK)[p] < |chunks|
        && scores[Selected(scores, order, topK)[p]] > Threshold
        && RelevantTexts(chunks, queryEmbedding, scores, order, topK)[p]
           == chunks[Selected(scores, order, topK)[p]].text
  {
    if queryEmbedding != [] {
      SelectedSize(scores, order, topK);
      SelectedBestFirst(scores, order, topK);
      ProjectMembers(chunks, Selected(scores, order, topK));
    }
  }

  /** What `rag_chat` does with a request: refuse it, or forward these messages. */
  datatype ChatRequest = Rejected(error: string) | Forward(messages: seq<Message>)

  class RagProxy {
    /** The proxy's vector store. */
    const db: VectorDB

    /** A proxy over a store opened on what loading its file produced. */
    constructor (loaded: Option<seq<DocumentChunk>>)
      ensures fresh(db)
      ensures db.chunks == if loaded.Some? then loaded.value else []
    {
      db := new VectorDB(loaded);
    }

    /**
     * `process_document`: `content` is what reading the file produced (`None`
     * when it could not be read), `nowSeconds` is `int(time.time())`,
     * `embeddings[i]` is what `get_embedding` returned for chunk `i` (empty on
     * failure) and `stamps[i]` the time it was stored at. Chunks without an
     * embedding are skipped; a failure leaves the store as it was.
     */
    method ProcessDocument(filePath: string, content: Option<string>, docId: Option<string>, nowSeconds: nat,
                           embeddings: seq<seq<real>>, stamps: seq<real>) returns (ok: bool)
      requires content.Some? ==>
        |embeddings| == |stamps| == |Chunks(content.value, DefaultChunkSize, DefaultOverlap)|
      modifies db
      ensures ok == content.Some?
      ensures !ok ==> db.chunks == old(db.chunks)
      ensures ok ==>
        db.chunks == old(db.chunks) + Ingested(ResolveDocId(docId, nowSeconds, filePath), filePath,
                                               Chunks(content.value, DefaultChunkSize, DefaultOverlap),
                                               embeddings, stamps)
    {
      if content.None? {
        return false;
      }
      var id := ResolveDocId(docId, nowSeconds, filePath);
      var chunks := ChunkText(content.value, DefaultChunkSize, DefaultOverlap);
      ghost var before := db.chunks;
      for i := 0 to |chunks|
        invariant db.chunks == before + Stored(id, filePath, chunks, embeddings, stamps, EmbeddedBelow(embeddings, i))
      {
        IngestStep(id, filePath, chunks, embeddings, stamps, i);
        var embedding := embeddings[i];
        if embedding == [] {
          continue;
        }
        var entry := DocumentChunk(ChunkId(id, i), chunks[i], embedding, Metadata(id, i, filePath, stamps[i]));
        assert entry == Entry(id, filePath, chunks, embeddings, stamps, i);
        AppendAssoc(before, Stored(id, filePath, chunks, embeddings, stamps, EmbeddedBelow(embeddings, i)), [entry]);
        db.AddChunk(entry);
      }
      assert db.chunks == before + Ingested(id, filePath, chunks, embeddings, stamps);
      return true;
    }

    /**
     * `search_relevant_chunks`: `queryEmbedding` is what `get_embedding` returned
     * for the query, and `scores`/`order` are the similarities and their argsort
     * that `search` computes from it.
     */
    method SearchRelevantChunks(queryEmbedding: seq<real>, scores: seq<real>, order: seq<nat>, topK: int)
      returns (texts: seq<string>)
      requires queryEmbedding != [] ==> |scores| == |db.chunks| && IsArgsort(scores, order)
      ensures texts == RelevantTexts(db.chunks, queryEmbedding, scores, order, topK)
    {
      if queryEmbedding == [] {
        return [];
      }
      var results := db.Search(scores, order, topK);
      texts := Texts(results);
    }

    /**
     * `rag_chat` up to forwarding: the query is the content of the last user
     * message; without one the request is refused, otherwise the messages are
     * forwarded behind a context prompt when something relevant was found.
     */
    method RagChat(messages: seq<Message>, queryEmbedding: seq<real>, scores: seq<real>, order: seq<nat>)
      returns (req: ChatRequest)
      requires queryEmbedding != [] ==> |scores| == |db.chunks| && IsArgsort(scores, order)
      ensures Query(messages) == "" ==> req == Rejected(MissingQueryError)
      ensures Query(messages) != "" ==>
        req == Forward(Augment(messages, RelevantTexts(db.chunks, queryEmbedding, scores, order, DefaultTopK)))
    {
      var userMessage := "";
      var i := |messages|;
      while i > 0
        invariant 0 <= i <= |messages|
        invariant userMessage == ""
        invariant forall j :: i <= j < |messages| ==> !IsUser(messages[j])
      {
        i := i - 1;
        if IsUser(messages[i]) {
          userMessage := Content(messages[i]);
          QueryAt(messages, i);
          break;
        }
      }
      if userMessage == "" {
        return Rejected(MissingQueryError);
      }
      var relevant := SearchRelevantChunks(queryEmbedding, scores, order, DefaultTopK);
      var enhanced: seq<Message>;
      if relevant != [] {
        enhanced := [SystemMessage(BuildContext(relevant))] + messages;
      } else {
        enhanced := messages;
      }
      return Forward(enhanced);
    }
  }
}
