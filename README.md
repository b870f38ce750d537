# Ollama RAG proxy — verified model of its core

This project models the deterministic core of `src/ollama_rag.py`. That file is a proxy that sits in front of an Ollama server. It splits documents into overlapping chunks and stores each chunk's embedding in an in-memory vector store. Before forwarding a chat request, it prefixes the conversation with a system prompt that quotes the stored chunks most similar to the last user message.

The modules follow the source:

- `Chunker` holds `OllamaRAGProxy.chunk_text`. The method `ChunkText` keeps the source's `while` loop and is proved equal to the recursive specification `Chunks`, and the lemmas prove what the chunking guarantees.
- `Ranking` is the selection rule of `VectorDB.search`: keep the last `top_k` entries of `np.argsort` of the scores, reverse them, and keep those scoring above `0.1`. The scores and the argsort result are inputs. `IsArgsort` admits every order among tied scores, because `np.argsort` is not stable. The slice `[-top_k:]` is modelled as Python evaluates it, so `top_k == 0` keeps every index and a negative `top_k` drops from the front.
- `VectorStore` holds `DocumentChunk` and the class `VectorDB`, whose `chunks` field `AddChunk` appends to and `Search` reads.
- `Ingestion` defines the records that `process_document` stores:
  - the chunk id `{doc_id}_chunk_{i}`;
  - the metadata map;
  - which chunks are skipped;
  - the default document id `doc_{seconds}_{basename}`.
- `Prompt` covers the request side of `rag_chat`: the query scan, the context prompt and the augmented message list.
- `Proxy` holds the class `RagProxy`. Its `ProcessDocument`, `SearchRelevantChunks` and `RagChat` run the loops of the source against the shared store.
- `Strings` holds the string helpers the f-strings and `"\n\n".join` need: decimal rendering of naturals, joining, and `os.path.basename` on `/`-separated paths.

Several things are parameters instead of calls:

- what reading the file produced (`None` when it failed);
- the embedding `get_embedding` returned for each chunk (empty on failure);
- `int(time.time())` for the default id, and the per-chunk `created_at` stamps;
- the similarity scores and their argsort;
- what `load_db` loaded.

## Model

| member | source | states |
|---|---|---|
| Chunker.WindowEnd | src/ollama_rag.py:147-151 | the end of the window at `start`: `start + chunk_size`, cut at `len(text)` |
| Chunker.ChunksFrom | src/ollama_rag.py:146-161 | the chunks the loop emits from window start `start` on: the window `text[start:end]` with `end` cut at `len(text)`, then, unless `end` reached the end, the chunks from `end - overlap`; its facts are the lemmas below |
| Chunker.Chunks | src/ollama_rag.py:141-163 | the chunks of a whole text (the loop started at 0); there are none exactly when the text is empty |
| Chunker.ChunkText | src/ollama_rag.py:141-163 | the `start`/`end` loop, run with `overlap < chunk_size`, returns exactly `Chunks(text, size, overlap)` |
| Chunker.ChunksSpec | src/ollama_rag.py:143-163 | no chunks exactly for the empty text; every chunk is non-empty and at most `chunk_size` long; the first chunk plus every later chunk without its leading `overlap` characters gives back the text; a text no longer than `chunk_size` gives `[text]` |
| Chunker.ChunksCoverText | src/ollama_rag.py:146-161 | the first chunk is a prefix of the text, the last chunk a suffix of it, and the chunks reassemble the text |
| Chunker.ChunkOverlap | src/ollama_rag.py:147-157 | every chunk except the last is a full `chunk_size` window, and its last `overlap` characters are the first `overlap` characters of the next chunk |
| Chunker.LastChunkEndsText | src/ollama_rag.py:150-161 | the loop stops on the window that reaches `len(text)`: the last chunk is a suffix of the text |
| Chunker.ChunkBounds | src/ollama_rag.py:147-153 | each window, cut at the end of the text, is non-empty and at most `chunk_size` long |
| Chunker.ChunksFromEmpty | src/ollama_rag.py:146 | the loop emits nothing exactly when `start` is already at or past the end of the text |
| Chunker.ReassembleFrom | src/ollama_rag.py:153-157 | from any start inside the text, the emitted chunks with their overlaps dropped rebuild the rest of the text |
| Chunker.ChunksFromStep | src/ollama_rag.py:146-161 | one iteration: the window ends past `start`; at the end of the text it is the last chunk, otherwise the next start `end - overlap` is strictly past `start` (the loop terminates) |
| Chunker.DefaultWindowsOf1200 | src/ollama_rag.py:141-161 | with the defaults 500/50, a 1200-character text gives the windows `[0,500)`, `[450,950)` and `[900,1200)` |
| Ranking.IsArgsort | src/ollama_rag.py:94 | what `np.argsort(similarities)` is assumed to return: a permutation of the score indices in ascending score order, tied scores in any order |
| Ranking.SuffixStart | src/ollama_rag.py:94 | where the slice `[-top_k:]` starts, never past the end of the argsort |
| Ranking.SelectedCount | src/ollama_rag.py:94 | the slice keeps `min(top_k, n)` indices for `top_k >= 1` and all `n` for `top_k == 0` |
| Ranking.Reverse | src/ollama_rag.py:94 | `[::-1]` keeps the length and puts element `p` at `n-1-p` |
| Ranking.TopIndices | src/ollama_rag.py:94 | `argsort[-top_k:][::-1]` has `SelectedCount` entries, the `p`-th being the `p`-th from the end of the argsort |
| Ranking.AboveThreshold | src/ollama_rag.py:97-100 | the filter keeps an index exactly when it was a candidate and its score is above `0.1`, and never grows the list |
| Ranking.AboveThresholdSnoc | src/ollama_rag.py:98-100 | one more candidate adds itself to the kept list exactly when its score is above `0.1` |
| Ranking.Selected | src/ollama_rag.py:94-100 | the selected indices are valid store positions |
| Ranking.AboveThresholdDistinct | src/ollama_rag.py:97-100 | filtering distinct candidates keeps them distinct |
| Ranking.AboveThresholdBestFirst | src/ollama_rag.py:97-100 | filtering candidates in non-increasing score order keeps that order |
| Ranking.AboveThresholdAll | src/ollama_rag.py:97-100 | when every candidate scores above `0.1`, the filter keeps them all |
| Ranking.BestFirstLast | src/ollama_rag.py:94 | in a best-first list, every earlier entry scores at least as high as the last one |
| Ranking.TopIndicesBestFirst | src/ollama_rag.py:94 | the top-k candidates are distinct store positions in non-increasing score order |
| Ranking.TopIndicesMembers | src/ollama_rag.py:94 | every argsort entry from the slice start on is a candidate |
| Ranking.TopIndicesDominate | src/ollama_rag.py:94 | no index left out of the top-k candidates scores higher than any candidate |
| Ranking.TopIndicesZero | src/ollama_rag.py:94 | with `top_k == 0` every index is a candidate |
| Ranking.SelectedSize | src/ollama_rag.py:83-100 | an empty store selects nothing; the selection has at most `min(top_k, n)` entries, so at most `top_k` for `top_k >= 1` |
| Ranking.SelectedBestFirst | src/ollama_rag.py:91-100 | every selected index scores above `0.1`, none appears twice, and the selection is in non-increasing score order |
| Ranking.SelectedLeavesOutOnlyWorse | src/ollama_rag.py:91-100 | no left-out index scores higher than a selected one; a left-out index above `0.1` is outside the top-k, so the selection is then full; with `top_k == 0` every index above `0.1` is selected |
| VectorStore.Project | src/ollama_rag.py:100 | `self.chunks[idx]` for each kept index, in order; `ProjectMembers` and `ProjectSnoc` state its facts |
| VectorStore.ProjectSnoc | src/ollama_rag.py:100 | appending `self.chunks[idx]` for one more index extends the results by that chunk |
| VectorStore.ProjectMembers | src/ollama_rag.py:100 | the results have one entry per selected index, each an element of the store |
| VectorStore.SearchStep | src/ollama_rag.py:98-100 | one iteration of the result loop appends the chunk exactly when its score is above `0.1` |
| VectorStore.KeepAboveThreshold | src/ollama_rag.py:97-102 | the result loop returns the stored chunks at the candidates scoring above `0.1`, in candidate order |
| VectorStore.EmptySearch | src/ollama_rag.py:83-84 | an empty store yields `[]` |
| VectorStore.SearchResults | src/ollama_rag.py:83-102 | `search`'s result is empty for an empty store, holds at most `top_k` chunks for `top_k >= 1`, and holds only chunks of the store |
| VectorStore.VectorDB.constructor | src/ollama_rag.py:32-57 | the store starts with what loading produced, or empty when there was nothing to load |
| VectorStore.VectorDB.AddChunk | src/ollama_rag.py:77-79 | `chunks` grows by exactly the new chunk, at the end, with every earlier entry unchanged and no id check |
| VectorStore.VectorDB.Search | src/ollama_rag.py:81-102 | the result is the stored chunks at the selected indices (top-k by score, best first, above `0.1`), and `[]` for an empty store |
| Strings.NatToString | src/ollama_rag.py:192 | `str(i)` is a non-empty run of decimal digits with no leading zero except for `0` itself |
| Strings.ParseNatToString | src/ollama_rag.py:192 | reading the decimal rendering back gives the number |
| Strings.NatToStringInjective | src/ollama_rag.py:192 | different numbers render differently |
| Strings.Join | src/ollama_rag.py:272 | `sep.join(xs)`: the items with `sep` between consecutive ones; `JoinSplit` states the layout |
| Strings.JoinSplit | src/ollama_rag.py:272 | `sep.join(xs)` is the items before `i`, each followed by `sep`, then item `i`, then `sep` before each later item |
| Strings.JoinCons | src/ollama_rag.py:272 | a join of two or more items is the first item and `sep` followed by the join of the rest |
| Strings.JoinSplitFirst | src/ollama_rag.py:272 | the split of `JoinSplit` at the first item |
| Strings.JoinBeforeStep | src/ollama_rag.py:272 | the part before item `i` starts with the first item and `sep` |
| Strings.JoinAfterStep | src/ollama_rag.py:272 | the part after item `i` does not depend on the first item |
| Strings.BaseName | src/ollama_rag.py:176 | `os.path.basename` is the suffix of the path after its last `/`, so it holds no `/` |
| Ingestion.ChunkId | src/ollama_rag.py:192 | the id is `doc_id`, then `_chunk_`, then the decimal digits of `i` |
| Ingestion.ChunkIdIndex | src/ollama_rag.py:192 | the chunk index can be read back from its id |
| Ingestion.ChunkIdInjective | src/ollama_rag.py:192 | two chunks of one document never share an id |
| Ingestion.Metadata | src/ollama_rag.py:195-200 | the metadata has exactly the keys `doc_id`, `chunk_index`, `source_file` and `created_at`, holding the document id, `i`, the file path and the time stamp |
| Ingestion.EmbeddedBelow | src/ollama_rag.py:183-189 | among the first `n` chunks, the loop stores chunk `i` exactly when its embedding is non-empty |
| Ingestion.EmbeddedBelowAscending | src/ollama_rag.py:183 | the stored chunks come in increasing chunk index |
| Ingestion.Entry | src/ollama_rag.py:191-201 | the `DocumentChunk` (the dataclass at lines 22-27) built for chunk `i`: id `ChunkId(doc_id, i)`, the chunk's text, its embedding, and exactly the metadata of `Metadata` |
| Ingestion.Stored | src/ollama_rag.py:183-203 | the records for the stored chunk indices, one per index, in that order |
| Ingestion.StoredSnoc | src/ollama_rag.py:191-203 | storing one more chunk appends its record |
| Ingestion.IngestStep | src/ollama_rag.py:186-203 | one iteration adds nothing for an empty embedding and appends the chunk's record otherwise |
| Ingestion.Ingested | src/ollama_rag.py:183-203 | a document adds at most one record per chunk |
| Ingestion.IngestedSpec | src/ollama_rag.py:183-203 | every added record is the record of a chunk with a non-empty embedding (its text, id and metadata); every such chunk is added; no two added records share an id |
| Ingestion.EmbeddedBelowAll | src/ollama_rag.py:183-189 | when every embedding is present, chunks `0, 1, …, n-1` are stored in that order |
| Ingestion.IngestedAll | src/ollama_rag.py:183-203 | when every embedding is present, one record per chunk is added, the `i`-th holding chunk `i`'s text |
| Ingestion.ResolveDocId | src/ollama_rag.py:174-176 | a given non-empty id is kept; otherwise the id is `doc_`, then the decimal digits of the seconds (which `Strings.ParseNatToString` reads back), then `_` and the file's basename |
| Prompt.IsUser | src/ollama_rag.py:259 | `msg.get("role") == "user"`: a missing role is not `user` |
| Prompt.Content | src/ollama_rag.py:260 | `msg.get("content", "")`: a missing content reads as `""` |
| Prompt.LastUserIndex | src/ollama_rag.py:258-261 | the reverse scan finds the last message whose role is `user`, or reports that none has that role |
| Prompt.Query | src/ollama_rag.py:257-261 | `user_message`: without any user message it stays `""` |
| Prompt.QueryAt | src/ollama_rag.py:257-261 | a user message with no user message after it supplies the query: its `content`, or `""` when missing |
| Prompt.QueryWithoutUser | src/ollama_rag.py:257-261 | without a user message the query is `""` |
| Prompt.QueryIgnoresTrailing | src/ollama_rag.py:258-261 | messages after the last user message do not change the query |
| Prompt.Label | src/ollama_rag.py:272 | the label of text `i` is `文档片段 `, then the decimal digits of `i + 1`, then `: ` |
| Prompt.LabelNumber | src/ollama_rag.py:272 | the number in the label of text `i` reads back as `i + 1` |
| Prompt.Labelled | src/ollama_rag.py:272 | one labelled fragment per retrieved text |
| Prompt.BuildContext | src/ollama_rag.py:271-273 | the context starts with the fixed preamble and ends with the fixed closing sentence |
| Prompt.ContextCitesEveryText | src/ollama_rag.py:271-273 | between preamble and closing, retrieved text `i` appears as `文档片段 {i+1}: ` followed by the text, after the earlier labelled texts and their separators and before the later ones |
| Prompt.SystemMessage | src/ollama_rag.py:277 | the system message has exactly the keys `role` and `content`, with role `system` (so it is not a user message) and the context as content |
| Prompt.Augment | src/ollama_rag.py:269-281 | no retrieved texts leave the messages unchanged; otherwise the result is one longer, with a `system` message holding the context in front of the original messages |
| Prompt.AugmentKeepsQuery | src/ollama_rag.py:276-278 | the system message put in front does not change which user message is the query |
| Proxy.Texts | src/ollama_rag.py:226 | `[chunk.text for chunk in results]` has one text per result, in order |
| Proxy.RelevantTexts | src/ollama_rag.py:217-228 | an empty query embedding or an empty store gives `[]` |
| Proxy.RelevantTextsSpec | src/ollama_rag.py:214-228 | exactly one text per selected chunk, so at most `top_k` texts, the `p`-th being the text of the `p`-th selected stored chunk, whose score is above `0.1` |
| Proxy.RagProxy.constructor | src/ollama_rag.py:107-115 | the proxy owns a new store holding what loading produced |
| Proxy.RagProxy.ProcessDocument | src/ollama_rag.py:165-212 | an unreadable file returns `False` with the store unchanged; otherwise it returns `True` and the store becomes the old store followed by the records of the embedded chunks of `chunk_text(content)`, under the resolved document id |
| Proxy.RagProxy.SearchRelevantChunks | src/ollama_rag.py:214-228 | `[]` for an empty query embedding; otherwise the texts of `search`'s results, in order |
| Proxy.RagProxy.RagChat | src/ollama_rag.py:254-281 | no query gives the error `未找到用户消息` and nothing is forwarded; otherwise the forwarded messages are the original ones behind the context built from the top 5 retrieved texts, or unchanged when none was retrieved |

## Left out

- The HTTP server, CORS middleware, route handlers, multipart upload and temporary files, and `main`/argparse: these are I/O plumbing.
- `get_embedding` and `forward_to_ollama`, the aiohttp session and asyncio: these are network calls. An embedding is an input, and `RagChat` stops at the messages it would forward, so the model's response, its JSON decoding and the `RAG处理失败` error on a failed forward are not modelled.
- The cosine similarity (numpy and sklearn floating point): the scores are an input sequence of reals, and the argsort an input constrained by `IsArgsort`. The scores stand for the doubles through an order-preserving map that sends the double `0.1` to `Threshold` (the real 1/10). So `scores[j] > Threshold` is the source's double comparison `similarities[idx] > 0.1`, and a score equal to the double `0.1` is dropped as in the source. The model does not compute the doubles themselves.
- `search` raises instead of returning when the embeddings cannot be compared: a query embedding whose dimension differs from the stored ones, or stored embeddings whose dimensions differ among themselves (for example after loading a hand-edited file), fail at lines 87-91. In `rag_chat` the search happens outside its `try`, so the exception leaves `rag_chat` at line 267. `Search`, `SearchRelevantChunks` and `RagChat` require one score per stored chunk, so this error path is not modelled.
- `load_db` and `save_db` are JSON file I/O. The store is built from an `Option` of what loading produced. The default `{}` for a missing `metadata` key is part of that decoding and is not modelled. `save_db` catches its own errors, so `process_document` still returns `True`; the model's `True` path agrees.
- `time.time()` is a clock read. The whole seconds used for the default id and the per-chunk `created_at` values are parameters.
- Logging has no effect on results.
- Proxy.RagProxy.ProcessDocument: each request is modelled as running alone. The app serves every request from one shared proxy, and its handlers call `process_document` and `rag_chat` concurrently. Interleaving with other requests at the awaits on lines 186 and 217 is not modelled: another upload may append its chunks between two `add_chunk` calls, so `db.chunks == old(db.chunks) + Ingested(...)` holds only when no other request runs in between. Likewise, `rag_chat`'s search may see chunks added after the request arrived.
- Proxy.RagProxy.RagChat: searches the store as it is when the call starts. In the source, an upload running at the same time may add chunks while `get_embedding` for the query is awaited at line 217, before `search` reads the store at line 223.
- Proxy.RagProxy.ProcessDocument: the only failure modelled is a file that cannot be read, which raises before any chunk is stored. An exception raised in the middle of the loop would leave the chunks added so far in the store; such an exception has no source in the modelled code, so it is not modelled.
- Chunker.ChunkText: requires `overlap < chunk_size`. The source does not check this; with `overlap >= chunk_size` on a text longer than one window, `start` stops advancing and the loop never ends. Every caller uses 500 and 50.
- Proxy.RagProxy.RagChat: a Python message may be any JSON object. The model's `Message` is a map from strings to strings, so a non-string `role` or `content` is outside it.
- Strings.BaseName: splits on `/` only, as `os.path.basename` does on POSIX. Windows separators are not modelled.
- `@export/ollama.d.ts` (TypeScript declarations) and `test/request.js` (a client script) contain no logic of the proxy.
