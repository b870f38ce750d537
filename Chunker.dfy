/**
 * `OllamaRAGProxy.chunk_text`: a sliding window of `size` characters over the
 * document text, each window starting `overlap` characters before the previous
 * one ended, the last window cut at the end of the text.
 */
module Chunker {
  import opened Strings

  /** The end of the window that starts at `start`: `start + size`, cut at the end of the text. */
  function WindowEnd(text: string, start: nat, size: nat): (end: nat)
  {
    if start + size > |text| then |text| else start + size
  }

  /**
   * The chunks the loop emits from window start `start` on. The window advances to
   * `end - overlap`, which is past `start` exactly because `overlap < size`.
   */
  function ChunksFrom(text: string, start: nat, size: nat, overlap: nat): (cs: seq<string>)
    requires overlap < size
    decreases |text| - start
  {
    if start >= |text| then []
    else
      var end := WindowEnd(text, start, size);
      [text[start..end]] + if end == |text| then [] else ChunksFrom(text, end - overlap, size, overlap)
  }

  /** The chunks of a whole text. */
  function Chunks(text: string, size: nat, overlap: nat): (cs: seq<string>)
    requires overlap < size
    ensures (cs == []) == (text == [])
  {
    ChunksFromEmpty(text, 0, size, overlap);
    ChunksFrom(text, 0, size, overlap)
  }

  /** Every chunk after the first with its leading `overlap` characters removed, concatenated. */
  function DropOverlaps(cs: seq<string>, overlap: nat): (s: string)
  {
    if cs == [] then [] else (if overlap <= |cs[0]| then cs[0][overlap..] else []) + DropOverlaps(cs[1..], overlap)
  }

  /** The text put back together from its chunks: the first chunk whole, the others without their overlap. */
  function Reassemble(cs: seq<string>, overlap: nat): (s: string)
  {
    if cs == [] then [] else cs[0] + DropOverlaps(cs[1..], overlap)
  }

  /** One step of the window: the chunk at `start`, then the chunks from `end - overlap` unless the text is done. */
  lemma ChunksFromStep(text: string, start: nat, size: nat, overlap: nat, end: nat)
    requires overlap < size
    requires start < |text| && end == WindowEnd(text, start, size)
    ensures start < end <= |text|
    ensures end == |text| ==> ChunksFrom(text, start, size, overlap) == [text[start..end]]
    ensures end < |text| ==>
      && overlap < end && start < end - overlap
      && ChunksFrom(text, start, size, overlap) == [text[start..end]] + ChunksFrom(text, end - overlap, size, overlap)
  {
  }

  /** Adjacent slices of one string join up. */
  lemma SliceJoin(text: string, a: nat, b: nat)
    requires a <= b <= |text|
    ensures text[a..b] + text[b..] == text[a..]
  {
  }

  /** A slice of a slice. */
  lemma SliceOfSlice(text: string, a: nat, b: nat, k: nat)
    requires a + k <= b <= |text|
    ensures text[a..b][k..] == text[a + k..b]
  {
  }

  /** What follows a prefix of `text[a..]` is the rest of the text. */
  lemma AfterPrefix(text: string, a: nat, b: nat, tail: string)
    requires a <= b <= |text|
    requires text[a..b] + tail == text[a..]
    ensures tail == text[b..]
  {
    SliceJoin(text, a, b);
    assert |tail| == |text[b..]|;
    forall k | 0 <= k < |tail|
      ensures tail[k] == text[b..][k]
    {
      assert (text[a..b] + tail)[b - a + k] == tail[k];
      assert (text[a..b] + text[b..])[b - a + k] == text[b..][k];
    }
  }

  /** Dropping the overlap of a list of chunks peels off its first chunk. */
  lemma DropOverlapsCons(cs: seq<string>, overlap: nat)
    requires cs != [] && overlap <= |cs[0]|
    ensures DropOverlaps(cs, overlap) == cs[0][overlap..] + DropOverlaps(cs[1..], overlap)
  {
  }

  /** Reassembling starts from the first chunk whole. */
  lemma ReassembleCons(cs: seq<string>, overlap: nat)
    requires cs != []
    ensures Reassemble(cs, overlap) == cs[0] + DropOverlaps(cs[1..], overlap)
  {
  }

  /** No chunks once the window has reached the end; at least one before. */
  lemma {:induction false} ChunksFromEmpty(text: string, start: nat, size: nat, overlap: nat)
    requires overlap < size
    ensures (ChunksFrom(text, start, size, overlap) == []) == (start >= |text|)
  {
  }

  /** Every chunk is non-empty and at most `size` characters long. */
  lemma {:induction false} ChunkBounds(text: string, start: nat, size: nat, overlap: nat)
    requires overlap < size
    ensures forall i :: 0 <= i < |ChunksFrom(text, start, size, overlap)| ==>
      0 < |ChunksFrom(text, start, size, overlap)[i]| <= size
    decreases |text| - start
  {
    if start < |text| {
      var end := WindowEnd(text, start, size);
      ChunksFromStep(text, start, size, overlap, end);
      if end < |text| {
        var cs := ChunksFrom(text, start, size, overlap);
        var rest := ChunksFrom(text, end - overlap, size, overlap);
        ChunkBounds(text, end - overlap, size, overlap);
        assert forall i :: 1 <= i < |cs| ==> cs[i] == rest[i - 1];
      }
    }
  }

  /**
   * Removing the overlap from chunks that reassemble the text from `start` on
   * leaves the text from `start + overlap` on, when the first chunk is longer
   * than the overlap.
   */
  lemma DropFirstOverlap(text: string, start: nat, size: nat, overlap: nat)
    requires overlap < size
    requires start < |text| && start + overlap < WindowEnd(text, start, size)
    requires Reassemble(ChunksFrom(text, start, size, overlap), overlap) == text[start..]
    ensures DropOverlaps(ChunksFrom(text, start, size, overlap), overlap) == text[start + overlap..]
  {
    var cs := ChunksFrom(text, start, size, overlap);
    var end := WindowEnd(text, start, size);
    ChunksFromStep(text, start, size, overlap, end);
    var first := text[start..end];
    assert cs[0] == first;
    var tail := DropOverlaps(cs[1..], overlap);
    calc {
      DropOverlaps(cs, overlap);
    == { DropOverlapsCons(cs, overlap); }
      first[overlap..] + tail;
    == { SliceOfSlice(text, start, end, overlap); }
      text[start + overlap..end] + tail;
    == { ReassembleCons(cs, overlap); AfterPrefix(text, start, end, tail); }
      text[start + overlap..end] + text[end..];
    == { SliceJoin(text, start + overlap, end); }
      text[start + overlap..];
    }
  }

  /** Chunks from `start` on put back together give exactly the rest of the text. */
  lemma {:induction false} ReassembleFrom(text: string, start: nat, size: nat, overlap: nat)
    requires overlap < size
    requires start < |text|
    ensures Reassemble(ChunksFrom(text, start, size, overlap), overlap) == text[start..]
    decreases |text| - start
  {
    var cs := ChunksFrom(text, start, size, overlap);
    var end := WindowEnd(text, start, size);
    ChunksFromStep(text, start, size, overlap, end);
    ReassembleCons(cs, overlap);
    if end == |text| {
      assert text[start..end] == text[start..];
      assert cs[1..] == [];
    } else {
      var next := end - overlap;
      var rest := ChunksFrom(text, next, size, overlap);
      ReassembleFrom(text, next, size, overlap);
      DropFirstOverlap(text, next, size, overlap);
      assert cs[0] == text[start..end] && cs[1..] == rest;
      SliceJoin(text, start, end);
    }
  }

  /**
   * Consecutive chunks overlap by exactly `overlap` characters: every chunk but the
   * last is full-size, and its last `overlap` characters begin the next chunk.
   */
  lemma {:induction false} ChunkOverlap(text: string, start: nat, size: nat, overlap: nat, i: nat)
    requires overlap < size
    requires i + 1 < |ChunksFrom(text, start, size, overlap)|
    ensures var cs := ChunksFrom(text, start, size, overlap);
      |cs[i]| == size && overlap < |cs[i + 1]| && cs[i][size - overlap..] == cs[i + 1][..overlap]
    decreases i
  {
    var end := WindowEnd(text, start, size);
    var next := end - overlap;
    var rest := ChunksFrom(text, next, size, overlap);
    assert ChunksFrom(text, start, size, overlap)[1..] == rest;
    if i == 0 {
      var end2 := WindowEnd(text, next, size);
      assert rest[0] == text[next..end2];
    } else {
      ChunkOverlap(text, next, size, overlap, i - 1);
    }
  }

  /** The last element of a non-empty sequence. */
  function Last<T>(s: seq<T>): T
    requires s != []
  {
    s[|s| - 1]
  }

  /** The last element of a list with a head is the last element of its tail. */
  lemma LastOfCons<T>(x: T, rest: seq<T>)
    requires rest != []
    ensures Last([x] + rest) == Last(rest)
  {
  }

  /** The last chunk ends the text. */
  lemma {:induction false} LastChunkEndsText(text: string, start: nat, size: nat, overlap: nat)
    requires overlap < size
    requires start < |text|
    ensures ChunksFrom(text, start, size, overlap) != []
    ensures |Last(ChunksFrom(text, start, size, overlap))| <= |text|
    ensures Last(ChunksFrom(text, start, size, overlap))
         == text[|text| - |Last(ChunksFrom(text, start, size, overlap))|..]
    decreases |text| - start
  {
    var end := WindowEnd(text, start, size);
    ChunksFromStep(text, start, size, overlap, end);
    if end < |text| {
      var next := end - overlap;
      LastChunkEndsText(text, next, size, overlap);
      LastOfCons(text[start..end], ChunksFrom(text, next, size, overlap));
    } else {
      assert text[start..end] == text[|text| - (end - start)..];
    }
  }

  /**
   * The properties of the whole chunking: no text, no chunks; otherwise the first
   * chunk starts the text, the last ends it, and the chunks reassemble it.
   */
  lemma ChunksCoverText(text: string, size: nat, overlap: nat)
    requires overlap < size
    ensures (Chunks(text, size, overlap) == []) == (text == [])
    ensures text != [] ==>
      && |Chunks(text, size, overlap)[0]| <= |text|
      && Chunks(text, size, overlap)[0] == text[..|Chunks(text, size, overlap)[0]|]
    ensures text != [] ==>
      && |Last(Chunks(text, size, overlap))| <= |text|
      && Last(Chunks(text, size, overlap)) == text[|text| - |Last(Chunks(text, size, overlap))|..]
    ensures Reassemble(Chunks(text, size, overlap), overlap) == text
  {
    ChunksFromEmpty(text, 0, size, overlap);
    if text != [] {
      ChunksFromStep(text, 0, size, overlap, WindowEnd(text, 0, size));
      ReassembleFrom(text, 0, size, overlap);
      LastChunkEndsText(text, 0, size, overlap);
    }
  }

  /** Everything `chunk_text` promises, stated of the specification. */
  lemma ChunksSpec(text: string, size: nat, overlap: nat)
    requires overlap < size
    ensures (Chunks(text, size, overlap) == []) == (text == [])
    ensures forall i :: 0 <= i < |Chunks(text, size, overlap)| ==> 0 < |Chunks(text, size, overlap)[i]| <= size
    ensures Reassemble(Chunks(text, size, overlap), overlap) == text
    ensures |text| <= size && text != [] ==> Chunks(text, size, overlap) == [text]
  {
    ChunksCoverText(text, size, overlap);
    ChunkBounds(text, 0, size, overlap);
    if |text| <= size && text != [] {
      assert Chunks(text, size, overlap) == [text[0..|text|]];
    }
  }

  /** The 1200-character document with the default window: windows 0-500, 450-950 and 900-1200. */
  lemma DefaultWindowsOf1200(text: string)
    requires |text| == 1200
    ensures Chunks(text, 500, 50) == [text[0..500], text[450..950], text[900..1200]]
  {
    assert ChunksFrom(text, 900, 500, 50) == [text[900..1200]];
    assert ChunksFrom(text, 450, 500, 50) == [text[450..950]] + ChunksFrom(text, 900, 500, 50);
  }

  /** One iteration of the chunking loop keeps the emitted chunks a prefix of the result. */
  lemma LoopStep(text: string, size: nat, overlap: nat, done: seq<string>, start: nat, end: nat, all: seq<string>)
    requires overlap < size && start < |text| && end == WindowEnd(text, start, size)
    requires done + ChunksFrom(text, start, size, overlap) == all
    ensures start < end <= |text|
    ensures end == |text| ==> done + [text[start..end]] == all
    ensures end < |text| ==>
      && overlap < end && start < end - overlap < |text|
      && (done + [text[start..end]]) + ChunksFrom(text, end - overlap, size, overlap) == all
  {
    ChunksFromStep(text, start, size, overlap, end);
    if end < |text| {
      AppendAssoc(done, [text[start..end]], ChunksFrom(text, end - overlap, size, overlap));
    }
  }

  /**
   * `chunk_text(text, chunk_size, overlap)`: emits exactly `Chunks`, whose
   * properties `ChunksSpec` states. The loop only advances when
   * `chunk_size > overlap`, which the source never checks: it is required here.
   */
  method ChunkText(text: string, chunkSize: nat, overlap: nat) returns (chunks: seq<string>)
    requires overlap < chunkSize
    ensures chunks == Chunks(text, chunkSize, overlap)
  {
    chunks := [];
    ghost var all := Chunks(text, chunkSize, overlap);
    ChunksFromEmpty(text, 0, chunkSize, overlap);
    var start: int := 0;
    while start < |text|
      invariant 0 <= start
      invariant chunks + ChunksFrom(text, start, chunkSize, overlap) == all
      invariant start < |text| || chunks == all
      decreases |text| - start
    {
      var end := start + chunkSize;
      if end > |text| {
        end := |text|;
      }
      LoopStep(text, chunkSize, overlap, chunks, start, end, all);
      var chunk := text[start..end];
      chunks := chunks + [chunk];
      start := end - overlap;
      if end == |text| {
        assert chunks == all;
        break;
      }
      assert chunks + ChunksFrom(text, end - overlap, chunkSize, overlap) == all;
    }
  }
}
