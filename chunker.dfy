/**
 * The offline ingestion script: `chunkText`, the greedy whitespace-aligned
 * chunker, and the loop of `chunkAndEmbed` that numbers and stores the chunks.
 */
module Chunker {
  import opened Results
  import opened Text

  /** The chunk size the ingestion script passes to the chunker. */
  const IngestChunkSize: nat := 1000

  /** The cut first tried for the chunk that starts at `start`:
      `chunkSize` characters further, or the end of the text. */
  function TentativeEnd(text: string, start: nat, chunkSize: nat): (e: nat)
    requires start <= |text|
    ensures start <= e <= |text| && e - start <= chunkSize
    ensures e == |text| || e == start + chunkSize
  {
    if start + chunkSize > |text| then |text| else start + chunkSize
  }

  /** The inner retraction loop: the cut moves left from `end` until the
      character before it is whitespace or it reaches `start`. The result is
      the largest position in `start..end` that is `start` or follows a
      whitespace character. */
  function Retract(text: string, start: nat, end: nat): (e: nat)
    requires start <= end <= |text|
    ensures start <= e <= end
    ensures e > start ==> IsWhitespace(text[e - 1])
    ensures forall k :: e <= k < end ==> !IsWhitespace(text[k])
    decreases end
  {
    if end > start && !IsWhitespace(text[end - 1]) then Retract(text, start, end - 1) else end
  }

  /** `Retract` is determined by its contract: the only position `e` in
      `start..end` that is `start` or follows whitespace, with no whitespace
      in `e..end`. */
  lemma {:induction false} RetractIsLargestCut(text: string, start: nat, end: nat, e: nat)
    requires start <= e <= end <= |text|
    requires e > start ==> IsWhitespace(text[e - 1])
    requires forall k :: e <= k < end ==> !IsWhitespace(text[k])
    ensures Retract(text, start, end) == e
    decreases end
  {
    if end > e {
      RetractIsLargestCut(text, start, end - 1, e);
    }
  }

  /** Where the chunk starting at `start` ends. */
  function Cut(text: string, start: nat, chunkSize: nat): (e: nat)
    requires start <= |text|
    ensures start <= e <= |text|
  {
    Retract(text, start, TentativeEnd(text, start, chunkSize))
  }

  predicate WindowHasWhitespace(text: string, i: nat, chunkSize: nat) {
    exists k :: i <= k < i + chunkSize && k < |text| && IsWhitespace(text[k])
  }

  /** The inputs on which `chunkText` terminates: the text is empty, or the
      chunk size is positive, the text ends in whitespace and every
      `chunkSize` consecutive characters include a whitespace character
      (no whitespace-free run is `chunkSize` long). */
  predicate Chunkable(text: string, chunkSize: nat) {
    || text == []
    || (&& chunkSize > 0
        && IsWhitespace(text[|text| - 1])
        && forall i :: 0 <= i && i + chunkSize <= |text| ==> WindowHasWhitespace(text, i, chunkSize))
  }

  /** On a chunkable text every cut makes progress. */
  lemma CutAdvances(text: string, chunkSize: nat, start: nat)
    requires Chunkable(text, chunkSize) && start < |text|
    ensures Cut(text, start, chunkSize) > start
  {
    var t := TentativeEnd(text, start, chunkSize);
    if t == |text| {
      assert IsWhitespace(text[t - 1]);
    } else {
      assert WindowHasWhitespace(text, start, chunkSize);
      var k :| start <= k < start + chunkSize && k < |text| && IsWhitespace(text[k]);
      assert IsWhitespace(text[k]);
    }
  }

  /** The untrimmed slices `text.slice(startIndex, endIndex)` from `start` on. */
  function SlicesFrom(text: string, chunkSize: nat, start: nat): seq<string>
    requires Chunkable(text, chunkSize) && start <= |text|
    decreases |text| - start
  {
    if start == |text| then []
    else
      CutAdvances(text, chunkSize, start);
      var e := Cut(text, start, chunkSize);
      [text[start..e]] + SlicesFrom(text, chunkSize, e)
  }

  /** The first slice runs from `start` to the cut, and the rest follow from the cut. */
  lemma SlicesFromCons(text: string, chunkSize: nat, start: nat)
    requires Chunkable(text, chunkSize) && start < |text|
    ensures var e := Cut(text, start, chunkSize);
      var slices := SlicesFrom(text, chunkSize, start);
      && start < e && |slices| > 0
      && slices[0] == text[start..e] && slices[1..] == SlicesFrom(text, chunkSize, e)
  {
    CutAdvances(text, chunkSize, start);
    var e := Cut(text, start, chunkSize);
    assert SlicesFrom(text, chunkSize, start) == [text[start..e]] + SlicesFrom(text, chunkSize, e);
  }

  function Slices(text: string, chunkSize: nat): seq<string>
    requires Chunkable(text, chunkSize)
  {
    SlicesFrom(text, chunkSize, 0)
  }

  /** `trim()` applied to every slice. */
  function TrimAll(slices: seq<string>): (chunks: seq<string>)
    ensures |chunks| == |slices|
  {
    if slices == [] then [] else [Trim(slices[0])] + TrimAll(slices[1..])
  }

  function Concat(slices: seq<string>): (s: string) {
    if slices == [] then [] else slices[0] + Concat(slices[1..])
  }

  /** The retraction loop of `chunkText`: moves `endIndex` left while the
      character before it is not whitespace, never past `startIndex`. */
  method AdjustEnd(text: string, startIndex: nat, tentative: nat) returns (endIndex: nat)
    requires startIndex <= tentative <= |text|
    ensures endIndex == Retract(text, startIndex, tentative)
  {
    endIndex := tentative;
    while endIndex > startIndex && !IsWhitespace(text[endIndex - 1])
      invariant startIndex <= endIndex <= tentative
      invariant forall k :: endIndex <= k < tentative ==> !IsWhitespace(text[k])
    {
      endIndex := endIndex - 1;
    }
    RetractIsLargestCut(text, startIndex, tentative, endIndex);
  }

  /** `chunkText(text, chunkSize)`. Each round takes the greedy cut from
      `startIndex`, pushes the trimmed slice and continues from the cut. The
      result is the trimmed slices: one per slice, none longer than
      `chunkSize`, with no whitespace at either end, and none at all for an
      empty text. */
  method ChunkText(text: string, chunkSize: nat) returns (chunks: seq<string>)
    requires Chunkable(text, chunkSize)
    ensures chunks == TrimAll(Slices(text, chunkSize))
    ensures text == [] ==> chunks == []
    ensures forall k :: 0 <= k < |chunks| ==> |chunks[k]| <= chunkSize
    ensures forall k :: 0 <= k < |chunks| && chunks[k] != [] ==>
      !IsWhitespace(chunks[k][0]) && !IsWhitespace(chunks[k][|chunks[k]| - 1])
  {
    chunks := [];
    var startIndex := 0;
    while startIndex < |text|
      invariant startIndex <= |text|
      invariant chunks + TrimAll(SlicesFrom(text, chunkSize, startIndex)) == TrimAll(Slices(text, chunkSize))
      decreases |text| - startIndex
    {
      var endIndex := startIndex + chunkSize;
      if endIndex > |text| {
        endIndex := |text|;
      }
      endIndex := AdjustEnd(text, startIndex, endIndex);
      assert endIndex == Cut(text, startIndex, chunkSize);
      PushChunk(text, chunkSize, startIndex, chunks);
      chunks := chunks + [Trim(text[startIndex..endIndex])];
      startIndex := endIndex;
    }
    TrimmedChunks(text, chunkSize);
  }

  /** One round of the outer loop: the next chunk is the trimmed greedy slice. */
  lemma ChunkStep(text: string, chunkSize: nat, start: nat)
    requires Chunkable(text, chunkSize) && start < |text|
    ensures var e := Cut(text, start, chunkSize);
      && start < e
      && TrimAll(SlicesFrom(text, chunkSize, start)) == [Trim(text[start..e])] + TrimAll(SlicesFrom(text, chunkSize, e))
  {
    CutAdvances(text, chunkSize, start);
    var e := Cut(text, start, chunkSize);
    TrimAllCons(text[start..e], SlicesFrom(text, chunkSize, e));
  }

  /** The loop invariant survives a round: the chunks so far, then the one
      pushed, then the trimmed slices from the cut. */
  lemma PushChunk(text: string, chunkSize: nat, start: nat, done: seq<string>)
    requires Chunkable(text, chunkSize) && start < |text|
    ensures var e := Cut(text, start, chunkSize);
      && start < e
      && done + TrimAll(SlicesFrom(text, chunkSize, start))
         == (done + [Trim(text[start..e])]) + TrimAll(SlicesFrom(text, chunkSize, e))
  {
    ChunkStep(text, chunkSize, start);
  }

  lemma TrimAllCons(slice: string, rest: seq<string>)
    ensures TrimAll([slice] + rest) == [Trim(slice)] + TrimAll(rest)
  {
    assert ([slice] + rest)[1..] == rest;
  }

  /** The chunks, the trimmed slices, are at most `chunkSize` long and have
      no whitespace at either end; an empty text has none. */
  lemma TrimmedChunks(text: string, chunkSize: nat)
    requires Chunkable(text, chunkSize)
    ensures var chunks := TrimAll(Slices(text, chunkSize));
      && (text == [] ==> chunks == [])
      && (forall k :: 0 <= k < |chunks| ==> |chunks[k]| <= chunkSize)
      && (forall k :: 0 <= k < |chunks| && chunks[k] != [] ==>
            !IsWhitespace(chunks[k][0]) && !IsWhitespace(chunks[k][|chunks[k]| - 1]))
  {
    var slices := Slices(text, chunkSize);
    SlicesBounded(text, chunkSize, 0);
    forall k | 0 <= k < |slices|
      ensures var c := TrimAll(slices)[k];
        |c| <= chunkSize && (c != [] ==> !IsWhitespace(c[0]) && !IsWhitespace(c[|c| - 1]))
    {
      TrimAllAt(slices, k);
      TrimSpec(slices[k]);
      assert |slices[k]| <= chunkSize;
    }
  }

  lemma {:induction false} TrimAllAt(slices: seq<string>, k: nat)
    requires k < |slices|
    ensures TrimAll(slices)[k] == Trim(slices[k])
  {
    if k > 0 {
      TrimAllAt(slices[1..], k - 1);
    }
  }

  /** The untrimmed slices are contiguous: they concatenate to the text. */
  lemma {:induction false} SlicesConcat(text: string, chunkSize: nat, start: nat)
    requires Chunkable(text, chunkSize) && start <= |text|
    ensures Concat(SlicesFrom(text, chunkSize, start)) == text[start..]
    decreases |text| - start
  {
    if start < |text| {
      CutAdvances(text, chunkSize, start);
      var e := Cut(text, start, chunkSize);
      var s := SlicesFrom(text, chunkSize, start);
      SlicesFromCons(text, chunkSize, start);
      SlicesConcat(text, chunkSize, e);
      assert text[start..] == text[start..e] + text[e..];
    }
  }

  /** Every slice is non-empty, at most `chunkSize` long and ends with a
      whitespace character: every cut sits right after whitespace. */
  lemma {:induction false} SlicesBounded(text: string, chunkSize: nat, start: nat)
    requires Chunkable(text, chunkSize) && start <= |text|
    ensures forall k :: 0 <= k < |SlicesFrom(text, chunkSize, start)| ==>
      var s := SlicesFrom(text, chunkSize, start)[k];
      0 < |s| <= chunkSize && IsWhitespace(s[|s| - 1])
    decreases |text| - start
  {
    if start < |text| {
      CutAdvances(text, chunkSize, start);
      var e := Cut(text, start, chunkSize);
      SlicesBounded(text, chunkSize, e);
      var s := SlicesFrom(text, chunkSize, start);
      SlicesFromCons(text, chunkSize, start);
      forall k | 0 <= k < |s|
        ensures 0 < |s[k]| <= chunkSize && IsWhitespace(s[k][|s[k]| - 1])
      {
        if k > 0 {
          assert s[k] == s[1..][k - 1];
        }
      }
    }
  }

  /** Where slice `k` of the slices from `start` begins: right after the
      slices before it. */
  function SliceOffset(text: string, chunkSize: nat, start: nat, k: nat): nat
    requires Chunkable(text, chunkSize) && start <= |text|
    requires k <= |SlicesFrom(text, chunkSize, start)|
  {
    start + |Concat(SlicesFrom(text, chunkSize, start)[..k])|
  }

  /** Each slice is the greedy cut taken at its own offset in the text:
      slice `k` starts where slices `0..k` end and stops at `Cut`, the largest
      admissible cut within `chunkSize` characters. */
  lemma {:induction false} SlicesGreedy(text: string, chunkSize: nat, start: nat, k: nat)
    requires Chunkable(text, chunkSize) && start <= |text|
    requires k < |SlicesFrom(text, chunkSize, start)|
    ensures SliceOffset(text, chunkSize, start, k) < |text|
    ensures SlicesFrom(text, chunkSize, start)[k]
         == text[SliceOffset(text, chunkSize, start, k)..Cut(text, SliceOffset(text, chunkSize, start, k), chunkSize)]
    decreases |text| - start
  {
    SlicesFromCons(text, chunkSize, start);
    var e := Cut(text, start, chunkSize);
    var slices := SlicesFrom(text, chunkSize, start);
    if k > 0 {
      SlicesGreedy(text, chunkSize, e, k - 1);
      ConcatTake(slices, k);
      assert |slices[0]| == e - start;
      assert SliceOffset(text, chunkSize, start, k) == SliceOffset(text, chunkSize, e, k - 1);
      assert slices[k] == slices[1..][k - 1];
    } else {
      assert slices[..k] == [];
    }
  }

  /** `startIndex` after `rounds` rounds of the outer loop, whether or not
      the text is chunkable. */
  function Walk(text: string, chunkSize: nat, rounds: nat): (p: nat)
    ensures p <= |text|
  {
    if rounds == 0 then 0 else Cut(text, Walk(text, chunkSize, rounds - 1), chunkSize)
  }

  /** At `p` the outer loop runs and the cut does not move: an empty chunk is
      pushed and `startIndex` stays `p` forever. */
  predicate Stalls(text: string, chunkSize: nat, p: nat) {
    p < |text| && Cut(text, p, chunkSize) == p
  }

  /** The first `k` slices are the first one followed by the next `k - 1`. */
  lemma ConcatTake(slices: seq<string>, k: nat)
    requires 0 < k <= |slices|
    ensures Concat(slices[..k]) == slices[0] + Concat(slices[1..][..k - 1])
  {
    assert slices[..k][1..] == slices[1..][..k - 1];
  }

  /** `Chunkable` is exactly the termination condition: off it, the loop
      reaches a position where it makes no more progress. */
  lemma StallUnlessChunkable(text: string, chunkSize: nat)
    requires !Chunkable(text, chunkSize)
    ensures exists rounds :: Stalls(text, chunkSize, Walk(text, chunkSize, rounds))
  {
    var n := |text|;
    if chunkSize == 0 {
      assert Stalls(text, chunkSize, Walk(text, chunkSize, 0));
    } else if !IsWhitespace(text[n - 1]) {
      forall s: nat | s <= n - 1 ensures Cut(text, s, chunkSize) <= n - 1 {
      }
      TrappedWalkStalls(text, chunkSize, n - 1);
    } else {
      var i :| 0 <= i && i + chunkSize <= n && !WindowHasWhitespace(text, i, chunkSize);
      var p := Retract(text, 0, i);
      forall k | p <= k < i + chunkSize ensures !IsWhitespace(text[k]) {
        if k >= i {
          assert !(i <= k < i + chunkSize && k < |text| && IsWhitespace(text[k]));
        }
      }
      forall s: nat | s <= p ensures Cut(text, s, chunkSize) <= p {
        var e := Cut(text, s, chunkSize);
        if e > p {
          assert false;
        }
      }
      TrappedWalkStalls(text, chunkSize, p);
    }
  }

  /** If no cut from a position up to `bound` goes past `bound`, the walk
      stays there and, strictly rising while it moves, must stall. */
  lemma TrappedWalkStalls(text: string, chunkSize: nat, bound: nat)
    requires bound < |text|
    requires forall s: nat :: s <= bound ==> Cut(text, s, chunkSize) <= bound
    ensures exists rounds :: Stalls(text, chunkSize, Walk(text, chunkSize, rounds))
  {
    if forall r: nat :: r <= bound ==> !Stalls(text, chunkSize, Walk(text, chunkSize, r)) {
      forall r: nat | r <= bound ensures Walk(text, chunkSize, r) < |text| {
        WalkTrapped(text, chunkSize, bound, r);
      }
      WalkRises(text, chunkSize, bound + 1);
      WalkTrapped(text, chunkSize, bound, bound + 1);
      assert false;
    }
  }

  /** Trapped below `bound`, the walk stays below `bound`. */
  lemma {:induction false} WalkTrapped(text: string, chunkSize: nat, bound: nat, rounds: nat)
    requires bound < |text|
    requires forall s: nat :: s <= bound ==> Cut(text, s, chunkSize) <= bound
    ensures Walk(text, chunkSize, rounds) <= bound
  {
    if rounds > 0 {
      WalkTrapped(text, chunkSize, bound, rounds - 1);
    }
  }

  /** While it stays inside the text without stalling, the walk rises by
      at least one position per round. */
  lemma {:induction false} WalkRises(text: string, chunkSize: nat, rounds: nat)
    requires forall r: nat :: r < rounds ==>
      Walk(text, chunkSize, r) < |text| && !Stalls(text, chunkSize, Walk(text, chunkSize, r))
    ensures Walk(text, chunkSize, rounds) >= rounds
  {
    if rounds > 0 {
      WalkRises(text, chunkSize, rounds - 1);
      var prev := Walk(text, chunkSize, rounds - 1);
      assert Walk(text, chunkSize, rounds) == Cut(text, prev, chunkSize) > prev;
    }
  }

  /** A row of the `nelson_chunks` table: the chunk, `metadata.index` and
      the chunk's embedding. */
  datatype ChunkRow<E> = ChunkRow(content: string, index: nat, embedding: E)

  /** The `for` loop of `chunkAndEmbed` over `chunks.entries()`. For each
      chunk in order it awaits `getEmbedding`, given here as `embed(index,
      chunk)` with `None` for a request that throws, and then inserts the row.
      Row `k` holds chunk `k` and `metadata.index = k`. A throwing request ends
      the run: the rows inserted before it stay and no later row is inserted. */
  method InsertChunks<E>(chunks: seq<string>, embed: (nat, string) -> Option<E>)
    returns (rows: seq<ChunkRow<E>>)
    ensures |rows| <= |chunks|
    ensures forall k :: 0 <= k < |rows| ==>
      embed(k, chunks[k]).Some? && rows[k] == ChunkRow(chunks[k], k, embed(k, chunks[k]).value)
    ensures |rows| < |chunks| ==> embed(|rows|, chunks[|rows|]).None?
  {
    rows := [];
    var index := 0;
    while index < |chunks|
      invariant index == |rows| <= |chunks|
      invariant forall k :: 0 <= k < index ==>
        embed(k, chunks[k]).Some? && rows[k] == ChunkRow(chunks[k], k, embed(k, chunks[k]).value)
    {
      var embedding := embed(index, chunks[index]);
      if embedding.None? {
        return;
      }
      rows := rows + [ChunkRow(chunks[index], index, embedding.value)];
      index := index + 1;
    }
  }

  /** `chunkAndEmbed`: chunks the corpus text by 1000 characters and inserts
      one numbered row per chunk, in order, until an embedding request throws. */
  method ChunkAndEmbed<E>(content: string, embed: (nat, string) -> Option<E>)
    returns (rows: seq<ChunkRow<E>>)
    requires Chunkable(content, IngestChunkSize)
    ensures var chunks := TrimAll(Slices(content, IngestChunkSize));
      && |rows| <= |chunks|
      && (forall k :: 0 <= k < |rows| ==>
            embed(k, chunks[k]).Some? && rows[k] == ChunkRow(chunks[k], k, embed(k, chunks[k]).value))
      && (|rows| < |chunks| ==> embed(|rows|, chunks[|rows|]).None?)
  {
    var chunks := ChunkText(content, IngestChunkSize);
    rows := InsertChunks(chunks, embed);
  }
}
