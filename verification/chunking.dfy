/**
 * The transcript chunker (core/chunking.py): overlapping windows of
 * `chunkSize` words that advance by `chunkSize - overlap` words.
 */
module Chunking {
  import opened Text

  const DefaultChunkSize: int := 800
  const DefaultOverlap: int := 100

  function Min(a: int, b: int): int {
    if a <= b then a else b
  }

  /** The word windows of `range(start, len(words), step)`: window i is `words[i:i + size]`. */
  function WindowSlices(words: seq<string>, start: nat, size: int, step: nat): seq<seq<string>>
    requires step > 0
    decreases |words| - start
  {
    if start >= |words| then []
    else [Slice(words, start, start + size)] + WindowSlices(words, start + step, size, step)
  }

  /** Each window joined with single spaces; a window whose join is blank is dropped. */
  function JoinNonBlank(windows: seq<seq<string>>): seq<string>
    decreases |windows|
  {
    if |windows| == 0 then []
    else
      var chunk := Join(windows[0], " ");
      (if Strip(chunk) != "" then [chunk] else []) + JoinNonBlank(windows[1..])
  }

  /**
   * `chunk_text(text, chunk_size, overlap)`. An empty text gives no chunks; a
   * text of fewer than `chunkSize` words is returned whole; a zero step makes
   * Python's `range` raise, and the handler returns the text whole; a negative
   * step makes the range empty.
   */
  function ChunkText(text: string, chunkSize: int, overlap: int): (chunks: seq<string>)
    ensures text == "" ==> chunks == []
    ensures text != "" && |Split(text)| < chunkSize ==> chunks == [text]
    ensures text != "" && |Split(text)| >= chunkSize && overlap == chunkSize ==> chunks == [text]
    ensures text != "" && |Split(text)| >= chunkSize && overlap > chunkSize ==> chunks == []
  {
    if text == "" then []
    else
      var words := Split(text);
      if |words| < chunkSize then [text]
      else
        var step := chunkSize - overlap;
        if step == 0 then [text]
        else if step < 0 then []
        else JoinNonBlank(WindowSlices(words, 0, chunkSize, step))
  }

  // ---------------------------------------------------------------------------
  // The closed form of the windows
  // ---------------------------------------------------------------------------

  /** The first word index of window `k`: k * step, written as repeated addition. */
  function Start(k: nat, step: nat): nat {
    if k == 0 then 0 else Start(k - 1, step) + step
  }

  lemma {:induction false} StartIsProduct(k: nat, step: nat)
    ensures Start(k, step) == k * step
  {
    if k > 0 {
      StartIsProduct(k - 1, step);
      assert (k - 1) * step + step == k * step;
    }
  }

  /** ceil(n / step): how many multiples of `step` lie below `n`. */
  function ChunkCount(n: nat, step: nat): nat
    requires step > 0
  {
    (n + step - 1) / step
  }

  /** Index one past the last word of window `k`. */
  function WindowEnd(n: nat, size: nat, step: nat, k: nat): nat {
    Min(Start(k, step) + size, n)
  }

  /** Word index `j` lies inside window `k` of windows of `size` words overlapping by `overlap`. */
  predicate WindowCovers(n: nat, size: nat, overlap: int, k: nat, j: nat)
    requires overlap <= size
  {
    Start(k, size - overlap) <= j < WindowEnd(n, size, size - overlap, k)
  }

  lemma MulMonotone(a: int, b: int, step: nat)
    ensures a <= b ==> a * step <= b * step
  {
  }

  /** Integer division is determined by the multiples of `step` that bracket the dividend. */
  lemma DivBracket(y: int, step: int, c: int)
    requires step > 0 && c * step <= y < c * step + step
    ensures y / step == c
  {
    var q := y / step;
    assert q * step <= y < q * step + step;
    MulMonotone(c + 1, q, step);
    MulMonotone(q + 1, c, step);
    assert (c + 1) * step == c * step + step;
    assert (q + 1) * step == q * step + step;
  }

  /** The window count c is ceil(n / step) when windows c-1 and c straddle n. */
  lemma CountIsCeil(n: nat, step: nat, c: nat)
    requires step > 0 && c > 0
    requires Start(c - 1, step) < n <= Start(c, step)
    ensures c == ChunkCount(n, step)
  {
    StartIsProduct(c - 1, step);
    StartIsProduct(c, step);
    assert (c - 1) * step == c * step - step;
    DivBracket(n + step - 1, step, c);
  }

  lemma SubrangeWords(words: seq<string>, a: nat, e: nat)
    requires AllWords(words)
    requires a <= e <= |words|
    ensures AllWords(words[a..e])
  {
    var ws := words[a..e];
    forall i | 0 <= i < |ws| ensures IsWord(ws[i]) { assert ws[i] == words[a + i]; }
  }

  /** How many windows start at or after `start`, in terms of Start. */
  lemma {:induction false} WindowsCount(words: seq<string>, start: nat, size: nat, step: nat)
    requires 1 <= step
    ensures var c := |WindowSlices(words, start, size, step)|;
      && (start >= |words| ==> c == 0)
      && (start < |words| ==> c > 0 && start + Start(c - 1, step) < |words| <= start + Start(c, step))
    decreases |words| - start
  {
    if start < |words| {
      var c := |WindowSlices(words, start, size, step)|;
      WindowsCount(words, start + step, size, step);
      if start + step < |words| {
        StartShift(c - 1, step);
        StartShift(c, step);
      } else {
        assert Start(1, step) == step;
      }
    }
  }

  /** Window k from `start` is the words from start + Start(k) up to size further, cut at the end. */
  lemma {:induction false} WindowsElement(words: seq<string>, start: nat, size: nat, step: nat, k: nat)
    requires 1 <= size && 1 <= step
    requires k < |WindowSlices(words, start, size, step)|
    ensures start + Start(k, step) < |words|
    ensures var a := start + Start(k, step);
      WindowSlices(words, start, size, step)[k] == words[a..Min(a + size, |words|)]
    decreases k
  {
    if k > 0 {
      WindowsElement(words, start + step, size, step, k - 1);
      StartShift(k, step);
    } else {
      assert Slice(words, start, start + size) == words[start..Min(start + size, |words|)];
    }
  }

  /** Joining windows of real words keeps every one of them. */
  lemma {:induction false} JoinNonBlankKeepsAll(windows: seq<seq<string>>)
    requires forall k | 0 <= k < |windows| :: |windows[k]| > 0 && AllWords(windows[k])
    ensures |JoinNonBlank(windows)| == |windows|
    ensures forall k | 0 <= k < |windows| :: JoinNonBlank(windows)[k] == Join(windows[k], " ")
    decreases |windows|
  {
    if |windows| > 0 {
      JoinWordsNotBlank(windows[0], " ");
      JoinNonBlankKeepsAll(windows[1..]);
    }
  }

  /** Start(k) == step + Start(k - 1), read from the other end. */
  lemma StartShift(k: nat, step: nat)
    requires k > 0
    ensures Start(k, step) == step + Start(k - 1, step)
  {
  }

  /** Window k is the non-empty run of real words from Start(k) up to `size` further, cut at the end. */
  predicate SlicedWindows(words: seq<string>, windows: seq<seq<string>>, size: nat, step: nat) {
    forall k {:trigger windows[k]} | 0 <= k < |windows| ::
      && Start(k, step) < WindowEnd(|words|, size, step, k) <= |words|
      && windows[k] == words[Start(k, step)..WindowEnd(|words|, size, step, k)]
      && |windows[k]| > 0 && AllWords(windows[k])
  }

  /** Chunk i is the words of window i joined with single spaces. */
  predicate JoinedWindows(words: seq<string>, chunks: seq<string>, size: nat, step: nat) {
    forall i {:trigger chunks[i]} | 0 <= i < |chunks| ::
      Start(i, step) < WindowEnd(|words|, size, step, i) <= |words|
      && chunks[i] == Join(words[Start(i, step)..WindowEnd(|words|, size, step, i)], " ")
  }

  /** The windows over a non-empty word list, in closed form. */
  lemma {:induction false} WindowSlicesClosedForm(words: seq<string>, size: nat, step: nat)
    requires AllWords(words) && |words| > 0
    requires 1 <= size && 1 <= step
    ensures |WindowSlices(words, 0, size, step)| == ChunkCount(|words|, step)
    ensures SlicedWindows(words, WindowSlices(words, 0, size, step), size, step)
  {
    var windows := WindowSlices(words, 0, size, step);
    WindowsCount(words, 0, size, step);
    CountIsCeil(|words|, step, |windows|);
    forall k | 0 <= k < |windows|
      ensures Start(k, step) < WindowEnd(|words|, size, step, k) <= |words|
      ensures windows[k] == words[Start(k, step)..WindowEnd(|words|, size, step, k)]
      ensures |windows[k]| > 0 && AllWords(windows[k])
    {
      WindowSliceAt(words, size, step, k);
    }
  }

  /** Window k, read off the recursive definition. */
  lemma {:induction false} WindowSliceAt(words: seq<string>, size: nat, step: nat, k: nat)
    requires AllWords(words)
    requires 1 <= size && 1 <= step
    requires k < |WindowSlices(words, 0, size, step)|
    ensures Start(k, step) < WindowEnd(|words|, size, step, k) <= |words|
    ensures WindowSlices(words, 0, size, step)[k] == words[Start(k, step)..WindowEnd(|words|, size, step, k)]
    ensures AllWords(WindowSlices(words, 0, size, step)[k])
  {
    WindowsElement(words, 0, size, step, k);
    var a := Start(k, step);
    var e := WindowEnd(|words|, size, step, k);
    assert e == Min(0 + a + size, |words|);
    SubrangeWords(words, a, e);
  }

  /** Joining sliced windows keeps every window, each joined with single spaces. */
  lemma JoinedOfSliced(words: seq<string>, windows: seq<seq<string>>, size: nat, step: nat)
    requires SlicedWindows(words, windows, size, step)
    ensures |JoinNonBlank(windows)| == |windows|
    ensures JoinedWindows(words, JoinNonBlank(windows), size, step)
  {
    JoinNonBlankKeepsAll(windows);
    var chunks := JoinNonBlank(windows);
    forall i | 0 <= i < |chunks|
      ensures Start(i, step) < WindowEnd(|words|, size, step, i) <= |words|
      ensures chunks[i] == Join(words[Start(i, step)..WindowEnd(|words|, size, step, i)], " ")
    {
      assert chunks[i] == Join(windows[i], " ");
    }
  }

  lemma ChunkTextIsJoinedWindows(text: string, chunkSize: int, overlap: int)
    requires text != ""
    requires 1 <= chunkSize <= |Split(text)|
    requires overlap < chunkSize
    ensures ChunkText(text, chunkSize, overlap) == JoinNonBlank(WindowSlices(Split(text), 0, chunkSize, chunkSize - overlap))
  {
  }

  /**
   * A long text has ceil(N / step) chunks, chunk k being the words from
   * k * step up to chunkSize further (cut at the end) joined with single
   * spaces; the blank-chunk filter never drops one.
   */
  lemma {:induction false} ChunkTextClosedForm(text: string, chunkSize: int, overlap: int)
    requires text != ""
    requires 1 <= chunkSize <= |Split(text)|
    requires overlap < chunkSize
    ensures |ChunkText(text, chunkSize, overlap)| == ChunkCount(|Split(text)|, chunkSize - overlap)
    ensures JoinedWindows(Split(text), ChunkText(text, chunkSize, overlap), chunkSize, chunkSize - overlap)
  {
    var words := Split(text);
    var step := chunkSize - overlap;
    WindowSlicesClosedForm(words, chunkSize, step);
    JoinedOfSliced(words, WindowSlices(words, 0, chunkSize, step), chunkSize, step);
    ChunkTextIsJoinedWindows(text, chunkSize, overlap);
  }

  /** Every chunk holds between 1 and `size` words. */
  predicate ChunksWithin(chunks: seq<string>, size: int) {
    forall k | 0 <= k < |chunks| :: 1 <= |Split(chunks[k])| <= size
  }

  /** Every chunk of a long text holds between 1 and chunkSize words. */
  lemma {:induction false} ChunkWords(text: string, chunkSize: int, overlap: int)
    requires text != ""
    requires 1 <= chunkSize <= |Split(text)|
    requires overlap < chunkSize
    ensures ChunksWithin(ChunkText(text, chunkSize, overlap), chunkSize)
  {
    var words := Split(text);
    var chunks := ChunkText(text, chunkSize, overlap);
    assert JoinedWindows(words, chunks, chunkSize, chunkSize - overlap) by {
      ChunkTextClosedForm(text, chunkSize, overlap);
    }
    WindowWidths(words, chunks, chunkSize, chunkSize - overlap);
  }

  /** Joined windows of at most `size` real words hold between 1 and `size` words. */
  lemma WindowWidths(words: seq<string>, chunks: seq<string>, size: nat, step: nat)
    requires AllWords(words)
    requires JoinedWindows(words, chunks, size, step)
    ensures ChunksWithin(chunks, size)
  {
    JoinedResplit(words, chunks, size, step);
    forall k | 0 <= k < |chunks|
      ensures 1 <= |Split(chunks[k])| <= size
    {
    }
  }

  lemma {:induction false} ChunkTextCount(text: string, chunkSize: int, overlap: int)
    requires text != ""
    requires 1 <= chunkSize <= |Split(text)|
    requires overlap < chunkSize
    ensures |ChunkText(text, chunkSize, overlap)| == ChunkCount(|Split(text)|, chunkSize - overlap)
  {
    ChunkTextClosedForm(text, chunkSize, overlap);
  }

  /** The window whose start is the last one at or before `j` is among the first `ChunkCount` windows. */
  lemma CoveringWindow(n: nat, step: nat, j: nat) returns (k: nat)
    requires step > 0
    requires j < n
    ensures k < ChunkCount(n, step)
    ensures Start(k, step) <= j < Start(k, step) + step
  {
    k := j / step;
    StartIsProduct(k, step);
    var count := ChunkCount(n, step);
    CountBound(n, step);
    StartIsProduct(count, step);
    if count <= k {
      MulMonotone(count, k, step);
    }
  }

  /** With a non-negative overlap every word index of a long text lies in some chunk's window. */
  lemma {:induction false} ChunkCoverage(text: string, chunkSize: int, overlap: int, j: nat)
    requires text != ""
    requires 1 <= chunkSize <= |Split(text)|
    requires 0 <= overlap < chunkSize
    requires j < |Split(text)|
    ensures exists k | 0 <= k < |ChunkText(text, chunkSize, overlap)| ::
      WindowCovers(|Split(text)|, chunkSize, overlap, k, j)
  {
    ChunkTextCount(text, chunkSize, overlap);
    var k := WindowCovering(|Split(text)|, chunkSize, overlap, j);
  }

  /** Some window among the first `ChunkCount` covers word index `j`. */
  lemma WindowCovering(n: nat, size: nat, overlap: int, j: nat) returns (k: nat)
    requires 0 <= overlap < size
    requires j < n
    ensures k < ChunkCount(n, size - overlap)
    ensures WindowCovers(n, size, overlap, k, j)
  {
    k := CoveringWindow(n, size - overlap, j);
  }

  lemma CountBound(n: nat, step: nat)
    requires step > 0
    ensures n <= ChunkCount(n, step) * step
  {
    var y := n + step - 1;
    var q := y / step;
    assert q * step <= y < q * step + step;
  }

  /** When chunk k is full size, its last `overlap` words are the first `overlap` words of chunk k+1. */
  lemma {:induction false} ChunkOverlap(text: string, chunkSize: int, overlap: int, k: nat)
    requires text != ""
    requires 1 <= chunkSize <= |Split(text)|
    requires 0 <= overlap < chunkSize
    requires k + 1 < |ChunkText(text, chunkSize, overlap)|
    requires Start(k, chunkSize - overlap) + chunkSize <= |Split(text)|
    ensures |Split(ChunkText(text, chunkSize, overlap)[k])| == chunkSize
    ensures overlap <= |Split(ChunkText(text, chunkSize, overlap)[k + 1])|
    ensures Split(ChunkText(text, chunkSize, overlap)[k])[chunkSize - overlap..]
         == Split(ChunkText(text, chunkSize, overlap)[k + 1])[..overlap]
  {
    var words := Split(text);
    var step := chunkSize - overlap;
    ChunkTextClosedForm(text, chunkSize, overlap);
    OverlapOfChunks(words, ChunkText(text, chunkSize, overlap), chunkSize, step, k);
  }

  /** Chunk i re-splits into the words of window i. */
  predicate ResplitsIntoWindows(words: seq<string>, chunks: seq<string>, size: nat, step: nat) {
    forall i {:trigger chunks[i]} | 0 <= i < |chunks| ::
      Start(i, step) < WindowEnd(|words|, size, step, i) <= |words|
      && Split(chunks[i]) == words[Start(i, step)..WindowEnd(|words|, size, step, i)]
  }

  /** Joined windows of real words split back into those windows. */
  lemma {:induction false} JoinedResplit(words: seq<string>, chunks: seq<string>, size: nat, step: nat)
    requires AllWords(words)
    requires JoinedWindows(words, chunks, size, step)
    ensures ResplitsIntoWindows(words, chunks, size, step)
  {
    forall i | 0 <= i < |chunks|
      ensures Split(chunks[i]) == words[Start(i, step)..WindowEnd(|words|, size, step, i)]
    {
      var c := chunks[i];
      var a := Start(i, step);
      var e := WindowEnd(|words|, size, step, i);
      SubrangeWords(words, a, e);
      SplitJoin(words[a..e]);
    }
  }

  /** Consecutive joined windows `step` apart share `chunkSize - step` words. */
  lemma OverlapOfChunks(words: seq<string>, chunks: seq<string>, chunkSize: nat, step: nat, k: nat)
    requires 1 <= step <= chunkSize
    requires k + 1 < |chunks|
    requires Start(k, step) + chunkSize <= |words|
    requires AllWords(words)
    requires JoinedWindows(words, chunks, chunkSize, step)
    ensures |Split(chunks[k])| == chunkSize
    ensures chunkSize - step <= |Split(chunks[k + 1])|
    ensures Split(chunks[k])[step..] == Split(chunks[k + 1])[..chunkSize - step]
  {
    var a := Start(k, step);
    var e := WindowEnd(|words|, chunkSize, step, k + 1);
    JoinedResplit(words, chunks, chunkSize, step);
    assert Start(k + 1, step) == a + step;
    assert WindowEnd(|words|, chunkSize, step, k) == a + chunkSize;
    OverlapOfWindows(words, Split(chunks[k]), Split(chunks[k + 1]), a, step, chunkSize, e);
  }

  /** Two windows `step` apart share the last `size - step` words of the first. */
  lemma OverlapOfWindows(words: seq<string>, cw0: seq<string>, cw1: seq<string>, a: nat, step: nat, size: nat, e: nat)
    requires step <= size && a + size <= e <= |words|
    requires cw0 == words[a..a + size] && cw1 == words[a + step..e]
    ensures |cw0| == size && size - step <= |cw1|
    ensures cw0[step..] == cw1[..size - step]
  {
  }

  /** With the defaults (800 words, 100 overlap) an 800-word transcript gives exactly two chunks. */
  lemma DefaultChunkingOf800Words(text: string)
    requires text != "" && |Split(text)| == 800
    ensures |ChunkText(text, DefaultChunkSize, DefaultOverlap)| == 2
  {
    ChunkTextClosedForm(text, DefaultChunkSize, DefaultOverlap);
    assert ChunkCount(800, 700) == 2;
  }
}
