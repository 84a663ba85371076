/** `chunk_text`: split a text into words and cut the word sequence into
    windows of `size` words, a new window starting every `size - overlap`
    words, each window joined back with single spaces. */
module Chunker {
  import opened Text

  /** The defaults `summarize_query` relies on. */
  const ChunkSize: nat := 1500
  const ChunkOverlap: nat := 300

  function Min(a: int, b: int): int {
    if a <= b then a else b
  }

  /** Python's `range(start, stop, step)` for a positive step: `start`,
      `start + step`, ... while below `stop`. */
  function Range(start: nat, stop: nat, step: nat): (r: seq<nat>)
    requires step > 0
    ensures r == [] <==> stop <= start
    ensures forall k :: 0 <= k < |r| ==> start <= r[k] < stop
    decreases stop - start
  {
    if stop <= start then [] else [start] + Range(start + step, stop, step)
  }

  /** Consecutive elements of a range are `step` apart. */
  lemma {:induction false} RangeNext(start: nat, stop: nat, step: nat, k: nat)
    requires step > 0 && k + 1 < |Range(start, stop, step)|
    ensures Range(start, stop, step)[k + 1] == Range(start, stop, step)[k] + step
    decreases stop - start
  {
    if k > 0 {
      RangeNext(start + step, stop, step, k - 1);
    }
  }

  /** The range stops at the first element whose successor reaches `stop`. */
  lemma {:induction false} RangeLast(start: nat, stop: nat, step: nat)
    requires step > 0 && start < stop
    ensures var r := Range(start, stop, step);
            stop <= r[|r| - 1] + step
    decreases stop - start
  {
    if start + step < stop {
      RangeLast(start + step, stop, step);
    }
  }

  /** The `k`-th element of `range(start, stop, step)` is `start + k * step`. */
  lemma {:induction false} RangeAt(start: nat, stop: nat, step: nat, k: nat)
    requires step > 0 && k < |Range(start, stop, step)|
    ensures Range(start, stop, step)[k] == start + k * step
    decreases stop - start
  {
    if k > 0 {
      RangeAt(start + step, stop, step, k - 1);
      assert (k - 1) * step + step == k * step;
    }
  }

  /** The word windows of `chunk_text`. The comprehension runs over
      `range(0, len(words), size - overlap)`; a negative step makes that
      range empty, and a zero step makes it raise, which callers never do. */
  function Windows(words: seq<string>, size: nat, overlap: nat): (cs: seq<seq<string>>)
    requires size != overlap
    ensures words == [] ==> cs == []
    ensures size < overlap ==> cs == []
  {
    if size < overlap then [] else WindowsAt(words, Range(0, |words|, size - overlap), size)
  }

  /** `[words[i:i + size] for i in starts]`. */
  function WindowsAt(words: seq<string>, starts: seq<nat>, size: nat): (cs: seq<seq<string>>)
    requires forall k :: 0 <= k < |starts| ==> starts[k] <= |words|
    ensures |cs| == |starts|
    ensures forall k :: 0 <= k < |starts| ==> cs[k] == Window(words, starts[k], size)
  {
    if starts == [] then [] else [Window(words, starts[0], size)] + WindowsAt(words, starts[1..], size)
  }

  /** `words[start:start + size]`, clipped at the end as Python slices are. */
  function Window(words: seq<string>, start: nat, size: nat): seq<string>
    requires start <= |words|
  {
    words[start..Min(start + size, |words|)]
  }

  /** `chunk_text(text, size, overlap)`. */
  function ChunkText(text: string, size: nat, overlap: nat): (chunks: seq<string>)
    requires size != overlap
    ensures |chunks| == |Windows(Split(text), size, overlap)|
    ensures Split(text) == [] ==> chunks == []
    ensures size < overlap ==> chunks == []
  {
    JoinEach(Windows(Split(text), size, overlap))
  }

  /** `[" ".join(w) for w in windows]`. */
  function JoinEach(windows: seq<seq<string>>): (chunks: seq<string>)
    ensures |chunks| == |windows|
    ensures forall k :: 0 <= k < |windows| ==> chunks[k] == Join(" ", windows[k])
  {
    if windows == [] then [] else [Join(" ", windows[0])] + JoinEach(windows[1..])
  }

  /** `x / d` is the unique `q` with `q * d <= x < (q + 1) * d`. */
  lemma DivUnique(x: int, d: int, q: int)
    requires d > 0 && q * d <= x < q * d + d
    ensures x / d == q
  {
    var r := x / d;
    assert x == d * r + x % d;
    if r > q {
      MulMonotone(d, q + 1, r);
    } else if r < q {
      MulMonotone(d, r + 1, q);
    }
  }

  lemma MulMonotone(d: nat, a: int, b: int)
    requires a <= b
    ensures d * a <= d * b
  {
    assert d * b - d * a == d * (b - a);
  }

  /** `range(0, n, step)` has `ceil(n / step)` elements. */
  lemma RangeCount(n: nat, step: nat)
    requires step > 0
    ensures |Range(0, n, step)| == (n + step - 1) / step
  {
    var m := |Range(0, n, step)|;
    if n == 0 {
      DivUnique(step - 1, step, 0);
    } else {
      RangeLast(0, n, step);
      RangeAt(0, n, step, m - 1);
      assert m * step == (m - 1) * step + step;
      DivUnique(n + step - 1, step, m);
    }
  }

  /** Window `k` starts at the `k`-th element of the range and holds
      between one and `size` words. */
  lemma WindowAt(words: seq<string>, size: nat, overlap: nat, k: nat)
    requires overlap < size
    requires k < |Windows(words, size, overlap)|
    ensures var start := Range(0, |words|, size - overlap)[k];
            start < |words| &&
            Windows(words, size, overlap)[k] == Window(words, start, size) &&
            0 < |Windows(words, size, overlap)[k]| <= size
  {
  }

  /** With `n` words there are `ceil(n / (size - overlap))` windows. */
  lemma WindowCount(words: seq<string>, size: nat, overlap: nat)
    requires overlap < size
    ensures |Windows(words, size, overlap)| == (|words| + (size - overlap) - 1) / (size - overlap)
  {
    RangeCount(|words|, size - overlap);
  }

  /** When no more than `overlap` words remain at a window's start, that
      window is a suffix of the window before it: it brings no new word. */
  lemma TrailingWindowInsidePrevious(words: seq<string>, size: nat, overlap: nat, k: nat)
    requires overlap < size
    requires 0 < k < |Windows(words, size, overlap)|
    requires |words| - Range(0, |words|, size - overlap)[k] <= overlap
    ensures size - overlap <= |Windows(words, size, overlap)[k - 1]|
    ensures Windows(words, size, overlap)[k] == Windows(words, size, overlap)[k - 1][size - overlap..]
  {
    var step := size - overlap;
    var starts := Range(0, |words|, step);
    WindowAt(words, size, overlap, k);
    WindowAt(words, size, overlap, k - 1);
    RangeNext(0, |words|, step, k - 1);
    WindowTail(words, starts[k - 1], step, size);
  }

  /** A window that starts `step` words after another and reaches the end of
      the words is the other window with its first `step` words dropped. */
  lemma WindowTail(words: seq<string>, a: nat, step: nat, size: nat)
    requires step < size && a + step <= |words| <= a + size
    ensures Window(words, a + step, size) == Window(words, a, size)[step..]
  {
  }

  /** The first window, followed by every later window with its first
      `min(overlap, len)` words dropped. */
  function Stitch(windows: seq<seq<string>>, overlap: nat): (ws: seq<string>)
    ensures windows == [] ==> ws == []
  {
    if windows == [] then []
    else if |windows| == 1 then windows[0]
    else
      var last := windows[|windows| - 1];
      Stitch(windows[..|windows| - 1], overlap) + last[Min(overlap, |last|)..]
  }

  /** Stitching the first `j` of a run of windows whose starts are
      `size - overlap` apart, beginning at 0, gives the words up to the end
      of window `j - 1`. */
  lemma {:induction false} StitchPrefix(words: seq<string>, W: seq<seq<string>>, starts: seq<nat>,
                                        size: nat, overlap: nat, j: nat)
    requires overlap < size && |W| == |starts| && 1 <= j <= |W|
    requires starts[0] == 0
    requires forall k :: 0 <= k < |W| ==> starts[k] < |words| && W[k] == Window(words, starts[k], size)
    requires forall k :: 0 < k < |W| ==> starts[k] == starts[k - 1] + (size - overlap)
    ensures Stitch(W[..j], overlap) == words[..Min(starts[j - 1] + size, |words|)]
  {
    if j == 1 {
      assert W[..1] == [W[0]];
    } else {
      StitchPrefix(words, W, starts, size, overlap, j - 1);
      assert starts[j - 1] == starts[j - 2] + (size - overlap);
      assert W[j - 1] == Window(words, starts[j - 1], size);
      StitchStep(words, W, starts[j - 2], size, overlap, j);
    }
  }

  /** One more window extends the stitched prefix to that window's end. */
  lemma StitchStep(words: seq<string>, W: seq<seq<string>>, p: nat, size: nat, overlap: nat, j: nat)
    requires overlap < size && 2 <= j <= |W|
    requires p + (size - overlap) < |words|
    requires W[j - 1] == Window(words, p + (size - overlap), size)
    requires Stitch(W[..j - 1], overlap) == words[..Min(p + size, |words|)]
    ensures Stitch(W[..j], overlap) == words[..Min(p + (size - overlap) + size, |words|)]
  {
    assert W[..j][..j - 1] == W[..j - 1];
    Glue(words, p, size, overlap);
  }

  /** The words up to the end of one window, followed by the next window
      without its first `min(overlap, len)` words, are the words up to the
      end of the next window. */
  lemma Glue(words: seq<string>, p: nat, size: nat, overlap: nat)
    requires overlap < size && p + (size - overlap) < |words|
    ensures var s := p + (size - overlap);
            var last := Window(words, s, size);
            words[..Min(p + size, |words|)] + last[Min(overlap, |last|)..] == words[..Min(s + size, |words|)]
  {
    var n := |words|;
    var s := p + (size - overlap);
    var last := Window(words, s, size);
    var end := Min(s + size, n);
    if p + size <= n {
      assert Min(overlap, |last|) == overlap;
      assert last[overlap..] == words[p + size..end];
    } else {
      assert last[Min(overlap, |last|)..] == [];
    }
  }

  /** Consecutive elements of `range(0, n, step)` are `step` apart. */
  lemma RangeSteps(n: nat, step: nat)
    requires step > 0
    ensures var starts := Range(0, n, step);
            forall k :: 0 < k < |starts| ==> starts[k] == starts[k - 1] + step
  {
    var starts := Range(0, n, step);
    forall k | 0 < k < |starts|
      ensures starts[k] == starts[k - 1] + step
    {
      RangeNext(0, n, step, k - 1);
    }
  }

  /** Stitching a whole run of windows whose last window reaches the end
      of the words gives back all the words. */
  lemma StitchAll(words: seq<string>, W: seq<seq<string>>, starts: seq<nat>, size: nat, overlap: nat)
    requires overlap < size && |W| == |starts| && 1 <= |W|
    requires starts[0] == 0
    requires forall k :: 0 <= k < |W| ==> starts[k] < |words| && W[k] == Window(words, starts[k], size)
    requires forall k :: 0 < k < |W| ==> starts[k] == starts[k - 1] + (size - overlap)
    requires |words| <= starts[|W| - 1] + size
    ensures Stitch(W, overlap) == words
  {
    StitchPrefix(words, W, starts, size, overlap, |W|);
    assert W[..|W|] == W;
    assert words[..|words|] == words;
  }

  /** Dropping each window's overlap and concatenating rebuilds the word
      sequence exactly: no word is lost, duplicated or reordered. */
  lemma Reassemble(words: seq<string>, size: nat, overlap: nat)
    requires overlap < size
    ensures Stitch(Windows(words, size, overlap), overlap) == words
  {
    var W := Windows(words, size, overlap);
    var step := size - overlap;
    var starts := Range(0, |words|, step);
    if words != [] {
      assert W == WindowsAt(words, starts, size);
      RangeSteps(|words|, step);
      RangeLast(0, |words|, step);
      StitchAll(words, W, starts, size, overlap);
    }
  }

  /** A slice of a word sequence is a word sequence. */
  lemma SliceAllWords(words: seq<string>, a: nat, b: nat)
    requires AllWords(words) && a <= b <= |words|
    ensures AllWords(words[a..b])
  {
    assert forall i :: 0 <= i < b - a ==> words[a..b][i] == words[a + i];
  }

  /** Each chunk string splits back into its window of words. */
  lemma ChunkWords(text: string, size: nat, overlap: nat, k: nat)
    requires overlap < size
    requires k < |ChunkText(text, size, overlap)|
    ensures Split(ChunkText(text, size, overlap)[k]) == Windows(Split(text), size, overlap)[k]
  {
    var words := Split(text);
    var W := Windows(words, size, overlap);
    assert ChunkText(text, size, overlap)[k] == Join(" ", W[k]);
    assert AllWords(W[k]) by {
      WindowAt(words, size, overlap, k);
      var t := Range(0, |words|, size - overlap)[k];
      SliceAllWords(words, t, Min(t + size, |words|));
    }
    SplitJoin(W[k]);
  }

  /** `chunk_text`'s chunks, split back into words and stitched with the
      overlaps removed, give exactly the words of the text. */
  lemma ChunkTextReassemble(text: string, size: nat, overlap: nat)
    requires overlap < size
    ensures var chunks := ChunkText(text, size, overlap);
            Stitch(seq(|chunks|, k requires 0 <= k < |chunks| => Split(chunks[k])), overlap) == Split(text)
  {
    var chunks := ChunkText(text, size, overlap);
    var W := Windows(Split(text), size, overlap);
    var back := seq(|chunks|, k requires 0 <= k < |chunks| => Split(chunks[k]));
    forall k | 0 <= k < |chunks|
      ensures back[k] == W[k]
    {
      ChunkWords(text, size, overlap, k);
    }
    assert back == W;
    Reassemble(Split(text), size, overlap);
  }

  /** With `n` words there are `ceil(n / (size - overlap))` chunks. */
  lemma ChunkCount(text: string, size: nat, overlap: nat)
    requires overlap < size
    ensures |ChunkText(text, size, overlap)| == (|Split(text)| + (size - overlap) - 1) / (size - overlap)
  {
    WindowCount(Split(text), size, overlap);
  }

  /** Chunk `k` is the words from `start = k * (size - overlap)` up to
      `size` further, clipped at the end, joined by single spaces: between
      one and `size` words. */
  lemma ChunkAt(text: string, size: nat, overlap: nat, k: nat, start: nat)
    requires overlap < size
    requires k < |ChunkText(text, size, overlap)|
    requires start == k * (size - overlap)
    ensures var words := Split(text);
            start < |words| &&
            ChunkText(text, size, overlap)[k] == Join(" ", Window(words, start, size)) &&
            0 < |Split(ChunkText(text, size, overlap)[k])| <= size
  {
    var words := Split(text);
    RangeAt(0, |words|, size - overlap, k);
    WindowAt(words, size, overlap, k);
    ChunkWords(text, size, overlap, k);
  }
}
