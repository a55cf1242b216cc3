/** `chunk_text` of src/ingestion/ingestor.py: a sliding window over the
    characters of a text, `chunk_size` wide, moved `chunk_size - overlap`
    characters at a time. The functions specify the windows; the method runs
    the source's `while` loop. */
module Ingestor {
  import opened PyStrings

  /** The windows the loop appends once `start` has been reached. */
  function WindowsFrom(text: string, start: nat, size: int, step: nat): seq<string>
    requires step > 0
    decreases |text| - start
  {
    if start < |text| then [Slice(text, start, start + size)] + WindowsFrom(text, start + step, size, step)
    else []
  }

  /** `chunk_text(text, chunk_size, overlap)`. On a non-empty text it ends only
      when `start` moves forward, that is when `overlap < chunk_size`. */
  function Windows(text: string, size: int, overlap: int): seq<string>
    requires text == [] || overlap < size
  {
    if text == [] then [] else WindowsFrom(text, 0, size, size - overlap)
  }

  /** With `overlap < chunk_size` the empty text needs no case of its own. */
  lemma WindowsFromStart(text: string, size: int, overlap: int)
    requires overlap < size
    ensures Windows(text, size, overlap) == WindowsFrom(text, 0, size, size - overlap)
  {
  }

  /** `chunk_text`, as the source runs it. The loop ends because `start` rises by
      `chunk_size - overlap > 0` each turn. */
  method ChunkText(text: string, chunkSize: int, overlap: int) returns (chunks: seq<string>)
    requires text == [] || overlap < chunkSize
    ensures chunks == Windows(text, chunkSize, overlap)
  {
    chunks := [];
    var start := 0;
    while start < |text|
      invariant 0 <= start
      invariant text != [] ==>
        chunks + WindowsFrom(text, start, chunkSize, chunkSize - overlap) == Windows(text, chunkSize, overlap)
      invariant text == [] ==> chunks == []
      decreases |text| - start
    {
      var end := start + chunkSize;
      var window := Slice(text, start, end);
      ConcatAssoc(chunks, [window], WindowsFrom(text, start + chunkSize - overlap, chunkSize, chunkSize - overlap));
      chunks := chunks + [window];
      start := start + chunkSize - overlap;
    }
    assert text != [] ==> chunks + [] == chunks;
  }

  /** There are ceil((n - start) / step) windows from `start`: enough to reach
      the end of the text, and not one more. */
  lemma {:induction false} WindowsFromCount(text: string, start: nat, size: int, step: nat)
    requires step > 0
    ensures |WindowsFrom(text, start, size, step)| * step >= |text| - start
    ensures start < |text| ==> (|WindowsFrom(text, start, size, step)| - 1) * step < |text| - start
    ensures WindowsFrom(text, start, size, step) == [] <==> start >= |text|
    decreases |text| - start
  {
    if start < |text| {
      WindowsFromCount(text, start + step, size, step);
      var n := |WindowsFrom(text, start + step, size, step)|;
      assert (n + 1) * step == n * step + step;
      assert n * step == (n - 1) * step + step;
    }
  }

  /** `chunk_text` returns ceil(len(text) / step) windows, where step is
      `chunk_size - overlap`; none at all for the empty text. */
  lemma WindowsCount(text: string, size: int, overlap: int)
    requires overlap < size
    ensures |Windows(text, size, overlap)| * (size - overlap) >= |text|
    ensures text != [] ==> (|Windows(text, size, overlap)| - 1) * (size - overlap) < |text|
    ensures Windows(text, size, overlap) == [] <==> text == []
  {
    WindowsFromStart(text, size, overlap);
    WindowsFromCount(text, 0, size, size - overlap);
  }

  /** Where the `i`-th window starts: `i` steps into the text. */
  function WindowStart(i: nat, step: nat): nat {
    if i == 0 then 0 else WindowStart(i - 1, step) + step
  }

  lemma WindowStartNext(i: nat, step: nat)
    ensures WindowStart(i + 1, step) == WindowStart(i, step) + step
  {
  }

  /** The `i`-th start is `i * step`. */
  lemma {:induction false} WindowStartIsProduct(i: nat, step: nat)
    ensures WindowStart(i, step) == i * step
  {
    if i > 0 {
      WindowStartIsProduct(i - 1, step);
      assert (i - 1) * step + step == i * step;
    }
  }

  /** The window whose first `step` characters hold position `p`. */
  lemma {:induction false} StepContaining(p: nat, step: nat) returns (i: nat)
    requires step > 0
    ensures WindowStart(i, step) <= p < WindowStart(i, step) + step
    decreases p
  {
    if p < step {
      i := 0;
    } else {
      var j := StepContaining(p - step, step);
      i := j + 1;
    }
  }

  /** A window starts before the end of the text, and the rest follow one step on. */
  lemma WindowsFromHead(text: string, start: nat, size: int, step: nat)
    requires step > 0 && WindowsFrom(text, start, size, step) != []
    ensures start < |text|
    ensures WindowsFrom(text, start, size, step)
         == [Slice(text, start, start + size)] + WindowsFrom(text, start + step, size, step)
  {
  }

  /** The `i`-th window from `start` is the first one from `i` steps further on. */
  lemma {:induction false} WindowsFromSkip(text: string, start: nat, size: int, step: nat, i: nat)
    requires step > 0 && i < |WindowsFrom(text, start, size, step)|
    ensures WindowsFrom(text, start + WindowStart(i, step), size, step) != []
    ensures WindowsFrom(text, start, size, step)[i] == WindowsFrom(text, start + WindowStart(i, step), size, step)[0]
    decreases i
  {
    if i > 0 {
      WindowsFromHead(text, start, size, step);
      WindowsFromSkip(text, start + step, size, step, i - 1);
      WindowStartNext(i - 1, step);
      assert start + step + WindowStart(i - 1, step) == start + WindowStart(i, step);
    }
  }

  lemma WindowsFromAt(text: string, start: nat, size: int, step: nat, i: nat)
    requires step > 0 && i < |WindowsFrom(text, start, size, step)|
    ensures start + WindowStart(i, step) < |text|
    ensures WindowsFrom(text, start, size, step)[i]
         == Slice(text, start + WindowStart(i, step), start + WindowStart(i, step) + size)
  {
    WindowsFromSkip(text, start, size, step, i);
    WindowsFromHead(text, start + WindowStart(i, step), size, step);
  }

  /** The `i`-th window is `text[i * step:i * step + chunk_size]`, and it starts
      inside the text. */
  lemma WindowAt(text: string, size: int, overlap: int, i: nat)
    requires overlap < size && i < |Windows(text, size, overlap)|
    ensures WindowStart(i, size - overlap) < |text|
    ensures Windows(text, size, overlap)[i]
         == Slice(text, WindowStart(i, size - overlap), WindowStart(i, size - overlap) + size)
  {
    WindowsFromStart(text, size, overlap);
    WindowsFromAt(text, 0, size, size - overlap, i);
  }

  /** With `chunk_size > 0` every window holds between 1 and `chunk_size`
      characters: `text[start:start + chunk_size]` with `start < len(text)`. */
  lemma WindowSize(text: string, size: int, overlap: int, i: nat)
    requires 0 < size && overlap < size && i < |Windows(text, size, overlap)|
    ensures WindowStart(i, size - overlap) < |text|
    ensures 0 < |Windows(text, size, overlap)[i]| <= size
    ensures Windows(text, size, overlap)[i]
         == text[WindowStart(i, size - overlap)..Min(WindowStart(i, size - overlap) + size, |text|)]
  {
    WindowAt(text, size, overlap, i);
  }

  /** Later windows start further along. */
  lemma {:induction false} WindowStartMonotone(i: nat, j: nat, step: nat)
    ensures i <= j ==> WindowStart(i, step) <= WindowStart(j, step)
    decreases j
  {
    if i < j {
      WindowStartMonotone(i, j - 1, step);
    }
  }

  /** Stepping once per window carries the start past the end of the text. */
  lemma WindowsReachEnd(text: string, size: int, overlap: int)
    requires overlap < size
    ensures WindowStart(|Windows(text, size, overlap)|, size - overlap) >= |text|
  {
    WindowsCount(text, size, overlap);
    WindowStartIsProduct(|Windows(text, size, overlap)|, size - overlap);
  }

  /** With `0 <= overlap < chunk_size`, every character position of the text
      lies in some window, at the offset its position dictates. */
  lemma Coverage(text: string, size: int, overlap: int, p: nat) returns (i: nat)
    requires 0 <= overlap < size && p < |text|
    ensures i < |Windows(text, size, overlap)|
    ensures WindowStart(i, size - overlap) <= p < WindowStart(i, size - overlap) + |Windows(text, size, overlap)[i]|
    ensures Windows(text, size, overlap)[i][p - WindowStart(i, size - overlap)] == text[p]
  {
    var step := size - overlap;
    i := StepContaining(p, step);
    var n := |Windows(text, size, overlap)|;
    WindowsReachEnd(text, size, overlap);
    WindowStartMonotone(n, i, step);
    assert i < n;
    WindowSize(text, size, overlap, i);
    assert p < Min(WindowStart(i, step) + size, |text|);
  }

  /** Consecutive windows overlap by `overlap` characters: window `i + 1` starts
      `step` characters after window `i`, so what window `i` holds past its
      first `step` characters begins window `i + 1`; that shared part has
      `overlap` characters, or fewer where the text runs out. */
  lemma ConsecutiveOverlap(text: string, size: int, overlap: int, i: nat)
    requires 0 <= overlap < size && i + 1 < |Windows(text, size, overlap)|
    ensures size - overlap <= |Windows(text, size, overlap)[i]|
    ensures Windows(text, size, overlap)[i][size - overlap..]
         <= Windows(text, size, overlap)[i + 1]
    ensures |Windows(text, size, overlap)[i][size - overlap..]|
         == Min(overlap, |text| - WindowStart(i + 1, size - overlap))
  {
    var step := size - overlap;
    WindowSize(text, size, overlap, i);
    WindowSize(text, size, overlap, i + 1);
    WindowStartNext(i, step);
    SlicesOverlap(text, WindowStart(i, step), step, size);
  }

  /** Two slices `size` wide, the second `step` further on: the first one's
      part past `step` begins the second. */
  lemma SlicesOverlap(text: string, s: nat, step: nat, size: int)
    requires 0 < step <= size && s + step < |text|
    ensures step <= |text[s..Min(s + size, |text|)]|
    ensures text[s..Min(s + size, |text|)][step..] <= text[s + step..Min(s + step + size, |text|)]
    ensures |text[s..Min(s + size, |text|)][step..]| == Min(size - step, |text| - (s + step))
  {
    var hi := Min(s + size, |text|);
    assert text[s..hi][step..] == text[s + step..hi];
  }
}
