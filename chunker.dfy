/**
 * The sentence-aware chunker (`VectorStore.chunk_text`): sentences are
 * packed greedily into chunks under a word budget, and a new chunk starts
 * with the last `overlap_sentences` sentences of the chunk just emitted.
 *
 * Sentence splitting is a parameter (`tokenize`). The specification is given
 * on sentence indices: every chunk is the single-space join of a window
 * `sentences[lo..hi]`, and `Pack` computes the windows one sentence at a time.
 */
module Chunker {
  import opened Python

  /** `chunk_text`'s default arguments. */
  const DefaultChunkSize: int := 500
  const DefaultOverlap: int := 2

  /** The sentences `lo`, ..., `hi - 1` of the input. */
  datatype Window = Window(lo: nat, hi: nat)

  /**
   * Where the next chunk starts after `sentences[start..end]` was emitted:
   * the list is cut to `current[-overlap:]`, so for `overlap >= 1` the last
   * `overlap` sentences are kept (all of them if there are fewer), for
   * `overlap == 0` the whole list is kept, and a negative `overlap` drops
   * the first `-overlap` sentences.
   */
  function CarryStart(start: nat, end: nat, overlap: int): (lo: nat)
    requires start <= end
    ensures start <= lo <= end
  {
    var n := end - start;
    if overlap > 0 then start + Max(n - overlap, 0) else start + Min(-overlap, n)
  }

  /** The carried sentences are exactly Python's slice `current[-overlap:]` of the emitted ones. */
  lemma CarrySlice(sentences: seq<string>, start: nat, end: nat, overlap: int)
    requires start <= end <= |sentences|
    ensures sentences[CarryStart(start, end, overlap)..end] == SliceFrom(sentences[start..end], -overlap)
    ensures overlap >= 1 ==> CarryStart(start, end, overlap) == end - Min(overlap, end - start)
    ensures overlap == 0 ==> CarryStart(start, end, overlap) == start
  {
    var xs := sentences[start..end];
    var n := end - start;
    var d: nat;
    if overlap > 0 {
      d := Max(n - overlap, 0);
      assert SliceFrom(xs, -overlap) == xs[d..];
    } else {
      d := Min(-overlap, n);
      assert SliceFrom(xs, -overlap) == xs[d..];
    }
    assert CarryStart(start, end, overlap) == start + d;
    SliceShift(sentences, start, end, d);
  }

  lemma SliceShift(sentences: seq<string>, start: nat, end: nat, d: nat)
    requires start + d <= end <= |sentences|
    ensures sentences[start..end][d..] == sentences[start + d..end]
  {
  }

  /** The state of the packing loop after the first `i` sentences: the windows emitted so far, and where the current chunk starts. */
  datatype Packing = Packing(flushed: seq<Window>, start: nat)

  ghost predicate InBounds(ws: seq<Window>, n: nat) {
    forall k :: 0 <= k < |ws| ==> ws[k].lo < ws[k].hi <= n
  }

  /**
   * One turn of the packing loop on sentence `t`: the current chunk
   * `sentences[start..t]` is emitted when it is non-empty and its words plus
   * the sentence's words exceed `size`; the sentence is then appended (the
   * window of the current chunk is implicit: it runs from `start` to `t + 1`).
   */
  function Step(sentences: seq<string>, size: int, overlap: int, p: Packing, t: nat): (q: Packing)
    requires p.start <= t < |sentences|
    ensures q.start <= t
    ensures q == p || (q.flushed == p.flushed + [Window(p.start, t)] && q.start == CarryStart(p.start, t, overlap))
    ensures q != p <==> (SumWords(sentences[p.start..t]) + WordCount(sentences[t]) > size && p.start < t)
  {
    if SumWords(sentences[p.start..t]) + WordCount(sentences[t]) > size && p.start < t then
      Packing(p.flushed + [Window(p.start, t)], CarryStart(p.start, t, overlap))
    else p
  }

  /** The packing after the first `i` sentences. */
  function Pack(sentences: seq<string>, size: int, overlap: int, i: nat): (p: Packing)
    requires i <= |sentences|
    ensures p.start <= i && (i > 0 ==> p.start < i)
    ensures forall k :: 0 <= k < |p.flushed| ==> p.flushed[k].lo < p.flushed[k].hi < i
    decreases i
  {
    if i == 0 then Packing([], 0)
    else
      var p := Pack(sentences, size, overlap, i - 1);
      var q := Step(sentences, size, overlap, p, i - 1);
      assert forall k :: 0 <= k < |p.flushed| ==> q.flushed[k] == p.flushed[k];
      q
  }

  /** The windows of all chunks: those emitted in the loop, then the remaining current chunk if it is not empty. */
  function Windows(sentences: seq<string>, size: int, overlap: int): (ws: seq<Window>)
    ensures InBounds(ws, |sentences|)
    ensures sentences != [] ==> |ws| == |Pack(sentences, size, overlap, |sentences|).flushed| + 1
    ensures sentences == [] ==> ws == []
  {
    var p := Pack(sentences, size, overlap, |sentences|);
    if p.start < |sentences| then p.flushed + [Window(p.start, |sentences|)] else p.flushed
  }

  /** The chunk texts of some windows: each window's sentences joined by a single space. */
  function Texts(sentences: seq<string>, ws: seq<Window>): (r: seq<string>)
    requires InBounds(ws, |sentences|)
    ensures |r| == |ws|
  {
    seq(|ws|, k requires 0 <= k < |ws| => Join(" ", sentences[ws[k].lo..ws[k].hi]))
  }

  /** What `chunk_text` returns for a text whose sentences are `sentences`; there are no chunks exactly when there are no sentences. */
  function Chunks(sentences: seq<string>, size: int, overlap: int): (chunks: seq<string>)
    ensures chunks == [] <==> sentences == []
  {
    Texts(sentences, Windows(sentences, size, overlap))
  }

  /**
   * `VectorStore.chunk_text`: an empty text has no chunks; otherwise the
   * loop over the text's sentences keeps the emitted chunks, the current
   * sentences and their running word count.
   */
  method ChunkText(text: string, tokenize: string -> seq<string>, chunkSize: int, overlap: int)
    returns (chunks: seq<string>)
    ensures chunks == if text == "" then [] else Chunks(tokenize(text), chunkSize, overlap)
  {
    if text == "" {
      return [];
    }
    var sentences := tokenize(text);
    chunks := [];
    var current: seq<string> := [];
    var currentWordCount := 0;
    for i := 0 to |sentences|
      invariant Chunking(sentences, chunkSize, overlap, i, chunks, current, currentWordCount)
    {
      var sentence := sentences[i];
      var sentenceWordCount := WordCount(sentence);
      if currentWordCount + sentenceWordCount > chunkSize && current != [] {
        TurnFlush(sentences, chunkSize, overlap, i, chunks, current, currentWordCount);
        chunks := chunks + [Join(" ", current)];
        current := SliceFrom(current, -overlap);
        currentWordCount := WordCount(Join(" ", current));
      } else {
        TurnKeep(sentences, chunkSize, overlap, i, chunks, current, currentWordCount);
      }
      current := current + [sentence];
      currentWordCount := currentWordCount + sentenceWordCount;
    }
    ChunkingDone(sentences, chunkSize, overlap, chunks, current, currentWordCount);
    if current != [] {
      chunks := chunks + [Join(" ", current)];
    }
  }

  /** The loop state of `chunk_text` after `i` sentences, described by the packing after `i` sentences. */
  ghost predicate Chunking(sentences: seq<string>, size: int, overlap: int, i: nat,
                           chunks: seq<string>, current: seq<string>, count: int)
  {
    && i <= |sentences|
    && var p := Pack(sentences, size, overlap, i);
    && chunks == Texts(sentences, p.flushed)
    && current == sentences[p.start..i]
    && count == SumWords(current)
  }

  /** A turn of the loop that emits the current chunk keeps the loop state described. */
  lemma TurnFlush(sentences: seq<string>, size: int, overlap: int, i: nat,
                  chunks: seq<string>, current: seq<string>, count: int)
    requires i < |sentences| && Chunking(sentences, size, overlap, i, chunks, current, count)
    requires count + WordCount(sentences[i]) > size && current != []
    ensures var carried := SliceFrom(current, -overlap);
      Chunking(sentences, size, overlap, i + 1, chunks + [Join(" ", current)], carried + [sentences[i]],
               WordCount(Join(" ", carried)) + WordCount(sentences[i]))
  {
    var p := Pack(sentences, size, overlap, i);
    var q := Packing(p.flushed + [Window(p.start, i)], CarryStart(p.start, i, overlap));
    assert Pack(sentences, size, overlap, i + 1) == q;
    TextsSnoc(sentences, p.flushed, Window(p.start, i));
    CarrySlice(sentences, p.start, i, overlap);
    var carried := SliceFrom(current, -overlap);
    assert carried == sentences[q.start..i];
    WordCountJoin(carried);
    SliceSnoc(sentences, q.start, i);
    assert (carried + [sentences[i]])[..|carried|] == carried;
  }

  /** A turn of the loop that only appends the sentence keeps the loop state described. */
  lemma TurnKeep(sentences: seq<string>, size: int, overlap: int, i: nat,
                 chunks: seq<string>, current: seq<string>, count: int)
    requires i < |sentences| && Chunking(sentences, size, overlap, i, chunks, current, count)
    requires !(count + WordCount(sentences[i]) > size && current != [])
    ensures Chunking(sentences, size, overlap, i + 1, chunks, current + [sentences[i]], count + WordCount(sentences[i]))
  {
    var p := Pack(sentences, size, overlap, i);
    assert Pack(sentences, size, overlap, i + 1) == p;
    SliceSnoc(sentences, p.start, i);
    assert (current + [sentences[i]])[..|current|] == current;
  }

  /** After the last sentence, emitting the non-empty current chunk gives the chunks. */
  lemma ChunkingDone(sentences: seq<string>, size: int, overlap: int,
                     chunks: seq<string>, current: seq<string>, count: int)
    requires Chunking(sentences, size, overlap, |sentences|, chunks, current, count)
    ensures (if current != [] then chunks + [Join(" ", current)] else chunks) == Chunks(sentences, size, overlap)
  {
    var p := Pack(sentences, size, overlap, |sentences|);
    if current != [] {
      TextsSnoc(sentences, p.flushed, Window(p.start, |sentences|));
    }
  }

  lemma SliceSnoc(sentences: seq<string>, lo: nat, hi: nat)
    requires lo <= hi < |sentences|
    ensures sentences[lo..hi] + [sentences[hi]] == sentences[lo..hi + 1]
  {
  }

  lemma TextsSnoc(sentences: seq<string>, ws: seq<Window>, w: Window)
    requires InBounds(ws, |sentences|) && w.lo < w.hi <= |sentences|
    ensures InBounds(ws + [w], |sentences|)
    ensures Texts(sentences, ws + [w]) == Texts(sentences, ws) + [Join(" ", sentences[w.lo..w.hi])]
  {
    assert forall k :: 0 <= k < |ws| ==> (ws + [w])[k] == ws[k];
  }

  // ---------------------------------------------------------------------
  // Shape of the windows

  /** The next window starts where `current[-overlap:]` of the previous one starts and reaches past its end. */
  ghost predicate Linked(w: Window, next: Window, overlap: int) {
    w.lo <= w.hi && next.lo == CarryStart(w.lo, w.hi, overlap) && w.hi < next.hi
  }

  /** Windows over `n` sentences: none iff `n == 0`; the first starts at 0, the last ends at `n`, none is empty, and consecutive ones are linked. */
  ghost predicate WellChained(ws: seq<Window>, n: nat, overlap: int) {
    && (ws == [] <==> n == 0)
    && (ws != [] ==> ws[0].lo == 0 && ws[|ws| - 1].hi == n)
    && (forall k :: 0 <= k < |ws| ==> ws[k].lo < ws[k].hi)
    && (forall k :: 0 <= k < |ws| - 1 ==> Linked(ws[k], ws[k + 1], overlap))
  }

  /** The emitted windows followed by the window of the current chunk. */
  function Open(p: Packing, i: nat): seq<Window> {
    p.flushed + [Window(p.start, i)]
  }

  /** Emitting the current window and starting a linked one keeps the chain. */
  lemma ChainFlush(ws: seq<Window>, n: nat, overlap: int, i: nat)
    requires WellChained(ws, n, overlap) && n > 0 && n < i
    ensures var last := ws[|ws| - 1];
      WellChained(ws + [Window(CarryStart(last.lo, last.hi, overlap), i)], i, overlap)
  {
    var last := ws[|ws| - 1];
    var nw := ws + [Window(CarryStart(last.lo, last.hi, overlap), i)];
    assert forall k :: 0 <= k < |ws| ==> nw[k] == ws[k];
    assert Linked(nw[|ws| - 1], nw[|ws|], overlap);
  }

  /** Appending a sentence to the current window keeps the chain. */
  lemma ChainGrow(ws: seq<Window>, n: nat, overlap: int, i: nat)
    requires WellChained(ws, n, overlap) && n > 0 && n < i
    ensures WellChained(ws[..|ws| - 1] + [Window(ws[|ws| - 1].lo, i)], i, overlap)
  {
    var nw := ws[..|ws| - 1] + [Window(ws[|ws| - 1].lo, i)];
    assert forall k :: 0 <= k < |ws| - 1 ==> nw[k] == ws[k];
    if |ws| > 1 {
      assert Linked(ws[|ws| - 2], ws[|ws| - 1], overlap);
      assert Linked(nw[|ws| - 2], nw[|ws| - 1], overlap);
    }
  }

  lemma {:induction false} PackChained(sentences: seq<string>, size: int, overlap: int, i: nat)
    requires 0 < i <= |sentences|
    ensures WellChained(Open(Pack(sentences, size, overlap, i), i), i, overlap)
    decreases i
  {
    var p := Pack(sentences, size, overlap, i - 1);
    var t := i - 1;
    if i == 1 {
      assert p == Packing([], 0);
    } else {
      PackChained(sentences, size, overlap, i - 1);
      var prev := Open(p, t);
      if SumWords(sentences[p.start..t]) + WordCount(sentences[t]) > size && p.start < t {
        assert Pack(sentences, size, overlap, i) == Packing(prev, CarryStart(p.start, t, overlap));
        ChainFlush(prev, t, overlap, i);
      } else {
        assert Pack(sentences, size, overlap, i) == p;
        assert prev[..|prev| - 1] == p.flushed;
        ChainGrow(prev, t, overlap, i);
      }
    }
  }

  /** The chunk windows of any sentence list are well chained. */
  lemma WindowsChained(sentences: seq<string>, size: int, overlap: int)
    ensures WellChained(Windows(sentences, size, overlap), |sentences|, overlap)
  {
    if |sentences| > 0 {
      PackChained(sentences, size, overlap, |sentences|);
    }
  }

  /** No sentence is lost or split: every sentence lies inside some chunk's window. */
  lemma EverySentenceInAChunk(sentences: seq<string>, size: int, overlap: int, j: nat)
    requires j < |sentences|
    ensures var ws := Windows(sentences, size, overlap);
      exists k :: 0 <= k < |ws| && ws[k].lo <= j < ws[k].hi
  {
    var ws := Windows(sentences, size, overlap);
    WindowsChained(sentences, size, overlap);
    CoveredUpTo(ws, |sentences|, overlap, |ws| - 1, j);
  }

  lemma {:induction false} CoveredUpTo(ws: seq<Window>, n: nat, overlap: int, k: nat, j: nat)
    requires WellChained(ws, n, overlap) && k < |ws| && j < ws[k].hi
    ensures exists m :: 0 <= m <= k && ws[m].lo <= j < ws[m].hi
    decreases k
  {
    if k > 0 && j < ws[k].lo {
      assert Linked(ws[k - 1], ws[k], overlap);
      CoveredUpTo(ws, n, overlap, k - 1, j);
    }
  }

  /**
   * The overlap rule: for `overlap >= 1`, chunk `k + 1` begins with the last
   * `min(overlap, n)` of the `n` sentences of chunk `k`, followed by the
   * sentence that caused chunk `k` to be emitted.
   */
  lemma OverlapCarried(sentences: seq<string>, size: int, overlap: int, k: nat)
    requires overlap >= 1
    requires k + 1 < |Windows(sentences, size, overlap)|
    ensures var ws := Windows(sentences, size, overlap);
      var n := ws[k].hi - ws[k].lo;
      var m := Min(overlap, n);
      && m + 1 <= ws[k + 1].hi - ws[k + 1].lo
      && sentences[ws[k + 1].lo..ws[k + 1].hi][..m + 1]
           == sentences[ws[k].lo..ws[k].hi][n - m..] + [sentences[ws[k].hi]]
  {
    var ws := Windows(sentences, size, overlap);
    WindowsChained(sentences, size, overlap);
    assert Linked(ws[k], ws[k + 1], overlap);
    LinkedCarry(sentences, ws[k], ws[k + 1], overlap);
  }

  /** The overlap rule for one pair of linked windows. */
  lemma LinkedCarry(sentences: seq<string>, w: Window, next: Window, overlap: int)
    requires overlap >= 1 && Linked(w, next, overlap) && next.hi <= |sentences|
    ensures var n := w.hi - w.lo;
      var m := Min(overlap, n);
      && m + 1 <= next.hi - next.lo
      && sentences[next.lo..next.hi][..m + 1] == sentences[w.lo..w.hi][n - m..] + [sentences[w.hi]]
  {
    var n := w.hi - w.lo;
    var m := Min(overlap, n);
    var lo := w.hi - m;
    assert next.lo == lo;
    SliceTake(sentences, lo, next.hi, m + 1);
    SliceShift(sentences, w.lo, w.hi, n - m);
    SliceSnoc(sentences, lo, w.hi);
  }

  lemma SliceTake(sentences: seq<string>, start: nat, end: nat, k: nat)
    requires start + k <= end <= |sentences|
    ensures sentences[start..end][..k] == sentences[start..start + k]
  {
  }

  /** With `overlap == 0`, Python's `current[-0:]` keeps the whole list: every chunk starts where the previous one started. */
  lemma ZeroOverlapRepeats(sentences: seq<string>, size: int, k: nat)
    requires k + 1 < |Windows(sentences, size, 0)|
    ensures var ws := Windows(sentences, size, 0);
      ws[k + 1].lo == ws[k].lo && ws[k].hi < ws[k + 1].hi
  {
    var ws := Windows(sentences, size, 0);
    WindowsChained(sentences, size, 0);
    assert Linked(ws[k], ws[k + 1], 0);
    CarrySlice(sentences, ws[k].lo, ws[k].hi, 0);
  }

  // ---------------------------------------------------------------------
  // Word budget

  lemma {:induction false} SumWordsPrefix(ss: seq<string>, j: nat)
    requires j <= |ss|
    ensures SumWords(ss[..j]) <= SumWords(ss)
    decreases |ss|
  {
    if j < |ss| {
      assert ss[..|ss| - 1][..j] == ss[..j];
      SumWordsPrefix(ss[..|ss| - 1], j);
    } else {
      assert ss[..j] == ss;
    }
  }

  lemma SumWordsSnoc(ss: seq<string>, lo: nat, t: nat)
    requires lo <= t < |ss|
    ensures SumWords(ss[lo..t + 1]) == SumWords(ss[lo..t]) + WordCount(ss[t])
  {
    assert ss[lo..t + 1][..t - lo] == ss[lo..t];
  }

  lemma {:induction false} NoFlushWithinBudget(sentences: seq<string>, size: int, overlap: int, i: nat)
    requires i <= |sentences| && SumWords(sentences) <= size
    ensures Pack(sentences, size, overlap, i) == Packing([], 0)
    decreases i
  {
    if i > 0 {
      NoFlushWithinBudget(sentences, size, overlap, i - 1);
      SumWordsSnoc(sentences, 0, i - 1);
      assert sentences[0..i] == sentences[..i];
      SumWordsPrefix(sentences, i);
    }
  }

  /** A text whose sentences fit in the budget is one chunk: all its sentences joined by a space. */
  lemma FitsInOneChunk(sentences: seq<string>, size: int, overlap: int)
    requires sentences != [] && SumWords(sentences) <= size
    ensures Chunks(sentences, size, overlap) == [Join(" ", sentences)]
  {
    NoFlushWithinBudget(sentences, size, overlap, |sentences|);
    assert sentences[0..|sentences|] == sentences;
  }

  /** A single sentence is one chunk whatever its length: a sentence is never split. */
  lemma SingleSentence(sentence: string, size: int, overlap: int)
    ensures Chunks([sentence], size, overlap) == [sentence]
  {
    assert Pack([sentence], size, overlap, 1) == Packing([], 0);
    assert [sentence][0..1] == [sentence];
  }

  lemma FlushedGrows(sentences: seq<string>, size: int, overlap: int, i: nat, j: nat)
    requires i <= j <= |sentences|
    ensures |Pack(sentences, size, overlap, i).flushed| <= |Pack(sentences, size, overlap, j).flushed|
  {
    var k := i;
    while k < j
      invariant i <= k <= j
      invariant |Pack(sentences, size, overlap, i).flushed| <= |Pack(sentences, size, overlap, k).flushed|
    {
      FlushedStep(sentences, size, overlap, k + 1);
      k := k + 1;
    }
  }

  lemma FlushedStep(sentences: seq<string>, size: int, overlap: int, j: nat)
    requires 0 < j <= |sentences|
    ensures |Pack(sentences, size, overlap, j - 1).flushed| <= |Pack(sentences, size, overlap, j).flushed|
  {
    var p := Pack(sentences, size, overlap, j - 1);
    assert Pack(sentences, size, overlap, j) == Step(sentences, size, overlap, p, j - 1);
  }

  /** Two or more sentences form a single chunk exactly when their total word count is within the budget. */
  lemma SingleChunkIff(sentences: seq<string>, size: int, overlap: int)
    requires |sentences| >= 2
    ensures |Chunks(sentences, size, overlap)| == 1 <==> SumWords(sentences) <= size
  {
    var n := |sentences|;
    if SumWords(sentences) <= size {
      FitsInOneChunk(sentences, size, overlap);
    } else {
      var p := Pack(sentences, size, overlap, n - 1);
      if p.flushed == [] {
        PackChained(sentences, size, overlap, n - 1);
        assert p.start == 0;
        SumWordsSnoc(sentences, 0, n - 1);
        assert sentences[0..n] == sentences;
        assert |Pack(sentences, size, overlap, n).flushed| == 1;
      } else {
        FlushedGrows(sentences, size, overlap, n - 1, n);
      }
    }
  }

  /** Where window `k`'s own sentences begin: 0 for the first, else the sentence that caused the previous window to be emitted. */
  function Own(ws: seq<Window>, k: nat): nat
    requires k < |ws|
  {
    if k == 0 then 0 else ws[k - 1].hi
  }

  /**
   * Every chunk keeps to the word budget, except one whose appended
   * sentences are just the one that triggered the previous emission (or the
   * first sentence): that sentence is appended whatever its length.
   */
  ghost predicate Budgeted(sentences: seq<string>, size: int, ws: seq<Window>)
    requires InBounds(ws, |sentences|)
  {
    forall k :: 0 <= k < |ws| ==> SumWords(sentences[ws[k].lo..ws[k].hi]) <= size || ws[k].hi == Own(ws, k) + 1
  }

  /** Dropping the last window keeps the budget. */
  lemma BudgetedPrefix(sentences: seq<string>, size: int, ws: seq<Window>, w: Window)
    requires InBounds(ws + [w], |sentences|) && Budgeted(sentences, size, ws + [w])
    ensures InBounds(ws, |sentences|) && Budgeted(sentences, size, ws)
  {
    assert forall k :: 0 <= k < |ws| ==> (ws + [w])[k] == ws[k];
    forall k | 0 <= k < |ws| ensures Own(ws + [w], k) == Own(ws, k) {
    }
  }

  /** A window appended within the budget, or holding only one sentence after the previous window's end, keeps the budget. */
  lemma BudgetedSnoc(sentences: seq<string>, size: int, ws: seq<Window>, w: Window)
    requires InBounds(ws, |sentences|) && Budgeted(sentences, size, ws) && w.lo < w.hi <= |sentences|
    requires SumWords(sentences[w.lo..w.hi]) <= size || w.hi == (if ws == [] then 0 else ws[|ws| - 1].hi) + 1
    ensures InBounds(ws + [w], |sentences|) && Budgeted(sentences, size, ws + [w])
  {
    var cur := ws + [w];
    forall k | 0 <= k < |cur|
      ensures SumWords(sentences[cur[k].lo..cur[k].hi]) <= size || cur[k].hi == Own(cur, k) + 1
    {
      if k < |ws| {
        assert cur[k] == ws[k] && Own(cur, k) == Own(ws, k);
      } else {
        assert cur[k] == w && Own(cur, k) == if ws == [] then 0 else ws[|ws| - 1].hi;
      }
    }
  }

  lemma {:induction false} PackBudgeted(sentences: seq<string>, size: int, overlap: int, i: nat)
    requires 0 < i <= |sentences|
    ensures InBounds(Open(Pack(sentences, size, overlap, i), i), |sentences|)
    ensures Budgeted(sentences, size, Open(Pack(sentences, size, overlap, i), i))
    decreases i
  {
    var p := Pack(sentences, size, overlap, i - 1);
    var t := i - 1;
    if i == 1 {
      assert p == Packing([], 0);
      BudgetedSnoc(sentences, size, [], Window(0, 1));
      assert Open(Pack(sentences, size, overlap, i), i) == [] + [Window(0, 1)];
    } else {
      PackBudgeted(sentences, size, overlap, i - 1);
      var prev := Open(p, t);
      SumWordsSnoc(sentences, p.start, t);
      if SumWords(sentences[p.start..t]) + WordCount(sentences[t]) > size && p.start < t {
        var lo := CarryStart(p.start, t, overlap);
        assert Pack(sentences, size, overlap, i) == Packing(prev, lo);
        BudgetedSnoc(sentences, size, prev, Window(lo, i));
      } else {
        assert Pack(sentences, size, overlap, i) == p;
        BudgetedPrefix(sentences, size, p.flushed, Window(p.start, t));
        BudgetedSnoc(sentences, size, p.flushed, Window(p.start, i));
      }
    }
  }

  /** The chunk windows of any sentence list keep to the budget in the sense of Budgeted. */
  lemma WithinBudget(sentences: seq<string>, size: int, overlap: int)
    ensures Budgeted(sentences, size, Windows(sentences, size, overlap))
  {
    if |sentences| > 0 {
      PackBudgeted(sentences, size, overlap, |sentences|);
    }
  }

  // ---------------------------------------------------------------------
  // Greedy: a chunk is emitted only once the next sentence no longer fits

  /** Window `w` was emitted because sentence `w.hi` would have pushed its words over the budget. */
  ghost predicate Overflows(sentences: seq<string>, size: int, w: Window)
    requires w.lo <= w.hi < |sentences|
  {
    SumWords(sentences[w.lo..w.hi]) + WordCount(sentences[w.hi]) > size
  }

  /** Every window emitted after `i` sentences overflows with the sentence that follows it. */
  lemma {:induction false} PackGreedy(sentences: seq<string>, size: int, overlap: int, i: nat)
    requires i <= |sentences|
    ensures forall k :: 0 <= k < |Pack(sentences, size, overlap, i).flushed| ==>
      Overflows(sentences, size, Pack(sentences, size, overlap, i).flushed[k])
    decreases i
  {
    if i > 0 {
      var p := Pack(sentences, size, overlap, i - 1);
      PackGreedy(sentences, size, overlap, i - 1);
      assert forall k :: 0 <= k < |p.flushed| ==> Overflows(sentences, size, p.flushed[k]);
      GreedyStep(sentences, size, overlap, p, i - 1);
      assert Pack(sentences, size, overlap, i) == Step(sentences, size, overlap, p, i - 1);
    }
  }

  /** One loop turn keeps every emitted window in range and overflowing. */
  lemma GreedyStep(sentences: seq<string>, size: int, overlap: int, p: Packing, t: nat)
    requires p.start <= t < |sentences|
    requires forall k :: 0 <= k < |p.flushed| ==> p.flushed[k].lo <= p.flushed[k].hi < |sentences|
    requires forall k :: 0 <= k < |p.flushed| ==> Overflows(sentences, size, p.flushed[k])
    ensures var fl := Step(sentences, size, overlap, p, t).flushed;
      forall k :: 0 <= k < |fl| ==> fl[k].lo <= fl[k].hi < |sentences| && Overflows(sentences, size, fl[k])
  {
    var q := Step(sentences, size, overlap, p, t);
    if q != p {
      forall k | 0 <= k < |q.flushed| ensures q.flushed[k].lo <= q.flushed[k].hi < |sentences| && Overflows(sentences, size, q.flushed[k]) {
        if k < |p.flushed| {
          assert q.flushed[k] == p.flushed[k];
        } else {
          assert q.flushed[k] == Window(p.start, t);
        }
      }
    }
  }

  /** Every chunk but the last is emitted only when the sentence after it would overflow the budget. */
  lemma Greedy(sentences: seq<string>, size: int, overlap: int)
    ensures var ws := Windows(sentences, size, overlap);
      forall k :: 0 <= k < |ws| - 1 ==>
        ws[k].hi < |sentences| && SumWords(sentences[ws[k].lo..ws[k].hi]) + WordCount(sentences[ws[k].hi]) > size
  {
    var ws := Windows(sentences, size, overlap);
    var fl := Pack(sentences, size, overlap, |sentences|).flushed;
    PackGreedy(sentences, size, overlap, |sentences|);
    if sentences != [] {
      assert ws == fl + [ws[|ws| - 1]];
      forall k | 0 <= k < |ws| - 1
        ensures ws[k].hi < |sentences| && SumWords(sentences[ws[k].lo..ws[k].hi]) + WordCount(sentences[ws[k].hi]) > size
      {
        assert ws[k] == fl[k];
        assert Overflows(sentences, size, fl[k]);
      }
    }
  }
}
