/**
 The word-window chunker of `KnowledgeBaseAgent.chunk_text`: the text is split
 on whitespace, and windows of `size` words are taken starting every
 `size - overlap` words; the loop stops right after the window that reaches
 the last word.
 */
module Chunker {
  import opened Text

  function Min(a: int, b: int): int
  {
    if a <= b then a else b
  }

  /** The windows the loop emits from the iteration whose start index is `i`
      on: `words[i:i + size]`, then, unless that window reaches the last word,
      the windows from `i + step`. */
  function WindowsFrom(words: seq<string>, i: nat, size: nat, step: nat): seq<seq<string>>
    requires step > 0
    decreases |words| - i
  {
    if i >= |words| then []
    else
      var w := words[i .. Min(i + size, |words|)];
      if i + size >= |words| then [w] else [w] + WindowsFrom(words, i + step, size, step)
  }

  /** The word windows of `chunk_text(text, size, overlap)` over a word list. */
  function Windows(words: seq<string>, size: nat, overlap: nat): seq<seq<string>>
    requires overlap < size
  {
    WindowsFrom(words, 0, size, size - overlap)
  }

  /** Each window joined with single spaces. */
  function JoinEach(ws: seq<seq<string>>): (r: seq<string>)
    ensures |r| == |ws|
  {
    if ws == [] then [] else [Join(ws[0])] + JoinEach(ws[1..])
  }

  lemma {:induction false} JoinEachAt(ws: seq<seq<string>>, k: nat)
    requires k < |ws|
    ensures JoinEach(ws)[k] == Join(ws[k])
  {
    if k > 0 {
      JoinEachAt(ws[1..], k - 1);
    }
  }

  /** The list of strings `chunk_text(text, size, overlap)` returns. */
  function Chunks(text: string, size: nat, overlap: nat): seq<string>
    requires overlap < size
  {
    JoinEach(Windows(Words(text), size, overlap))
  }

  function CeilDiv(a: nat, b: nat): nat
    requires b > 0
  {
    (a + b - 1) / b
  }

  /** How many chunks a text of `w` words yields:
      `1 + max(0, ceil((w - size) / (size - overlap)))` when `w > 0`. */
  function ChunkCount(w: nat, size: nat, overlap: nat): nat
    requires overlap < size
  {
    if w == 0 then 0
    else if w <= size then 1
    else 1 + CeilDiv(w - size, size - overlap)
  }

  lemma JoinEachCons(w: seq<string>, ws: seq<seq<string>>)
    ensures JoinEach([w] + ws) == [Join(w)] + JoinEach(ws)
  {
    assert ([w] + ws)[1..] == ws;
  }

  /** The loop's invariant: the chunks emitted so far, followed by the chunks
      of the windows from word `i` on, are all the chunks of the text. */
  predicate EmittedBefore(done: seq<string>, words: seq<string>, i: nat, size: nat, step: nat, all: seq<string>)
    requires step > 0
  {
    done + JoinEach(WindowsFrom(words, i, size, step)) == all
  }

  /** One turn of the chunking loop that does not reach the last word: the
      window at word `i`, joined, is emitted, and the chunks from `i + step`
      are still to come. */
  lemma ChunkLoopStep(done: seq<string>, words: seq<string>, i: nat, size: nat, step: nat, all: seq<string>)
    requires step > 0 && i + size < |words|
    requires EmittedBefore(done, words, i, size, step, all)
    ensures EmittedBefore(done + [Join(words[i .. i + size])], words, i + step, size, step, all)
  {
    var window := words[i .. i + size];
    var later := WindowsFrom(words, i + step, size, step);
    assert WindowsFrom(words, i, size, step) == [window] + later;
    JoinEachCons(window, later);
    AppendAssoc(done, [Join(window)], JoinEach(later));
  }

  /** The last turn of the chunking loop: the window at word `i` reaches the
      last word, and once it is emitted every chunk is. */
  lemma ChunkLoopLast(done: seq<string>, words: seq<string>, i: nat, size: nat, step: nat, all: seq<string>)
    requires step > 0 && i < |words| <= i + size
    requires EmittedBefore(done, words, i, size, step, all)
    ensures done + [Join(words[i ..])] == all
  {
    var window := words[i ..];
    assert Min(i + size, |words|) == |words|;
    assert words[i .. |words|] == window;
    assert WindowsFrom(words, i, size, step) == [window];
    assert JoinEach([window]) == [Join(window)];
  }

  /** `text.split()` followed by the stepped loop with its early `break`. */
  method ChunkText(text: string, chunkSize: nat, overlap: nat) returns (chunks: seq<string>)
    requires overlap < chunkSize
    ensures chunks == Chunks(text, chunkSize, overlap)
  {
    var words := Words(text);
    chunks := EmitChunks(words, chunkSize, overlap);
  }

  /** The loop of `chunk_text` over the split words: from word 0, every
      `chunkSize - overlap` words, the next `chunkSize` words are joined and
      emitted, until a window reaches the last word. */
  method EmitChunks(words: seq<string>, chunkSize: nat, overlap: nat) returns (chunks: seq<string>)
    requires overlap < chunkSize
    ensures chunks == JoinEach(Windows(words, chunkSize, overlap))
  {
    var step := chunkSize - overlap;
    ghost var all := JoinEach(Windows(words, chunkSize, overlap));
    chunks := [];
    var i := 0;
    assert EmittedBefore(chunks, words, i, chunkSize, step, all);
    while i < |words|
      invariant EmittedBefore(chunks, words, i, chunkSize, step, all)
      decreases |words| - i
    {
      if i + chunkSize >= |words| {
        ChunkLoopLast(chunks, words, i, chunkSize, step, all);
        chunks := chunks + [Join(words[i ..])];
        break;
      }
      ChunkLoopStep(chunks, words, i, chunkSize, step, all);
      chunks := chunks + [Join(words[i .. i + chunkSize])];
      i := i + step;
    }
  }

  /** The first word of window k: k steps of `step` words from word 0. */
  function Start(k: nat, step: nat): nat
  {
    if k == 0 then 0 else Start(k - 1, step) + step
  }

  /** Window k starts at word `k * step`. */
  lemma {:induction false} StartIsProduct(k: nat, step: nat)
    ensures Start(k, step) == k * step
  {
    if k > 0 {
      StartIsProduct(k - 1, step);
      assert (k - 1) * step + step == k * step;
    }
  }

  /** Where window k of the loop started at word `i` lies: it covers words
      `i + Start(k) .. min(i + Start(k) + size, |words|)`, and unless it is the
      last window it stops short of the last word. */
  lemma {:induction false} WindowFromAt(words: seq<string>, i: nat, size: nat, step: nat, k: nat)
    requires 0 < step <= size
    requires k < |WindowsFrom(words, i, size, step)|
    ensures var ws, s := WindowsFrom(words, i, size, step), i + Start(k, step);
      && s < |words|
      && ws[k] == words[s .. Min(s + size, |words|)]
      && (k < |ws| - 1 ==> s + size < |words|)
    decreases k
  {
    var ws := WindowsFrom(words, i, size, step);
    if i + size < |words| {
      var rest := WindowsFrom(words, i + step, size, step);
      assert ws == [words[i .. Min(i + size, |words|)]] + rest;
      if k > 0 {
        WindowFromAt(words, i + step, size, step, k - 1);
        assert ws[k] == rest[k - 1];
      }
    }
  }

  /** The loop started at word `i` emits nothing exactly when `i` is past the
      last word, and otherwise its last window reaches the last word. */
  lemma {:induction false} WindowsFromEnd(words: seq<string>, i: nat, size: nat, step: nat)
    requires 0 < step <= size
    ensures var ws := WindowsFrom(words, i, size, step);
      && (ws == [] <==> i >= |words|)
      && (ws != [] ==> i + Start(|ws| - 1, step) + size >= |words|)
    decreases |words| - i
  {
    var ws := WindowsFrom(words, i, size, step);
    if i < |words| && i + size < |words| {
      var rest := WindowsFrom(words, i + step, size, step);
      WindowsFromEnd(words, i + step, size, step);
      assert ws == [words[i .. Min(i + size, |words|)]] + rest;
      assert (i + step) + Start(|rest| - 1, step) == i + Start(|ws| - 1, step);
    }
  }

  /** Window k of `chunk_text` starts at word `Start(k, size - overlap)` (that
      is, `k * (size - overlap)`, see StartIsProduct) and holds the next
      `size` words, or the words up to the end; every window but the last is
      full and stops short of the last word. */
  lemma WindowAt(words: seq<string>, size: nat, overlap: nat, k: nat)
    requires overlap < size
    requires k < |Windows(words, size, overlap)|
    ensures var ws, start := Windows(words, size, overlap), Start(k, size - overlap);
      && start < |words|
      && ws[k] == words[start .. Min(start + size, |words|)]
      && (k < |ws| - 1 ==> |ws[k]| == size && start + size < |words|)
  {
    WindowFromAt(words, 0, size, size - overlap, k);
  }

  /** `chunk_text` emits no window exactly when there are no words, and its
      last window ends at the last word. */
  lemma WindowsEnd(words: seq<string>, size: nat, overlap: nat)
    requires overlap < size
    ensures var ws := Windows(words, size, overlap);
      && (ws == [] <==> words == [])
      && (ws != [] ==>
            && Start(|ws| - 1, size - overlap) < |words|
            && ws[|ws| - 1] == words[Start(|ws| - 1, size - overlap) ..])
  {
    var ws := Windows(words, size, overlap);
    WindowsFromEnd(words, 0, size, size - overlap);
    if ws != [] {
      WindowFromAt(words, 0, size, size - overlap, |ws| - 1);
    }
  }

  lemma DivUnique(y: int, d: int, q: int, r: int)
    requires d > 0 && 0 <= r < d && y == q * d + r
    ensures y / d == q
  {
    var q', r' := y / d, y % d;
    if q' < q {
      MulAtLeast(q - q', d);
      assert false;
    } else if q' > q {
      MulAtLeast(q' - q, d);
      assert false;
    }
  }

  lemma MulAtLeast(a: int, d: int)
    requires a >= 1 && d > 0
    ensures a * d >= d
  {
  }

  /** `CeilDiv(a, b)` is the least m with `a <= m * b`. */
  lemma CeilDivIsLeast(a: nat, b: nat, m: nat)
    requires b > 0 && m >= 1 && (m - 1) * b < a <= m * b
    ensures CeilDiv(a, b) == m
  {
    assert (m - 1) * b == m * b - b;
    DivUnique(a + b - 1, b, m, a + b - 1 - m * b);
  }

  /** A text of W words is cut into `ChunkCount(W, size, overlap)` chunks. */
  lemma ChunksCount(text: string, size: nat, overlap: nat)
    requires overlap < size
    ensures |Chunks(text, size, overlap)| == ChunkCount(|Words(text)|, size, overlap)
  {
    WindowsCount(Words(text), size, overlap);
  }

  /** `chunk_text` emits `ChunkCount(W, size, overlap)` windows for a text of W words. */
  lemma WindowsCount(words: seq<string>, size: nat, overlap: nat)
    requires overlap < size
    ensures |Windows(words, size, overlap)| == ChunkCount(|words|, size, overlap)
  {
    var ws, step, n := Windows(words, size, overlap), size - overlap, |words|;
    WindowsFromEnd(words, 0, size, step);
    if n == 0 {
      return;
    }
    var m := |ws| - 1;
    if n <= size {
      if m > 0 {
        WindowFromAt(words, 0, size, step, 0);
        assert false;
      }
    } else {
      assert m > 0;
      WindowFromAt(words, 0, size, step, m - 1);
      StartIsProduct(m, step);
      StartIsProduct(m - 1, step);
      CeilDivIsLeast(n - size, step, m);
    }
  }

  /** Text without words (empty or all whitespace) yields no chunk at all, and
      text with words yields at least one. */
  lemma NoWordsNoChunks(text: string, size: nat, overlap: nat)
    requires overlap < size
    ensures Chunks(text, size, overlap) == [] <==> AllSpace(text)
  {
    NoWordsIffAllSpace(text);
    WindowsEnd(Words(text), size, overlap);
  }

  /** A text of 1..size words yields one chunk: all its words joined by single spaces. */
  lemma ShortTextOneChunk(text: string, size: nat, overlap: nat)
    requires overlap < size
    requires 0 < |Words(text)| <= size
    ensures Chunks(text, size, overlap) == [Join(Words(text))]
  {
    var words := Words(text);
    assert Min(0 + size, |words|) == |words|;
    assert words[0 .. |words|] == words;
    var ws := WindowsFrom(words, 0, size, size - overlap);
    assert ws == [words];
    assert JoinEach(ws) == [Join(words)];
  }

  /** Each chunk splits back into exactly its window of words: chunk k is
      the words `Start(k) .. min(Start(k) + size, W)` of the text. */
  lemma ChunkWords(text: string, size: nat, overlap: nat, k: nat)
    requires overlap < size
    requires k < |Chunks(text, size, overlap)|
    ensures var words, start := Words(text), Start(k, size - overlap);
      && start < |words|
      && Words(Chunks(text, size, overlap)[k]) == words[start .. Min(start + size, |words|)]
  {
    var words := Words(text);
    var ws := Windows(words, size, overlap);
    WindowAt(words, size, overlap, k);
    JoinEachAt(ws, k);
    var window := ws[k];
    forall j | 0 <= j < |window| ensures IsWord(window[j]) {
      assert window[j] == words[Start(k, size - overlap) + j];
      assert IsWord(words[Start(k, size - overlap) + j]);
    }
    WordsJoin(window);
  }

  /** Neighbouring windows share exactly `overlap` words: the last `overlap`
      words of window k are the first `overlap` words of window k + 1, and
      every window after the first holds more than `overlap` words, so each
      one brings at least one new word. */
  lemma WindowsOverlap(words: seq<string>, size: nat, overlap: nat, k: nat)
    requires overlap < size
    requires k + 1 < |Windows(words, size, overlap)|
    ensures var ws := Windows(words, size, overlap);
      && |ws[k]| == size && |ws[k + 1]| > overlap
      && ws[k][size - overlap ..] == ws[k + 1][.. overlap]
  {
    var ws, step := Windows(words, size, overlap), size - overlap;
    WindowAt(words, size, overlap, k);
    WindowAt(words, size, overlap, k + 1);
    var a, s := Start(k, step), Start(k + 1, step);
    assert s == a + step;
    assert a + size < |words|;
    assert ws[k] == words[a .. a + size];
    var shared := words[s .. s + overlap];
    assert ws[k][step ..] == shared;
    assert ws[k + 1] == words[s .. Min(s + size, |words|)];
    assert ws[k + 1][.. overlap] == shared;
  }

  /** Drops the first `n` items, as Python's `w[n:]` (empty when `n` exceeds the length). */
  function DropFirst(w: seq<string>, n: nat): seq<string>
  {
    if n <= |w| then w[n..] else []
  }

  /** The first window, followed by every later window without its leading
      `overlap` words. */
  function Stitch(ws: seq<seq<string>>, overlap: nat): seq<string>
  {
    if ws == [] then []
    else if |ws| == 1 then ws[0]
    else Stitch(ws[.. |ws| - 1], overlap) + DropFirst(ws[|ws| - 1], overlap)
  }

  lemma StitchSnoc(ws: seq<seq<string>>, overlap: nat, k: nat)
    requires 0 < k < |ws|
    ensures Stitch(ws[.. k + 1], overlap) == Stitch(ws[.. k], overlap) + DropFirst(ws[k], overlap)
  {
    assert ws[.. k + 1][.. k] == ws[.. k];
  }

  lemma StitchFirst(ws: seq<seq<string>>, overlap: nat)
    requires ws != []
    ensures Stitch(ws[.. 1], overlap) == ws[0]
  {
    assert ws[.. 1] == [ws[0]];
  }

  /** One step of the reassembly: a window that starts `overlap` words before
      the end of what is stitched so far extends it to the window's end. */
  lemma StitchExtend(ws: seq<seq<string>>, words: seq<string>, overlap: nat, k: nat, start: nat, end: nat)
    requires 0 < k < |ws|
    requires start + overlap <= end <= |words|
    requires ws[k] == words[start .. end]
    requires Stitch(ws[.. k], overlap) == words[.. start + overlap]
    ensures Stitch(ws[.. k + 1], overlap) == words[.. end]
  {
    StitchSnoc(ws, overlap, k);
    var prevEnd := start + overlap;
    assert DropFirst(ws[k], overlap) == words[prevEnd .. end];
    assert words[.. end] == words[.. prevEnd] + words[prevEnd .. end];
  }

  lemma {:induction false} StitchPrefix(words: seq<string>, size: nat, overlap: nat, k: nat)
    requires overlap < size
    requires k < |Windows(words, size, overlap)|
    ensures var start := Start(k, size - overlap);
      && start < |words|
      && Stitch(Windows(words, size, overlap)[.. k + 1], overlap) == words[.. Min(start + size, |words|)]
  {
    var ws, step := Windows(words, size, overlap), size - overlap;
    var start := Start(k, step);
    var end := Min(start + size, |words|);
    WindowAt(words, size, overlap, k);
    if k == 0 {
      StitchFirst(ws, overlap);
      assert words[0 .. end] == words[.. end];
    } else {
      var prev := Start(k - 1, step);
      StitchPrefix(words, size, overlap, k - 1);
      WindowAt(words, size, overlap, k - 1);
      assert prev + size < |words|;
      assert start + overlap == prev + size == Min(prev + size, |words|);
      assert Stitch(ws[.. k], overlap) == words[.. start + overlap];
      assert ws[k] == words[start .. end];
      StitchExtend(ws, words, overlap, k, start, end);
    }
  }

  /** Taking the first window whole and every later window minus its leading
      `overlap` words gives back the text's word sequence, in order: no word is
      lost, repeated or moved. */
  lemma WindowsReassemble(words: seq<string>, size: nat, overlap: nat)
    requires overlap < size
    ensures Stitch(Windows(words, size, overlap), overlap) == words
  {
    var ws, step := Windows(words, size, overlap), size - overlap;
    WindowsEnd(words, size, overlap);
    if ws == [] {
      return;
    }
    var k := |ws| - 1;
    StitchPrefix(words, size, overlap, k);
    WindowAt(words, size, overlap, k);
    assert ws[.. k + 1] == ws;
    assert words[.. |words|] == words;
  }

  /** The closed form `ceil((W - overlap) / (size - overlap))` agrees with the
      chunk count whenever the text has more than `overlap` words. */
  lemma ChunkCountAboveOverlap(w: nat, size: nat, overlap: nat)
    requires overlap < size && w > overlap
    ensures ChunkCount(w, size, overlap) == CeilDiv(w - overlap, size - overlap)
  {
    var step := size - overlap;
    if w <= size {
      CeilDivIsLeast(w - overlap, step, 1);
    } else {
      var m := CeilDiv(w - size, step);
      DivUnique(w - size + step - 1 + step, step, m + 1, (w - size + step - 1) % step);
    }
  }
}
