/**
 * The text chunker of the retrieval layer (src/rag/chunker.py): whitespace
 * normalisation, then a sliding window of `target` characters whose next
 * window starts `overlap` characters before the previous one ended.
 *
 * The windows are described by their (start, end) positions; a chunk is the
 * slice t[start..end].
 */
module Chunker {
  import opened Wrappers
  import opened Text

  // ---------------------------------------------------------------------
  // normalize_ws
  // ---------------------------------------------------------------------

  /** " ".join(s.split()) has no whitespace at either end and single spaces between words. */
  lemma NormalizeWsSingleSpaced(s: string)
    ensures SingleSpaced(NormalizeWs(s))
  {
    WordsWellFormed(s);
    JoinSingleSpaced(Words(s));
  }

  /** Normalising keeps the words, so normalising twice is normalising once. */
  lemma NormalizeWsIdempotent(s: string)
    ensures Words(NormalizeWs(s)) == Words(s)
    ensures NormalizeWs(NormalizeWs(s)) == NormalizeWs(s)
  {
    WordsWellFormed(s);
    WordsOfJoin(Words(s));
  }

  /** The normalised text is empty exactly when the input is empty or only whitespace. */
  lemma NormalizeWsEmpty(s: string)
    ensures NormalizeWs(s) == [] <==> forall i :: 0 <= i < |s| ==> IsSpace(s[i])
  {
    WordsWellFormed(s);
    JoinSingleSpaced(Words(s));
    var t := StripLeft(s);
    if t != [] {
      assert !IsSpace(s[|s| - |t|]);
    }
  }

  // ---------------------------------------------------------------------
  // The windows of chunk_text
  // ---------------------------------------------------------------------

  function Min(a: int, b: int): int { if a <= b then a else b }

  function Max(a: int, b: int): int { if a >= b then a else b }

  /** A window is a non-empty slice [s, e) of a text of length n, no longer than target. */
  predicate Window(w: (int, int), n: int, target: int) {
    0 <= w.0 < w.1 <= n && w.1 - w.0 <= target
  }

  predicate Windowed(ws: seq<(int, int)>, n: int, target: int) {
    forall i :: 0 <= i < |ws| ==> Window(ws[i], n, target)
  }

  /**
   * The windows the loop visits from `start` on: end = min(start + target, n),
   * stop when the end reaches n, otherwise the next start is max(0, end - overlap).
   */
  function WindowsFrom(n: int, start: int, target: int, overlap: int): (ws: seq<(int, int)>)
    requires 0 <= start < n && 0 < target && overlap < target
    ensures ws != [] && ws[0].0 == start
    ensures Windowed(ws, n, target)
    decreases n - start
  {
    var end := Min(start + target, n);
    if end == n then [(start, end)]
    else
      var next := Max(0, end - overlap);
      if next < n then [(start, end)] + WindowsFrom(n, next, target, overlap)
      else [(start, end)]
  }

  function Windows(n: nat, target: int, overlap: int): (ws: seq<(int, int)>)
    requires 0 < target && overlap < target
    ensures Windowed(ws, n, target)
  {
    if n == 0 then [] else WindowsFrom(n, 0, target, overlap)
  }

  /** One step of the loop: the first window, then the windows from the next start, if the loop goes on. */
  lemma WindowsStep(n: int, start: int, target: int, overlap: int)
    requires 0 <= start < n && 0 < target && overlap < target
    ensures var end := Min(start + target, n);
      && Window((start, end), n, n)
      && (end == n ==> WindowsFrom(n, start, target, overlap) == [(start, end)])
      && (end < n ==> 0 < end - overlap)
      && (end < n && end - overlap < n ==>
            WindowsFrom(n, start, target, overlap) == [(start, end)] + WindowsFrom(n, end - overlap, target, overlap))
      && (end < n && end - overlap >= n ==> WindowsFrom(n, start, target, overlap) == [(start, end)])
  {
  }

  /** Each window but the last spans exactly target characters and ends before n; the next starts overlap characters before its end. */
  lemma {:induction false} WindowsLinked(n: int, start: int, target: int, overlap: int, i: nat)
    requires 0 <= start < n && 0 < target && overlap < target
    requires i + 1 < |WindowsFrom(n, start, target, overlap)|
    ensures var ws := WindowsFrom(n, start, target, overlap);
      ws[i].1 < n && ws[i].1 - ws[i].0 == target && ws[i + 1].0 == ws[i].1 - overlap
    decreases n - start
  {
    WindowsStep(n, start, target, overlap);
    var end := Min(start + target, n);
    if i > 0 {
      WindowsLinked(n, end - overlap, target, overlap, i - 1);
    }
  }

  /** With a non-negative overlap the last window ends at n. */
  lemma {:induction false} WindowsEnd(n: int, start: int, target: int, overlap: int)
    requires 0 <= start < n && 0 < target && 0 <= overlap < target
    ensures var ws := WindowsFrom(n, start, target, overlap); ws[|ws| - 1].1 == n
    decreases n - start
  {
    WindowsStep(n, start, target, overlap);
    var end := Min(start + target, n);
    if end < n {
      WindowsEnd(n, end - overlap, target, overlap);
    }
  }

  /** The slice of t at window w, or "" for a window outside t. */
  function Sub(t: string, w: (int, int)): string {
    if 0 <= w.0 <= w.1 <= |t| then t[w.0..w.1] else ""
  }

  /** The chunks at the given windows, in order. */
  function Slices(t: string, ws: seq<(int, int)>): (cs: seq<string>)
    ensures |cs| == |ws|
  {
    seq(|ws|, i requires 0 <= i < |ws| => Sub(t, ws[i]))
  }

  lemma SlicesSnoc(t: string, ws: seq<(int, int)>, w: (int, int))
    ensures Slices(t, ws + [w]) == Slices(t, ws) + [Sub(t, w)]
  {
    var l := Slices(t, ws + [w]);
    var r := Slices(t, ws) + [Sub(t, w)];
    assert |l| == |r|;
    forall i | 0 <= i < |l| ensures l[i] == r[i] {
      if i < |ws| { assert (ws + [w])[i] == ws[i]; }
    }
  }

  lemma SlicesCons(t: string, w: (int, int), ws: seq<(int, int)>)
    ensures Slices(t, [w] + ws) == [Sub(t, w)] + Slices(t, ws)
  {
    var l := Slices(t, [w] + ws);
    var r := [Sub(t, w)] + Slices(t, ws);
    assert |l| == |r|;
    forall i | 0 <= i < |l| ensures l[i] == r[i] {
      if i > 0 { assert ([w] + ws)[i] == ws[i - 1]; }
    }
  }

  /** The chunks of an already normalised text t: its slices at the loop's windows. */
  function ChunksOf(t: string, target: int, overlap: int): seq<string>
    requires 0 < target && overlap < target
  {
    Slices(t, Windows(|t|, target, overlap))
  }

  /** The text chunk_text windows: " ".join(text.split()), with None read as "". */
  function ChunkInput(text: Option<string>): string {
    NormalizeWs(text.GetOr(""))
  }

  /** What chunk_text returns: the chunks of the normalised text. */
  function Chunks(text: Option<string>, target: int, overlap: int): seq<string>
    requires 0 < target && overlap < target
  {
    ChunksOf(ChunkInput(text), target, overlap)
  }

  /** The windows still to visit when the loop is at `start`: none once start reaches n. */
  function WindowsLeft(n: int, start: int, target: int, overlap: int): seq<(int, int)>
    requires 0 <= start && 0 < target && overlap < target
  {
    if start < n then WindowsFrom(n, start, target, overlap) else []
  }

  /** One turn of the loop takes the window (start, end) and leaves the windows from the next start. */
  lemma WindowsLeftStep(n: int, start: int, target: int, overlap: int)
    requires 0 <= start < n && 0 < target && overlap < target
    ensures var end := Min(start + target, n);
      && 0 <= start < end <= n
      && WindowsLeft(n, start, target, overlap) ==
           [(start, end)] + (if end == n then [] else WindowsLeft(n, Max(0, end - overlap), target, overlap))
  {
    WindowsStep(n, start, target, overlap);
  }

  /** The while loop of chunk_text over the normalised text t. */
  method SlideWindows(t: string, target: int, overlap: int) returns (chunks: seq<string>)
    requires 0 < target && overlap < target
    ensures chunks == ChunksOf(t, target, overlap)
  {
    chunks := [];
    var start := 0;
    var n := |t|;
    while start < n
      invariant 0 <= start
      invariant chunks + Slices(t, WindowsLeft(n, start, target, overlap)) == ChunksOf(t, target, overlap)
      decreases n - start
    {
      var end := Min(start + target, n);
      ghost var left := WindowsLeft(n, start, target, overlap);
      ghost var rest := if end == n then [] else WindowsLeft(n, Max(0, end - overlap), target, overlap);
      WindowsLeftStep(n, start, target, overlap);
      assert left == [(start, end)] + rest;
      SlicesCons(t, (start, end), rest);
      assert Slices(t, left) == [t[start..end]] + Slices(t, rest);
      chunks := chunks + [t[start..end]];
      if end == n {
        break;
      }
      start := Max(0, end - overlap);
    }
  }

  /**
   * chunk_text. With overlap >= target the window start never advances; a
   * target of 0 or less makes empty or negative-index slices, which the
   * window description does not cover. The only caller, make_actions,
   * passes target 1200 and overlap 240.
   */
  method ChunkText(text: Option<string>, target: int, overlap: int) returns (chunks: seq<string>)
    requires 0 < target && overlap < target
    ensures chunks == Chunks(text, target, overlap)
  {
    var t := NormalizeWs(text.GetOr(""));
    if t == [] {
      return [];
    }
    chunks := SlideWindows(t, target, overlap);
  }

  // ---------------------------------------------------------------------
  // Properties of the chunks
  // ---------------------------------------------------------------------

  /** Empty, missing or whitespace-only input yields no chunk; any other input yields at least one. */
  lemma ChunksEmpty(text: Option<string>, target: int, overlap: int)
    requires 0 < target && overlap < target
    ensures Chunks(text, target, overlap) == [] <==> forall i :: 0 <= i < |text.GetOr("")| ==> IsSpace(text.GetOr("")[i])
  {
    NormalizeWsEmpty(text.GetOr(""));
  }

  /**
   * Every chunk is a non-empty slice of the text of at most target
   * characters; the first starts at 0 and, with a non-negative overlap, the
   * last ends at the end of the text.
   */
  lemma ChunksAreSlices(t: string, target: int, overlap: int)
    requires 0 < target && overlap < target
    ensures var ws := Windows(|t|, target, overlap); var cs := ChunksOf(t, target, overlap);
      && |cs| == |ws|
      && (forall i :: 0 <= i < |ws| ==> Window(ws[i], |t|, target) && cs[i] == t[ws[i].0..ws[i].1])
      && (ws != [] ==> ws[0].0 == 0)
      && (ws != [] && 0 <= overlap ==> ws[|ws| - 1].1 == |t|)
  {
    if t != [] && 0 <= overlap {
      WindowsEnd(|t|, 0, target, overlap);
    }
  }

  /** A text no longer than target is one chunk, the whole text. */
  lemma ShortTextOneChunk(t: string, target: int, overlap: int)
    requires 0 < target && overlap < target
    requires 0 < |t| <= target
    ensures ChunksOf(t, target, overlap) == [t]
  {
    WindowsStep(|t|, 0, target, overlap);
    assert t[0..|t|] == t;
  }

  /** Consecutive chunks share exactly `overlap` characters: the tail of one is the head of the next. */
  lemma ChunksOverlap(t: string, target: int, overlap: nat, i: nat)
    requires overlap < target
    requires i + 1 < |ChunksOf(t, target, overlap)|
    ensures var cs := ChunksOf(t, target, overlap);
      && overlap < |cs[i]| && overlap < |cs[i + 1]|
      && cs[i][|cs[i]| - overlap..] == cs[i + 1][..overlap]
  {
    var ws := Windows(|t|, target, overlap);
    WindowsOverlap(|t|, target, overlap, i);
    var a := ws[i];
    var b := ws[i + 1];
    OverlapSlices(t, a.0, b.0, a.1, b.1);
  }

  /** Consecutive windows overlap by exactly `overlap` positions, and each is longer than that. */
  lemma WindowsOverlap(n: nat, target: int, overlap: nat, i: nat)
    requires overlap < target
    requires i + 1 < |Windows(n, target, overlap)|
    ensures var ws := Windows(n, target, overlap);
      && 0 <= ws[i].0 <= ws[i + 1].0 <= ws[i].1 <= ws[i + 1].1 <= n
      && ws[i + 1].0 == ws[i].1 - overlap
      && overlap < ws[i].1 - ws[i].0 && overlap < ws[i + 1].1 - ws[i + 1].0
  {
    var ws := Windows(n, target, overlap);
    WindowsLinked(n, 0, target, overlap, i);
    if i + 2 < |ws| {
      WindowsLinked(n, 0, target, overlap, i + 1);
    } else {
      WindowsEnd(n, 0, target, overlap);
    }
    assert Window(ws[i + 1], n, target);
  }

  /** With s1 <= s2 <= e1 <= e2, the tail of t[s1..e1] from s2 on is the head of t[s2..e2]. */
  lemma OverlapSlices(t: string, s1: int, s2: int, e1: int, e2: int)
    requires 0 <= s1 <= s2 <= e1 <= e2 <= |t|
    ensures t[s1..e1][s2 - s1..] == t[s2..e2][..e1 - s2]
  {
  }

  /** Joins chunks after dropping the overlapping tail of every chunk but the last. */
  function Stitch(cs: seq<string>, overlap: nat): string
    decreases |cs|
  {
    if cs == [] then ""
    else if |cs| == 1 then cs[0]
    else cs[0][..|cs[0]| - Min(overlap, |cs[0]|)] + Stitch(cs[1..], overlap)
  }

  /** The windows from `start` cover t[start..]: stitched back together they give exactly that suffix. */
  lemma {:induction false} StitchWindows(t: string, start: nat, target: int, overlap: nat)
    requires start < |t| && overlap < target
    ensures Stitch(Slices(t, WindowsFrom(|t|, start, target, overlap)), overlap) == t[start..]
    decreases |t| - start
  {
    var end := Min(start + target, |t|);
    if end < |t| {
      var next := end - overlap;
      var rest := WindowsFrom(|t|, next, target, overlap);
      WindowsFromNext(|t|, start, target, overlap);
      StitchWindows(t, next, target, overlap);
      SlicesCons(t, (start, end), rest);
      assert Slices(t, WindowsFrom(|t|, start, target, overlap)) == [t[start..end]] + Slices(t, rest);
      StitchStep(t, start, next, end, Slices(t, rest), overlap);
    } else {
      assert WindowsFrom(|t|, start, target, overlap) == [(start, end)];
      assert Slices(t, [(start, end)])[0] == t[start..];
    }
  }

  /** The chunk t[start..end], followed by chunks that stitch to t[end - overlap..], stitches to t[start..]. */
  lemma StitchStep(t: string, start: int, next: int, end: int, rest: seq<string>, overlap: nat)
    requires 0 <= start < next <= end <= |t| && next == end - overlap
    requires rest != [] && Stitch(rest, overlap) == t[next..]
    ensures Stitch([t[start..end]] + rest, overlap) == t[start..]
  {
    var c := t[start..end];
    StitchCons(c, rest, overlap);
    assert c[..|c| - Min(overlap, |c|)] == t[start..next];
    assert t[start..] == t[start..next] + t[next..];
  }

  /** Before the end of the text, the windows from start are (start, end) and then the windows from end - overlap. */
  lemma WindowsFromNext(n: int, start: int, target: int, overlap: nat)
    requires 0 <= start < n && 0 < target && overlap < target && start + target < n
    ensures 0 < start + target - overlap < n
    ensures WindowsFrom(n, start, target, overlap) ==
      [(start, start + target)] + WindowsFrom(n, start + target - overlap, target, overlap)
  {
  }

  /** A chunk followed by more chunks contributes all but its overlapping tail. */
  lemma StitchCons(c: string, cs: seq<string>, overlap: nat)
    requires cs != []
    ensures Stitch([c] + cs, overlap) == c[..|c| - Min(overlap, |c|)] + Stitch(cs, overlap)
  {
    assert ([c] + cs)[1..] == cs;
  }

  /** Removing the overlaps and concatenating the chunks gives back the text. */
  lemma ChunksCover(t: string, target: int, overlap: nat)
    requires overlap < target
    ensures Stitch(ChunksOf(t, target, overlap), overlap) == t
  {
    if t != [] {
      StitchWindows(t, 0, target, overlap);
      assert t[0..] == t;
    }
  }
}
