/**
 * chunk_text in backend/ingest.py: cutting a document's text into windows of
 * at most chunk_size characters, each next window starting `overlap`
 * characters before the previous one ended (clamped at 0).
 *
 * The loop as written leaves only through its `start >= len(text)` test, and
 * for any positive overlap that test never fires on a non-empty text: once a
 * window reaches the end, the next start is len(text) - overlap (or 0) and the
 * same final window is emitted forever. A Dafny method must terminate, so the
 * loop is modelled with an iteration budget `fuel`: ChunkText reports the chunks
 * of the first `fuel` iterations and whether the loop left within them.
 * The loop's own `break` is meant to end it once a window reaches the end of
 * the text, and main calls chunk_text with its defaults expecting it to
 * return; ChunkTextFixed is the loop with that exit test (stop once a window
 * reached the end of the text).
 */
module Chunker {

  /** The half-open character range [start, end) of one chunk. */
  datatype Window = Window(start: nat, end: nat)

  function Min(a: nat, b: nat): nat {
    if a <= b then a else b
  }

  /** max(0, x): the loop's `if start < 0: start = 0`. */
  function Clamp(x: int): nat {
    if x < 0 then 0 else x
  }

  /** The window an iteration starting at `start` emits: it ends at min(len(text), start + chunk_size). */
  function WindowAt(n: nat, chunkSize: nat, start: nat): Window {
    Window(start, Min(n, start + chunkSize))
  }

  /** Where the next iteration starts: the window's end minus the overlap, clamped at 0. */
  function NextStart(n: nat, chunkSize: nat, overlap: int, start: nat): nat {
    Clamp(WindowAt(n, chunkSize, start).end - overlap)
  }

  /**
   * The windows the loop emits in at most `fuel` iterations when its loop
   * head is reached with `start`, for a text of length n.
   */
  function Windows(n: nat, chunkSize: nat, overlap: int, start: nat, fuel: nat): (ws: seq<Window>)
    ensures |ws| <= fuel
    decreases fuel
  {
    if fuel == 0 || start >= n then []
    else [WindowAt(n, chunkSize, start)] + Windows(n, chunkSize, overlap, NextStart(n, chunkSize, overlap, start), fuel - 1)
  }

  /**
   * Every chunk the loop emits is text[start:end] with 0 <= start < end <= len
   * and at most chunk_size characters; the first starts where the loop head
   * was, and each later one starts at its predecessor's end minus the overlap,
   * clamped at 0.
   */
  lemma {:induction false} WindowsShape(n: nat, chunkSize: nat, overlap: int, start: nat, fuel: nat)
    requires chunkSize > 0
    ensures var ws := Windows(n, chunkSize, overlap, start, fuel);
      && |ws| <= fuel
      && (start < n && fuel > 0 ==> |ws| > 0 && ws[0].start == start)
      && (forall i :: 0 <= i < |ws| ==>
            ws[i] == WindowAt(n, chunkSize, ws[i].start) && ws[i].start < ws[i].end <= n
            && ws[i].end - ws[i].start <= chunkSize)
      && (forall i, j :: 0 <= i && j == i + 1 && j < |ws| ==> ws[j].start == Clamp(ws[i].end - overlap))
    decreases fuel
  {
    if fuel > 0 && start < n {
      var next := NextStart(n, chunkSize, overlap, start);
      WindowsShape(n, chunkSize, overlap, next, fuel - 1);
      var ws, rest := Windows(n, chunkSize, overlap, start, fuel), Windows(n, chunkSize, overlap, next, fuel - 1);
      assert ws == [WindowAt(n, chunkSize, start)] + rest;
      assert forall i :: 0 < i < |ws| ==> ws[i] == rest[i - 1];
      assert rest != [] ==> rest[0].start == next;
    }
  }

  /**
   * Whether the loop leaves within `fuel` iterations from loop-head position
   * `start`: either the `while` test fails, or an iteration's `break` fires.
   * Both are the test start >= len(text) on the current start.
   */
  predicate Exits(n: nat, chunkSize: nat, overlap: int, start: nat, fuel: nat)
    decreases fuel
  {
    start >= n || (fuel > 0 && Exits(n, chunkSize, overlap, NextStart(n, chunkSize, overlap, start), fuel - 1))
  }

  /** text[w.start:w.end] (empty for a window outside the text, which the loop never produces). */
  function Substring(text: string, w: Window): string {
    if w.start <= w.end <= |text| then text[w.start..w.end] else []
  }

  /** The substrings of text that the windows select, in order. */
  function Slices(text: string, ws: seq<Window>): (chunks: seq<string>)
    ensures |chunks| == |ws|
  {
    seq(|ws|, i requires 0 <= i < |ws| => Substring(text, ws[i]))
  }

  /**
   * chunk_text(text, chunk_size, overlap) run for at most `fuel` iterations:
   * `chunks` is what the list holds after them, `finished` whether the loop
   * has left by then.
   */
  method ChunkText(text: string, chunkSize: int, overlap: int, fuel: nat) returns (chunks: seq<string>, finished: bool)
    requires chunkSize >= 0
    ensures finished == Exits(|text|, chunkSize, overlap, 0, fuel)
    ensures chunks == Slices(text, Windows(|text|, chunkSize, overlap, 0, fuel))
    ensures text == [] ==> chunks == [] && finished
    ensures overlap > 0 && text != [] ==> !finished && |chunks| == fuel
  {
    chunks := [];
    var start := 0;
    var iterations := 0;
    ghost var emitted: seq<Window> := [];
    while start < |text| && iterations < fuel
      invariant 0 <= start && iterations <= fuel
      invariant emitted + Windows(|text|, chunkSize, overlap, start, fuel - iterations)
             == Windows(|text|, chunkSize, overlap, 0, fuel)
      invariant Exits(|text|, chunkSize, overlap, start, fuel - iterations)
             == Exits(|text|, chunkSize, overlap, 0, fuel)
      invariant |chunks| == |emitted|
      invariant forall i :: 0 <= i < |emitted| ==> chunks[i] == Substring(text, emitted[i])
      decreases fuel - iterations
    {
      var end := Min(|text|, start + chunkSize);
      chunks := chunks + [text[start..end]];
      emitted := emitted + [Window(start, end)];
      start := end - overlap;
      if start < 0 {
        start := 0;
      }
      iterations := iterations + 1;
      if start >= |text| {
        break;
      }
    }
    finished := start >= |text|;
    if overlap > 0 && text != [] {
      NeverExits(|text|, chunkSize, overlap, 0, fuel);
    }
  }

  /**
   * With a positive overlap and a non-empty text the loop never leaves: every
   * iteration emits a chunk, however many iterations one allows.
   */
  lemma {:induction false} NeverExits(n: nat, chunkSize: nat, overlap: int, start: nat, fuel: nat)
    requires overlap > 0 && start < n
    ensures !Exits(n, chunkSize, overlap, start, fuel)
    ensures |Windows(n, chunkSize, overlap, start, fuel)| == fuel
    decreases fuel
  {
    if fuel > 0 {
      NeverExits(n, chunkSize, overlap, NextStart(n, chunkSize, overlap, start), fuel - 1);
    }
  }

  /** From a start that the next iteration reproduces, the loop emits one window over and over. */
  lemma {:induction false} RepeatsFrom(n: nat, chunkSize: nat, overlap: int, p: nat, fuel: nat)
    requires p < n && NextStart(n, chunkSize, overlap, p) == p
    ensures var ws := Windows(n, chunkSize, overlap, p, fuel);
      |ws| == fuel && forall i :: 0 <= i < fuel ==> ws[i] == WindowAt(n, chunkSize, p)
    decreases fuel
  {
    if fuel > 0 {
      RepeatsFrom(n, chunkSize, overlap, p, fuel - 1);
    }
  }

  /**
   * Once a window reaches the end of the text (0 < overlap <= chunk_size), the
   * next start is max(0, len - overlap) < len, and from there the final window
   * [max(0, len - overlap), len) is emitted again at every iteration.
   */
  lemma FinalWindowRepeatsForever(n: nat, chunkSize: nat, overlap: nat, start: nat, fuel: nat)
    requires 0 < overlap <= chunkSize && start < n && start + chunkSize >= n
    ensures NextStart(n, chunkSize, overlap, start) == Clamp(n - overlap) < n
    ensures var ws := Windows(n, chunkSize, overlap, Clamp(n - overlap), fuel);
      |ws| == fuel && forall i :: 0 <= i < fuel ==> ws[i] == Window(Clamp(n - overlap), n)
  {
    var p := Clamp(n - overlap);
    assert WindowAt(n, chunkSize, p) == Window(p, n);
    RepeatsFrom(n, chunkSize, overlap, p, fuel);
  }

  /**
   * With chunk_size = 0 and a non-negative overlap every window is empty and
   * the start never moves: the loop emits empty chunks forever.
   */
  lemma ZeroChunkSizeEmitsEmptyChunks(n: nat, overlap: nat, fuel: nat)
    requires n > 0
    ensures var ws := Windows(n, 0, overlap, 0, fuel);
      |ws| == fuel && forall i :: 0 <= i < fuel ==> ws[i] == Window(0, 0)
  {
    assert NextStart(n, 0, overlap, 0) == 0;
    RepeatsFrom(n, 0, overlap, 0, fuel);
  }

  /** With the defaults chunk_size = 800 and overlap = 100, chunking any non-empty text never finishes. */
  lemma DefaultsNeverFinish(n: nat, fuel: nat)
    requires n > 0
    ensures !Exits(n, 800, 100, 0, fuel)
    ensures |Windows(n, 800, 100, 0, fuel)| == fuel
  {
    NeverExits(n, 800, 100, 0, fuel);
  }

  /** A 1000-character text with the defaults: after two windows, [900, 1000) repeats. */
  lemma DefaultsOnThousandCharacters()
    ensures Windows(1000, 800, 100, 0, 4)
         == [Window(0, 800), Window(700, 1000), Window(900, 1000), Window(900, 1000)]
  {
    assert NextStart(1000, 800, 100, 0) == 700;
    assert NextStart(1000, 800, 100, 700) == 900;
    assert NextStart(1000, 800, 100, 900) == 900;
  }

  /**
   * The windows the loop emits with the exit test corrected: it stops after
   * the window that reaches the end of the text. Needs overlap < chunk_size,
   * so that each next start lies beyond the previous one.
   */
  function FixedWindows(n: nat, chunkSize: nat, overlap: nat, start: nat): seq<Window>
    requires overlap < chunkSize
    decreases n - start
  {
    if start >= n then []
    else
      var w := WindowAt(n, chunkSize, start);
      if w.end == n then [w]
      else [w] + FixedWindows(n, chunkSize, overlap, w.end - overlap)
  }

  /**
   * The corrected loop emits at least one window for a non-empty text; the
   * first starts at `start`, the last ends at the end of the text, every
   * window but the last holds exactly chunk_size characters, and each next
   * window starts exactly `overlap` characters before its predecessor's end.
   */
  lemma {:induction false} FixedWindowsShape(n: nat, chunkSize: nat, overlap: nat, start: nat)
    requires overlap < chunkSize
    ensures var ws := FixedWindows(n, chunkSize, overlap, start);
      && (start >= n ==> ws == [])
      && (start < n ==> |ws| > 0 && ws[0].start == start && ws[|ws| - 1].end == n)
      && (forall i :: 0 <= i < |ws| ==> ws[i].start < ws[i].end <= n && ws[i].end - ws[i].start <= chunkSize)
      && (forall i :: 0 <= i < |ws| - 1 ==> ws[i].end - ws[i].start == chunkSize)
      && (forall i, j :: 0 <= i && j == i + 1 && j < |ws| ==> ws[j].start == ws[i].end - overlap)
    decreases n - start
  {
    if start < n {
      var w := WindowAt(n, chunkSize, start);
      if w.end < n {
        var rest := FixedWindows(n, chunkSize, overlap, w.end - overlap);
        FixedWindowsShape(n, chunkSize, overlap, w.end - overlap);
        var ws := FixedWindows(n, chunkSize, overlap, start);
        assert ws == [w] + rest;
        assert forall i :: 0 < i < |ws| ==> ws[i] == rest[i - 1];
      }
    }
  }

  /** chunk_text with the loop's exit test corrected to stop once a window reaches the end of the text. */
  method ChunkTextFixed(text: string, chunkSize: int, overlap: int) returns (chunks: seq<string>)
    requires 0 <= overlap < chunkSize
    ensures chunks == Slices(text, FixedWindows(|text|, chunkSize, overlap, 0))
    ensures text != [] ==> Reassemble(chunks, overlap) == text
  {
    chunks := [];
    var start := 0;
    ghost var all := FixedWindows(|text|, chunkSize, overlap, 0);
    ghost var emitted: seq<Window> := [];
    while start < |text|
      invariant 0 <= start
      invariant emitted + FixedWindows(|text|, chunkSize, overlap, start) == all
      invariant chunks == Slices(text, emitted)
      decreases |text| - start
    {
      var end := Min(|text|, start + chunkSize);
      FixedWindowsStep(|text|, chunkSize, overlap, start);
      SlicesAppend(text, emitted, Window(start, end));
      chunks := chunks + [text[start..end]];
      emitted := emitted + [Window(start, end)];
      start := end - overlap;
      if start < 0 {
        start := 0;
      }
      if end >= |text| {
        break;
      }
    }
    if text != [] {
      FixedChunksReassemble(text, chunkSize, overlap, 0);
    }
  }

  /** One iteration of the corrected loop: the window at `start`, then the rest unless it reached the end. */
  lemma FixedWindowsStep(n: nat, chunkSize: nat, overlap: nat, start: nat)
    requires overlap < chunkSize && start < n
    ensures var w := WindowAt(n, chunkSize, start);
      FixedWindows(n, chunkSize, overlap, start)
      == if w.end == n then [w] else [w] + FixedWindows(n, chunkSize, overlap, w.end - overlap)
  {
  }

  lemma SlicesAppend(text: string, ws: seq<Window>, w: Window)
    ensures Slices(text, ws + [w]) == Slices(text, ws) + [Substring(text, w)]
  {
  }

  lemma SlicesCons(text: string, w: Window, ws: seq<Window>)
    ensures Slices(text, [w] + ws) == [Substring(text, w)] + Slices(text, ws)
  {
  }

  /**
   * Glues chunks back together: every chunk but the last contributes all but
   * the `overlap` characters it shares with its successor.
   */
  function Reassemble(chunks: seq<string>, overlap: nat): string {
    if |chunks| == 0 then []
    else if |chunks| == 1 then chunks[0]
    else (if |chunks[0]| >= overlap then chunks[0][..|chunks[0]| - overlap] else []) + Reassemble(chunks[1..], overlap)
  }

  /**
   * The corrected windows cover the text from `start` to its end with no gap:
   * dropping each shared overlap once and concatenating gives the text back.
   */
  lemma {:induction false} FixedChunksReassemble(text: string, chunkSize: nat, overlap: nat, start: nat)
    requires overlap < chunkSize && start < |text|
    ensures Reassemble(Slices(text, FixedWindows(|text|, chunkSize, overlap, start)), overlap) == text[start..]
    decreases |text| - start
  {
    var ws := FixedWindows(|text|, chunkSize, overlap, start);
    var w := WindowAt(|text|, chunkSize, start);
    var chunks := Slices(text, ws);
    if w.end < |text| {
      var next := w.end - overlap;
      var rest := FixedWindows(|text|, chunkSize, overlap, next);
      FixedWindowsStep(|text|, chunkSize, overlap, start);
      SlicesCons(text, w, rest);
      assert chunks[1..] == Slices(text, rest);
      FixedChunksReassemble(text, chunkSize, overlap, next);
      assert chunks[0][..|chunks[0]| - overlap] == text[start..next];
      assert text[start..] == text[start..next] + text[next..];
    }
  }

  /** The concatenation of the chunks, in order. */
  function Concat(chunks: seq<string>): string {
    if chunks == [] then [] else chunks[0] + Concat(chunks[1..])
  }

  lemma {:induction false} ReassembleWithoutOverlap(chunks: seq<string>)
    ensures Reassemble(chunks, 0) == Concat(chunks)
  {
    if |chunks| > 1 {
      ReassembleWithoutOverlap(chunks[1..]);
      assert chunks[0][..|chunks[0]|] == chunks[0];
    } else if |chunks| == 1 {
      assert Concat(chunks[1..]) == [];
    }
  }

  /**
   * With overlap 0 the loop as written does terminate: given enough
   * iterations (fuel * chunk_size >= len - start) it leaves, having emitted
   * exactly the windows [start, start + cs), [start + cs, start + 2cs), ... of
   * the corrected loop.
   */
  lemma {:induction false} NoOverlapTerminates(n: nat, chunkSize: nat, start: nat, fuel: nat)
    requires chunkSize > 0 && fuel * chunkSize >= n - start
    ensures Exits(n, chunkSize, 0, start, fuel)
    ensures Windows(n, chunkSize, 0, start, fuel) == FixedWindows(n, chunkSize, 0, start)
    decreases fuel
  {
    if start < n {
      var w := WindowAt(n, chunkSize, start);
      if w.end < n {
        assert fuel > 0;
        assert (fuel - 1) * chunkSize == fuel * chunkSize - chunkSize;
        NoOverlapTerminates(n, chunkSize, w.end, fuel - 1);
      } else {
        assert fuel > 0;
        assert Windows(n, chunkSize, 0, n, fuel - 1) == [];
      }
    }
  }

  /**
   * With overlap 0 and at least ceil(len / chunk_size) iterations, chunk_text
   * finishes and its chunks concatenate to the text.
   */
  lemma NoOverlapChunksConcatenate(text: string, chunkSize: nat, fuel: nat)
    requires chunkSize > 0 && fuel * chunkSize >= |text|
    ensures Exits(|text|, chunkSize, 0, 0, fuel)
    ensures Concat(Slices(text, Windows(|text|, chunkSize, 0, 0, fuel))) == text
  {
    NoOverlapTerminates(|text|, chunkSize, 0, fuel);
    var chunks := Slices(text, Windows(|text|, chunkSize, 0, 0, fuel));
    ReassembleWithoutOverlap(chunks);
    if text != [] {
      FixedChunksReassemble(text, chunkSize, 0, 0);
    }
  }

  /**
   * Two consecutive chunks whose second does not start at 0 share exactly
   * `overlap` characters: the last `overlap` characters of the first are the
   * first `overlap` characters of the second (0 <= overlap <= chunk_size).
   */
  lemma SharedOverlap(text: string, chunkSize: nat, overlap: nat, fuel: nat, i: nat)
    requires 0 < chunkSize && overlap <= chunkSize
    requires 0 < i < |Windows(|text|, chunkSize, overlap, 0, fuel)|
    requires Windows(|text|, chunkSize, overlap, 0, fuel)[i].start > 0
    ensures var ws := Windows(|text|, chunkSize, overlap, 0, fuel);
      var prev, cur := Substring(text, ws[i - 1]), Substring(text, ws[i]);
      ws[i - 1].end - ws[i].start == overlap && overlap <= |prev| && overlap <= |cur|
      && prev[|prev| - overlap..] == cur[..overlap]
  {
    var n := |text|;
    var ws := Windows(n, chunkSize, overlap, 0, fuel);
    WindowsShape(n, chunkSize, overlap, 0, fuel);
    var a, b := ws[i - 1], ws[i];
    assert b.start == a.end - overlap;
    assert a.start == 0 || a.start <= n - overlap by {
      if i > 1 {
        var c := ws[i - 2];
        assert a.start == Clamp(c.end - overlap);
      }
    }
    assert a.start <= b.start;
    assert b.start + overlap <= b.end;
    SlicesShareOverlap(text, a, b, overlap);
  }

  /** Two windows where the second starts `overlap` before the first ends share those characters. */
  lemma SlicesShareOverlap(text: string, a: Window, b: Window, overlap: nat)
    requires a.start <= b.start && b.start + overlap == a.end && a.end <= b.end <= |text|
    ensures var prev, cur := Substring(text, a), Substring(text, b);
      overlap <= |prev| && overlap <= |cur| && prev[|prev| - overlap..] == cur[..overlap]
  {
    var prev, cur := text[a.start..a.end], text[b.start..b.end];
    assert prev[|prev| - overlap..] == text[b.start..a.end];
    assert cur[..overlap] == text[b.start..a.end];
  }
}
