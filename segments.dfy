/**
 * The segment model shared by the three typewriter components: rich text as an
 * ordered list of runs that share one character index space, the projection of
 * a reveal index onto those runs, and the render output the components build
 * from that projection.
 */
module Segments {
  import opened Wrappers

  /** Names a segment's `render` callback; what the callback produces is not modelled. */
  type Renderer = string

  /** A run of text with an optional `render` callback (`TextSegment`). */
  datatype Segment = Segment(text: string, render: Option<Renderer>)

  /** Hold the reveal at `index` for `duration` milliseconds (`PausePoint`). */
  datatype PausePoint = PausePoint(index: int, duration: int)

  /** How much of one segment a reveal index shows. */
  datatype Resolution = NotStarted | Full | Partial(shown: nat)

  /** One entry of a component's render output. */
  datatype Node =
    | Blank                                        // the `null` pushed for a segment not yet started
    | Run(text: string, render: Option<Renderer>)  // shown text, passed to the segment's renderer if any
    | Cursor(blinking: bool)                       // the `_` caret; `blinking` is its blink class
    | EndIndicator                                 // the `customEndIndicator`

  // ---------------------------------------------------------------------------
  // Lengths and offsets
  // ---------------------------------------------------------------------------

  /** The segments' text lengths, summed from the left as `reduce` does. */
  function SumLengths(segs: seq<Segment>): nat
  {
    if segs == [] then 0 else SumLengths(segs[..|segs| - 1]) + |segs[|segs| - 1].text|
  }

  /** All the segments' text, in order. */
  function Concat(segs: seq<Segment>): (r: string)
    ensures |r| == SumLengths(segs)
  {
    if segs == [] then "" else Concat(segs[..|segs| - 1]) + segs[|segs| - 1].text
  }

  /** The text a component reveals: its segments' text when it has segments, else `text`. */
  function FullText(text: Option<string>, segments: seq<Segment>): string
  {
    if |segments| > 0 then Concat(segments) else text.GetOr("")
  }

  /** `totalLength`: the summed segment lengths in segment mode, else the length of `text`, or 0. */
  function TotalLength(text: Option<string>, segments: seq<Segment>): (n: nat)
    ensures n == |FullText(text, segments)|
  {
    if |segments| > 0 then SumLengths(segments) else if text.Some? then |text.value| else 0
  }

  /** Offset of segment `i`'s first character: the total length of the segments before it. */
  function Start(segs: seq<Segment>, i: nat): nat
    requires i <= |segs|
  {
    SumLengths(segs[..i])
  }

  /** Offset just past segment `i`'s last character. */
  function End(segs: seq<Segment>, i: nat): nat
    requires i < |segs|
  {
    Start(segs, i) + |segs[i].text|
  }

  lemma StartStep(segs: seq<Segment>, i: nat)
    requires i < |segs|
    ensures Start(segs, i + 1) == End(segs, i)
  {
    assert segs[..i + 1][..i] == segs[..i];
  }

  lemma StartOfEnd(segs: seq<Segment>)
    ensures Start(segs, |segs|) == SumLengths(segs)
  {
    assert segs[..|segs|] == segs;
  }

  lemma {:induction false} StartMonotone(segs: seq<Segment>, i: nat, j: nat)
    requires i <= j <= |segs|
    ensures Start(segs, i) <= Start(segs, j)
  {
    if i < j {
      StartMonotone(segs, i, j - 1);
      StartStep(segs, j - 1);
    }
  }

  /** The number of characters out of `n` that reveal index `idx` shows (`substring` clamps). */
  function Clamp(idx: int, n: nat): (r: nat)
    ensures r <= n
  {
    if idx <= 0 then 0 else if idx >= n then n else idx
  }

  // ---------------------------------------------------------------------------
  // Projection of a reveal index onto the segments
  // ---------------------------------------------------------------------------

  /** Segment `i` at reveal index `idx`: not started, fully shown, or shown as a proper prefix. */
  function Resolve(segs: seq<Segment>, idx: int, i: nat): (r: Resolution)
    requires i < |segs|
    ensures r.Partial? ==> 0 < r.shown < |segs[i].text|
  {
    var start := Start(segs, i);
    if idx <= start then NotStarted
    else if idx >= start + |segs[i].text| then Full
    else Partial(idx - start)
  }

  /** The output entry for segment `i`: nothing, its whole text, or `substring(0, idx - start)`. */
  function Piece(segs: seq<Segment>, idx: int, i: nat): Node
    requires i < |segs|
  {
    match Resolve(segs, idx, i)
    case NotStarted => Blank
    case Full => Run(segs[i].text, segs[i].render)
    case Partial(n) => Run(segs[i].text[..n], segs[i].render)
  }

  /** The last of the first `k` segments that starts before `idx`, or -1 when none does. */
  function LastVisibleIn(segs: seq<Segment>, idx: int, k: nat): (r: int)
    requires k <= |segs|
    ensures -1 <= r < k
    ensures r >= 0 ==> Start(segs, r) < idx
    ensures forall j :: r < j < k ==> idx <= Start(segs, j)
  {
    if k == 0 then -1
    else if idx > Start(segs, k - 1) then k - 1
    else LastVisibleIn(segs, idx, k - 1)
  }

  /** `lastVisibleSegmentIndex`: the last segment with at least one revealed character, or -1 when there is none. */
  function LastVisible(segs: seq<Segment>, idx: int): (r: int)
    ensures -1 <= r < |segs|
    ensures r == -1 <==> |segs| == 0 || idx <= 0
  {
    assert |segs| > 0 ==> Start(segs, 0) == 0;
    LastVisibleIn(segs, idx, |segs|)
  }

  /**
   * A segment is partially shown only when it is the last visible one: so at most
   * one segment is partial at any index.
   */
  lemma {:induction false} PartialIsLastVisible(segs: seq<Segment>, idx: int, i: nat)
    requires i < |segs| && Resolve(segs, idx, i).Partial?
    ensures LastVisible(segs, idx) == i
  {
    var r := LastVisible(segs, idx);
    StartStep(segs, i);
    if r > i {
      StartMonotone(segs, i + 1, r);
    }
  }

  /** Segments before the last visible one are fully shown, and the last visible one is not blank. */
  lemma {:induction false} BeforeLastVisibleIsFull(segs: seq<Segment>, idx: int, j: nat)
    requires j < |segs| && j <= LastVisible(segs, idx)
    ensures j < LastVisible(segs, idx) ==> Resolve(segs, idx, j) == Full
    ensures !Resolve(segs, idx, j).NotStarted?
  {
    var r := LastVisible(segs, idx);
    StartMonotone(segs, j, r);
    if j < r {
      StartStep(segs, j);
      StartMonotone(segs, j + 1, r);
    }
  }

  /** At the total length no segment is partially shown, and every non-empty one is fully shown. */
  lemma {:induction false} ResolveAtTotal(segs: seq<Segment>, i: nat)
    requires i < |segs|
    ensures !Resolve(segs, SumLengths(segs), i).Partial?
    ensures segs[i].text != [] ==> Resolve(segs, SumLengths(segs), i) == Full
  {
    StartStep(segs, i);
    StartMonotone(segs, i + 1, |segs|);
    StartOfEnd(segs);
    assert SumLengths(segs) >= Start(segs, i) + |segs[i].text|;
  }

  /** The first pass of `renderSegments`: the last visible segment, and the offset past all segments. */
  method ScanSegments(segs: seq<Segment>, idx: int) returns (last: int, total: nat)
    ensures last == LastVisible(segs, idx) && total == SumLengths(segs)
  {
    var globalIndex := 0;
    last := -1;
    var i := 0;
    while i < |segs|
      invariant i <= |segs|
      invariant globalIndex == Start(segs, i)
      invariant last == LastVisibleIn(segs, idx, i)
    {
      if idx > globalIndex {
        last := i;
      }
      StartStep(segs, i);
      globalIndex := globalIndex + |segs[i].text|;
      i := i + 1;
    }
    StartOfEnd(segs);
    total := globalIndex;
  }

  /** The first pause point registered at `idx`, looking from position `from` on (`find`). */
  function FindPauseFrom(pps: seq<PausePoint>, idx: int, from: nat): (r: Option<PausePoint>)
    requires from <= |pps|
    ensures r.None? <==> forall k :: from <= k < |pps| ==> pps[k].index != idx
    ensures r.Some? ==> exists k :: from <= k < |pps| && pps[k] == r.value && pps[k].index == idx
                                   && forall j :: from <= j < k ==> pps[j].index != idx
    decreases |pps| - from
  {
    if from == |pps| then None
    else if pps[from].index == idx then Some(pps[from])
    else FindPauseFrom(pps, idx, from + 1)
  }

  /** `pausePoints.find(pp => pp.index === idx)`. */
  function FindPause(pps: seq<PausePoint>, idx: int): Option<PausePoint>
  {
    FindPauseFrom(pps, idx, 0)
  }

  // ---------------------------------------------------------------------------
  // Render output
  // ---------------------------------------------------------------------------

  /** The text an entry shows. */
  function NodeText(n: Node): string
  {
    if n.Run? then n.text else ""
  }

  /** All the text a render output shows, in order. */
  function VisibleText(nodes: seq<Node>): string
  {
    if nodes == [] then "" else VisibleText(nodes[..|nodes| - 1]) + NodeText(nodes[|nodes| - 1])
  }

  /** The number of cursors in a render output. */
  function CountCursors(nodes: seq<Node>): nat
  {
    if nodes == [] then 0
    else CountCursors(nodes[..|nodes| - 1]) + (if nodes[|nodes| - 1].Cursor? then 1 else 0)
  }

  lemma AppendOutputs(a: seq<Node>, b: seq<Node>)
    ensures VisibleText(a + b) == VisibleText(a) + VisibleText(b)
    ensures CountCursors(a + b) == CountCursors(a) + CountCursors(b)
  {
    AppendText(a, b);
    AppendCursors(a, b);
  }

  lemma {:induction false} AppendText(a: seq<Node>, b: seq<Node>)
    ensures VisibleText(a + b) == VisibleText(a) + VisibleText(b)
  {
    if b == [] {
      assert a + b == a;
    } else {
      var b' := b[..|b| - 1];
      AppendText(a, b');
      assert (a + b)[..|a + b| - 1] == a + b';
      assert VisibleText(a + b) == VisibleText(a + b') + NodeText(b[|b| - 1]);
    }
  }

  lemma {:induction false} AppendCursors(a: seq<Node>, b: seq<Node>)
    ensures CountCursors(a + b) == CountCursors(a) + CountCursors(b)
  {
    if b == [] {
      assert a + b == a;
    } else {
      var b' := b[..|b| - 1];
      AppendCursors(a, b');
      assert (a + b)[..|a + b| - 1] == a + b';
    }
  }

  /**
   * The segment-mode output for segments lo..hi-1: each segment's entry in order,
   * with `cursor` right after the entry of segment `c` (no cursor when `c` is out of range).
   */
  function Pieces(segs: seq<Segment>, idx: int, c: int, cursor: Node, lo: nat, hi: nat): seq<Node>
    requires lo <= hi <= |segs|
    decreases hi
  {
    if lo == hi then []
    else Pieces(segs, idx, c, cursor, lo, hi - 1) + [Piece(segs, idx, hi - 1)]
         + (if hi - 1 == c then [cursor] else [])
  }

  /** The segment-mode output: the pieces, a trailing cursor if asked for, then the end indicator. */
  function Layout(segs: seq<Segment>, idx: int, c: int, cursor: Node, trailing: bool, indicator: bool): seq<Node>
  {
    Pieces(segs, idx, c, cursor, 0, |segs|)
    + (if trailing then [cursor] else [])
    + (if indicator then [EndIndicator] else [])
  }

  lemma {:induction false} PiecesSplit(segs: seq<Segment>, idx: int, c: int, cursor: Node, lo: nat, mid: nat, hi: nat)
    requires lo <= mid <= hi <= |segs|
    ensures Pieces(segs, idx, c, cursor, lo, hi)
         == Pieces(segs, idx, c, cursor, lo, mid) + Pieces(segs, idx, c, cursor, mid, hi)
    decreases hi
  {
    if mid < hi {
      PiecesSplit(segs, idx, c, cursor, lo, mid, hi - 1);
    }
  }

  lemma {:induction false} PiecesLength(segs: seq<Segment>, idx: int, c: int, cursor: Node, hi: nat)
    requires hi <= |segs|
    ensures |Pieces(segs, idx, c, cursor, 0, hi)| == hi + (if 0 <= c < hi then 1 else 0)
  {
    if hi > 0 {
      PiecesLength(segs, idx, c, cursor, hi - 1);
    }
  }

  /** Pieces contain exactly the one cursor placed after segment `c`, if `c` is in range. */
  lemma {:induction false} PiecesCursors(segs: seq<Segment>, idx: int, c: int, cursor: Node, lo: nat, hi: nat)
    requires lo <= hi <= |segs| && cursor.Cursor?
    ensures CountCursors(Pieces(segs, idx, c, cursor, lo, hi)) == if lo <= c < hi then 1 else 0
    decreases hi
  {
    if lo < hi {
      var prev := Pieces(segs, idx, c, cursor, lo, hi - 1);
      PiecesCursors(segs, idx, c, cursor, lo, hi - 1);
      AppendOutputs(prev, [Piece(segs, idx, hi - 1)]);
      AppendOutputs(prev + [Piece(segs, idx, hi - 1)], if hi - 1 == c then [cursor] else []);
      assert CountCursors([cursor]) == 1 by { assert [cursor][..0] == []; }
      assert CountCursors([Piece(segs, idx, hi - 1)]) == 0 by { assert [Piece(segs, idx, hi - 1)][..0] == []; }
    }
  }

  lemma SingleText(n: Node)
    ensures VisibleText([n]) == NodeText(n)
  {
    assert [n][..0] == [];
  }

  /** Revealing `idx` characters of `a + b` reveals them of `a`, then the rest of them of `b`. */
  lemma ClampStep(a: string, b: string, idx: int)
    ensures (a + b)[..Clamp(idx, |a| + |b|)] == a[..Clamp(idx, |a|)] + b[..Clamp(idx - |a|, |b|)]
  {
    if idx <= |a| {
      assert (a + b)[..Clamp(idx, |a| + |b|)] == a[..Clamp(idx, |a|)];
    } else {
      assert (a + b)[..Clamp(idx, |a| + |b|)] == a + b[..Clamp(idx - |a|, |b|)];
    }
  }

  /** Segment `i`'s entry shows the first `idx - start` characters of its text. */
  lemma PieceText(segs: seq<Segment>, idx: int, i: nat)
    requires i < |segs|
    ensures NodeText(Piece(segs, idx, i)) == segs[i].text[..Clamp(idx - Start(segs, i), |segs[i].text|)]
  {
  }

  /** The first `k` segments' entries show exactly the revealed prefix of their text. */
  lemma {:induction false} PiecesText(segs: seq<Segment>, idx: int, c: int, cursor: Node, k: nat)
    requires k <= |segs| && cursor.Cursor?
    ensures VisibleText(Pieces(segs, idx, c, cursor, 0, k)) == Concat(segs[..k])[..Clamp(idx, Start(segs, k))]
  {
    if k == 0 {
      assert segs[..0] == [];
    } else {
      var i := k - 1;
      var before := Concat(segs[..i]);
      var t := segs[i].text;
      var piece := Piece(segs, idx, i);
      var prev := Pieces(segs, idx, c, cursor, 0, i);
      var tail := if i == c then [cursor] else [];
      assert |before| == Start(segs, i);
      assert Start(segs, k) == |before| + |t| by { StartStep(segs, i); }
      calc {
        VisibleText(Pieces(segs, idx, c, cursor, 0, k));
        VisibleText(prev + [piece] + tail);
        { AppendOutputs(prev, [piece]); AppendOutputs(prev + [piece], tail); }
        VisibleText(prev) + VisibleText([piece]) + VisibleText(tail);
        { SingleText(piece); if i == c { SingleText(cursor); } }
        VisibleText(prev) + NodeText(piece);
        { PiecesText(segs, idx, c, cursor, i); PieceText(segs, idx, i); }
        before[..Clamp(idx, |before|)] + t[..Clamp(idx - |before|, |t|)];
        { ClampStep(before, t, idx); }
        (before + t)[..Clamp(idx, Start(segs, k))];
        { assert segs[..k][..i] == segs[..i]; }
        Concat(segs[..k])[..Clamp(idx, Start(segs, k))];
      }
    }
  }

  /** Entries of segments that have not started show nothing and hold no cursor. */
  lemma {:induction false} NotStartedPieces(segs: seq<Segment>, idx: int, c: int, cursor: Node, lo: nat, hi: nat)
    requires lo <= hi <= |segs| && cursor.Cursor? && !(lo <= c < hi)
    requires forall j :: lo <= j < hi ==> idx <= Start(segs, j)
    ensures VisibleText(Pieces(segs, idx, c, cursor, lo, hi)) == ""
    decreases hi
  {
    if lo < hi {
      NotStartedPieces(segs, idx, c, cursor, lo, hi - 1);
      var prev := Pieces(segs, idx, c, cursor, lo, hi - 1);
      assert Pieces(segs, idx, c, cursor, lo, hi) == prev + [Piece(segs, idx, hi - 1)];
      AppendOutputs(prev, [Piece(segs, idx, hi - 1)]);
      SingleText(Piece(segs, idx, hi - 1));
    }
  }

  /** Whatever the cursor placement, the segment-mode output shows exactly the first `idx` characters. */
  lemma LayoutText(segs: seq<Segment>, idx: int, c: int, cursor: Node, trailing: bool, indicator: bool)
    requires cursor.Cursor?
    ensures VisibleText(Layout(segs, idx, c, cursor, trailing, indicator))
         == Concat(segs)[..Clamp(idx, SumLengths(segs))]
  {
    var n := |segs|;
    var pieces := Pieces(segs, idx, c, cursor, 0, n);
    var trail := if trailing then [cursor] else [];
    var ind := if indicator then [EndIndicator] else [];
    assert segs[..n] == segs;
    StartOfEnd(segs);
    PiecesText(segs, idx, c, cursor, n);
    AppendOutputs(pieces, trail);
    AppendOutputs(pieces + trail, ind);
    if trailing { SingleText(cursor); }
    if indicator { SingleText(EndIndicator); }
  }

  /** The segment-mode output holds one cursor after segment `c` when `c` is a segment, plus the trailing one. */
  lemma LayoutCursors(segs: seq<Segment>, idx: int, c: int, cursor: Node, trailing: bool, indicator: bool)
    requires cursor.Cursor? && -1 <= c < |segs|
    ensures CountCursors(Layout(segs, idx, c, cursor, trailing, indicator))
         == (if c >= 0 then 1 else 0) + (if trailing then 1 else 0)
  {
    var n := |segs|;
    var pieces := Pieces(segs, idx, c, cursor, 0, n);
    var trail := if trailing then [cursor] else [];
    var ind := if indicator then [EndIndicator] else [];
    PiecesCursors(segs, idx, c, cursor, 0, n);
    AppendOutputs(pieces, trail);
    AppendOutputs(pieces + trail, ind);
    assert CountCursors(trail) == (if trailing then 1 else 0) by {
      if trailing { assert [cursor][..0] == []; }
    }
    assert CountCursors(ind) == 0 by {
      if indicator { assert [EndIndicator][..0] == []; }
    }
  }

  /**
   * A cursor placed after the last visible segment comes right after that segment's
   * entry, and no text is visible after it: it marks the reveal point.
   */
  lemma LayoutCursorAtRevealPoint(segs: seq<Segment>, idx: int, cursor: Node, trailing: bool, indicator: bool)
    requires cursor.Cursor? && LastVisible(segs, idx) >= 0
    ensures var c := LastVisible(segs, idx);
            var out := Layout(segs, idx, c, cursor, trailing, indicator);
            exists p :: 1 <= p < |out| && out[p - 1] == Piece(segs, idx, c) && out[p] == cursor
                        && VisibleText(out[p + 1..]) == ""
  {
    var c := LastVisible(segs, idx);
    var n := |segs|;
    var trail := if trailing then [cursor] else [];
    var ind := if indicator then [EndIndicator] else [];
    var before := Pieces(segs, idx, c, cursor, 0, c);
    var rest := Pieces(segs, idx, c, cursor, c + 1, n);
    var out := Layout(segs, idx, c, cursor, trailing, indicator);
    assert Pieces(segs, idx, c, cursor, 0, c + 1) == before + [Piece(segs, idx, c)] + [cursor];
    assert Pieces(segs, idx, c, cursor, 0, n) == before + [Piece(segs, idx, c)] + [cursor] + rest by {
      PiecesSplit(segs, idx, c, cursor, 0, c + 1, n);
    }
    assert out == Pieces(segs, idx, c, cursor, 0, n) + trail + ind;
    Regroup(before, Piece(segs, idx, c), cursor, rest, trail, ind);
    AfterLastVisible(segs, idx, cursor, trailing, indicator);
    CursorWitness(out, before, Piece(segs, idx, c), cursor, rest + trail + ind);
  }

  lemma Regroup(a: seq<Node>, x: Node, y: Node, r: seq<Node>, t: seq<Node>, i: seq<Node>)
    ensures a + [x] + [y] + r + t + i == a + [x, y] + (r + t + i)
  {
  }

  lemma CursorWitness(out: seq<Node>, before: seq<Node>, x: Node, cursor: Node, tail: seq<Node>)
    requires out == before + [x, cursor] + tail && VisibleText(tail) == ""
    ensures exists p :: 1 <= p < |out| && out[p - 1] == x && out[p] == cursor && VisibleText(out[p + 1..]) == ""
  {
    var p := |before| + 1;
    assert out[p - 1] == x && out[p] == cursor;
    assert out[p + 1..] == tail;
  }

  /** Nothing is visible in the output after the last visible segment's entry and its cursor. */
  lemma AfterLastVisible(segs: seq<Segment>, idx: int, cursor: Node, trailing: bool, indicator: bool)
    requires cursor.Cursor? && LastVisible(segs, idx) >= 0
    ensures var c := LastVisible(segs, idx);
            VisibleText(Pieces(segs, idx, c, cursor, c + 1, |segs|)
                        + (if trailing then [cursor] else []) + (if indicator then [EndIndicator] else [])) == ""
  {
    var c := LastVisible(segs, idx);
    var rest := Pieces(segs, idx, c, cursor, c + 1, |segs|);
    var trail := if trailing then [cursor] else [];
    var ind := if indicator then [EndIndicator] else [];
    assert VisibleText(rest) == "" by {
      NotStartedPieces(segs, idx, c, cursor, c + 1, |segs|);
    }
    assert VisibleText(trail) == "" by {
      if trailing { SingleText(cursor); }
    }
    assert VisibleText(ind) == "" by {
      if indicator { SingleText(EndIndicator); }
    }
    AppendOutputs(rest, trail);
    AppendOutputs(rest + trail, ind);
  }

  /** With no cursor after a segment, the trailing cursor comes right after all the segments' entries. */
  lemma LayoutTrailingCursor(segs: seq<Segment>, idx: int, cursor: Node, indicator: bool)
    requires cursor.Cursor?
    ensures var out := Layout(segs, idx, -1, cursor, true, indicator);
            |out| > |segs| && out[|segs|] == cursor && VisibleText(out[|segs| + 1..]) == ""
  {
    var n := |segs|;
    var out := Layout(segs, idx, -1, cursor, true, indicator);
    var ind := if indicator then [EndIndicator] else [];
    PiecesLength(segs, idx, -1, cursor, n);
    assert out[n + 1..] == ind;
    if indicator { SingleText(EndIndicator); }
  }

  /** The end indicator appears in the segment-mode output exactly when asked for. */
  lemma LayoutIndicator(segs: seq<Segment>, idx: int, c: int, cursor: Node, trailing: bool, indicator: bool)
    requires cursor.Cursor?
    ensures EndIndicator in Layout(segs, idx, c, cursor, trailing, indicator) <==> indicator
  {
    var pieces := Pieces(segs, idx, c, cursor, 0, |segs|);
    var trail := if trailing then [cursor] else [];
    forall k | 0 <= k < |pieces| ensures pieces[k] != EndIndicator {
      PiecesHasNoIndicator(segs, idx, c, cursor, |segs|, k);
    }
    assert EndIndicator !in pieces + trail;
  }

  lemma {:induction false} PiecesHasNoIndicator(segs: seq<Segment>, idx: int, c: int, cursor: Node, hi: nat, k: nat)
    requires hi <= |segs| && cursor.Cursor? && k < |Pieces(segs, idx, c, cursor, 0, hi)|
    ensures Pieces(segs, idx, c, cursor, 0, hi)[k] != EndIndicator
  {
    var prev := Pieces(segs, idx, c, cursor, 0, hi - 1);
    if k < |prev| {
      PiecesHasNoIndicator(segs, idx, c, cursor, hi - 1, k);
    }
  }

  /**
   * The plain-text output: the revealed prefix of `text` (nothing when `text` is
   * absent), then the cursor if there is one, then the end indicator if asked for.
   */
  function PlainLayout(text: Option<string>, idx: int, cursor: Option<Node>, indicator: bool): seq<Node>
  {
    var t := text.GetOr("");
    [Run(t[..Clamp(idx, |t|)], None)]
    + (if cursor.Some? then [cursor.value] else [])
    + (if indicator then [EndIndicator] else [])
  }

  /** The plain-text output shows the first `idx` characters, then its one cursor, if any, with nothing visible after it. */
  lemma PlainLayoutFacts(text: Option<string>, idx: int, cursor: Option<Node>, indicator: bool)
    requires cursor.Some? ==> cursor.value.Cursor?
    ensures var out := PlainLayout(text, idx, cursor, indicator);
      && VisibleText(out) == text.GetOr("")[..Clamp(idx, |text.GetOr("")|)]
      && CountCursors(out) == (if cursor.Some? then 1 else 0)
      && (cursor.Some? ==> |out| >= 2 && out[1] == cursor.value && VisibleText(out[2..]) == "")
      && (EndIndicator in out <==> indicator)
  {
    var t := text.GetOr("");
    var head := [Run(t[..Clamp(idx, |t|)], None)];
    var cur := if cursor.Some? then [cursor.value] else [];
    var ind := if indicator then [EndIndicator] else [];
    SingleText(head[0]);
    assert CountCursors(head) == 0 by { assert head[..0] == []; }
    AppendOutputs(head, cur);
    AppendOutputs(head + cur, ind);
    assert VisibleText(cur) == "" && CountCursors(cur) == |cur| by {
      if cursor.Some? { SingleText(cursor.value); assert cur[..0] == []; }
    }
    assert VisibleText(ind) == "" && CountCursors(ind) == 0 by {
      if indicator { SingleText(EndIndicator); assert ind[..0] == []; }
    }
    if cursor.Some? {
      assert (head + cur + ind)[2..] == ind;
    }
  }
}
