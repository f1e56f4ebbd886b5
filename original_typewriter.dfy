/**
 * The original typewriter under app/components/TypeWriter.tsx: it always starts
 * at index 0 and has no skip input; its cursor blinks all the time and appears
 * only inside the partially shown segment; after completion the cursor and the
 * end indicator never show together.
 */
module OriginalTypewriter {
  import opened Wrappers
  import opened Segments
  import opened Scheduling

  // ---------------------------------------------------------------------------
  // Cursor flags and placement
  // ---------------------------------------------------------------------------

  /** `showCursorElement`: while typing, or after completion when kept and no end indicator is given. */
  function ShowCursorElement(complete: bool, keepCursorAfterComplete: bool, hasEndIndicator: bool): bool
  {
    !complete || (complete && keepCursorAfterComplete && !hasEndIndicator)
  }

  /** `showCustomIndicator`: after completion, when the cursor is kept and an end indicator is given. */
  function ShowCustomIndicator(complete: bool, keepCursorAfterComplete: bool, hasEndIndicator: bool): bool
  {
    complete && keepCursorAfterComplete && hasEndIndicator
  }

  /**
   * After completion the cursor is wanted exactly when kept without an end
   * indicator, the indicator exactly when kept with one: never both.
   */
  lemma CursorOrIndicator(keepCursorAfterComplete: bool, hasEndIndicator: bool)
    ensures ShowCursorElement(true, keepCursorAfterComplete, hasEndIndicator)
            <==> keepCursorAfterComplete && !hasEndIndicator
    ensures ShowCustomIndicator(true, keepCursorAfterComplete, hasEndIndicator)
            <==> keepCursorAfterComplete && hasEndIndicator
    ensures !(ShowCursorElement(true, keepCursorAfterComplete, hasEndIndicator)
              && ShowCustomIndicator(true, keepCursorAfterComplete, hasEndIndicator))
  {
  }

  /** Some segment is shown as a proper, non-empty prefix. */
  predicate HasPartial(segs: seq<Segment>, idx: int)
  {
    exists i :: 0 <= i < |segs| && Resolve(segs, idx, i).Partial?
  }

  /** The segment `renderSegments` puts the cursor after: the partially shown one, if any; else -1. */
  function CursorSegment(segs: seq<Segment>, idx: int, cursorOn: bool): (c: int)
    ensures -1 <= c < |segs|
  {
    var last := LastVisible(segs, idx);
    if cursorOn && last >= 0 && Resolve(segs, idx, last).Partial? then last else -1
  }

  /** The partially shown segment, if there is one, is the last visible one. */
  lemma PartialIsCursorSegment(segs: seq<Segment>, idx: int)
    ensures HasPartial(segs, idx) <==> LastVisible(segs, idx) >= 0 && Resolve(segs, idx, LastVisible(segs, idx)).Partial?
  {
    if HasPartial(segs, idx) {
      var i :| 0 <= i < |segs| && Resolve(segs, idx, i).Partial?;
      PartialIsLastVisible(segs, idx, i);
    }
  }

  /** At a segment boundary, before any text or at the end, no segment is partially shown. */
  lemma NoPartialAtBoundary(segs: seq<Segment>, idx: int)
    requires idx <= 0 || idx >= SumLengths(segs) || exists k :: 0 <= k <= |segs| && idx == Start(segs, k)
    ensures !HasPartial(segs, idx)
  {
    forall i | 0 <= i < |segs|
      ensures !Resolve(segs, idx, i).Partial?
    {
      NotInsideAtBoundary(segs, idx, i);
    }
  }

  /** The index-by-index step of `NoPartialAtBoundary`. */
  lemma NotInsideAtBoundary(segs: seq<Segment>, idx: int, i: nat)
    requires i < |segs|
    requires idx <= 0 || idx >= SumLengths(segs) || exists k :: 0 <= k <= |segs| && idx == Start(segs, k)
    ensures !(Start(segs, i) < idx < End(segs, i))
  {
    if idx >= SumLengths(segs) {
      EndWithinTotal(segs, i);
    } else if idx > 0 {
      var k :| 0 <= k <= |segs| && idx == Start(segs, k);
      StartNotInside(segs, i, k);
    }
  }

  /** Every segment ends within the total length. */
  lemma EndWithinTotal(segs: seq<Segment>, i: nat)
    requires i < |segs|
    ensures End(segs, i) <= SumLengths(segs)
  {
    StartStep(segs, i);
    StartMonotone(segs, i + 1, |segs|);
    StartOfEnd(segs);
  }

  /** No segment's start lies strictly inside another segment. */
  lemma StartNotInside(segs: seq<Segment>, i: nat, k: nat)
    requires i < |segs| && k <= |segs|
    ensures !(Start(segs, i) < Start(segs, k) < End(segs, i))
  {
    if k <= i {
      StartMonotone(segs, k, i);
    } else {
      StartStep(segs, i);
      StartMonotone(segs, i + 1, k);
    }
  }

  /**
   * The segment-mode output shows exactly the revealed prefix of the text; it
   * holds one cursor exactly when the cursor is on and a segment is partially
   * shown, right after that segment's entry with no text after it; and the end
   * indicator appears exactly when asked for.
   */
  lemma SegmentOutput(segs: seq<Segment>, idx: int, cursorOn: bool, indicator: bool)
    ensures var out := Layout(segs, idx, CursorSegment(segs, idx, cursorOn), Cursor(true), false, indicator);
      && VisibleText(out) == Concat(segs)[..Clamp(idx, SumLengths(segs))]
      && CountCursors(out) == (if cursorOn && HasPartial(segs, idx) then 1 else 0)
      && (cursorOn && HasPartial(segs, idx) ==>
            exists p :: 1 <= p < |out| && out[p - 1] == Piece(segs, idx, LastVisible(segs, idx))
                        && out[p] == Cursor(true) && VisibleText(out[p + 1..]) == "")
      && (EndIndicator in out <==> indicator)
  {
    var c := CursorSegment(segs, idx, cursorOn);
    var cursor := Cursor(true);
    PartialIsCursorSegment(segs, idx);
    LayoutText(segs, idx, c, cursor, false, indicator);
    LayoutCursors(segs, idx, c, cursor, false, indicator);
    LayoutIndicator(segs, idx, c, cursor, false, indicator);
    if c >= 0 {
      LayoutCursorAtRevealPoint(segs, idx, cursor, false, indicator);
    }
  }

  /**
   * The body of the `forEach` in `renderSegments` for segment `i`: its entry, and
   * the cursor after it when the segment is partially shown.
   */
  method SegmentEntries(segs: seq<Segment>, idx: int, i: nat, segmentStart: int, cursorOn: bool, cursor: Node)
    returns (entries: seq<Node>)
    requires i < |segs| && segmentStart == Start(segs, i)
    ensures entries == [Piece(segs, idx, i)] + (if i == CursorSegment(segs, idx, cursorOn) then [cursor] else [])
  {
    var segment := segs[i];
    var segmentEnd := segmentStart + |segment.text|;
    if idx <= segmentStart {
      entries := [Blank];
    } else if idx >= segmentEnd {
      entries := [Run(segment.text, segment.render)];
    } else {
      entries := [Run(segment.text[..idx - segmentStart], segment.render)];
      PartialIsLastVisible(segs, idx, i);
      if cursorOn {
        entries := entries + [cursor];
      }
    }
  }

  /**
   * `renderSegments`: one entry per segment, with the cursor after the entry of
   * a partially shown segment, then the end indicator. Its cursor is always
   * animated by the style sheet, so it is rendered as blinking.
   */
  method RenderSegments(segs: seq<Segment>, idx: int, cursorOn: bool, indicator: bool)
    returns (out: seq<Node>)
    ensures out == Layout(segs, idx, CursorSegment(segs, idx, cursorOn), Cursor(true), false, indicator)
  {
    ghost var c := CursorSegment(segs, idx, cursorOn);
    var cursor := Cursor(true);
    out := [];
    var globalIndex := 0;
    var i := 0;
    while i < |segs|
      invariant i <= |segs|
      invariant globalIndex == Start(segs, i)
      invariant out == Pieces(segs, idx, c, cursor, 0, i)
    {
      var entries := SegmentEntries(segs, idx, i, globalIndex, cursorOn, cursor);
      out := out + entries;
      StartStep(segs, i);
      globalIndex := globalIndex + |segs[i].text|;
      i := i + 1;
    }
    if indicator {
      out := out + [EndIndicator];
    }
  }

  // ---------------------------------------------------------------------------
  // The scheduler
  // ---------------------------------------------------------------------------

  /**
   * One mounted typewriter. Its props are fixed and keep their identity from
   * render to render (`pausePoints` is passed, not left to its `[]` default,
   * which is a new array each render); its state is React state plus
   * the timers held in refs. An event method applies one callback's setters as a
   * batch and then runs the commits React performs until no effect's
   * dependencies change.
   */
  class Typewriter {
    const text: Option<string>
    const segments: seq<Segment>
    const pausePoints: seq<PausePoint>
    const keepCursorAfterComplete: bool
    const hasEndIndicator: bool
    const total: nat          // `totalLength`

    var index: int            // `displayedTextIndex`
    var paused: bool          // `isPaused`
    var complete: bool        // `isComplete`
    var showCursor: bool      // `showCursor`
    var timer: Timer          // the one-shot held in `timeoutRef`
    var blinking: bool        // the blink interval in `cursorIntervalRef` is running
    var completions: nat      // how many times `onComplete` has been called

    /** The rendered values the effects depend on; this typewriter has no skip input. */
    function Current(): View
      reads this
    {
      View(index, paused, complete, false)
    }

    /**
     * The state between events: the index stays within the text; below the total
     * length a timer is always armed (the pause end exactly when a pause point
     * matches); at it, nothing is armed and `onComplete` has run exactly once;
     * the blink interval runs from mount on.
     */
    predicate Valid()
      reads this
    {
      var armed := StartTyping(pausePoints, total, index, paused);
      && total == TotalLength(text, segments)
      && 0 <= index <= total
      && (complete <==> index == total)
      && (!complete ==> completions == 0 && timer == armed && timer != NoTimer && (paused <==> armed.PauseEnd?))
      && (complete ==> timer == NoTimer && completions == 1)
      && blinking
    }

    /**
     * The typing effect: its cleanup cancels the pending timer; then `startTyping`
     * arms the next one, setting `isPaused` at a pause point, or, at the end,
     * completes and calls `onComplete`.
     */
    method TypingEffect(now: View)
      modifies this`timer, this`paused, this`complete, this`completions
      ensures timer == StartTyping(pausePoints, total, now.index, now.paused)
      ensures paused == (old(paused) || timer.PauseEnd?)
      ensures complete == (old(complete) || now.index >= total)
      ensures completions == old(completions) + if now.index >= total then 1 else 0
    {
      timer := NoTimer;
      if now.index < total {
        var pausePoint := FindPause(pausePoints, now.index);
        if pausePoint.Some? {
          paused := true;
          timer := PauseEnd(pausePoint.value.duration);
        } else if !now.paused {
          timer := TypingTick;
        }
      } else {
        complete := true;
        completions := completions + 1;
      }
    }

    /**
     * One commit: the typing effect runs at mount and when the index or
     * `isPaused` changed; the blink effect, with no dependencies, only at mount,
     * where it starts the blink interval for good.
     */
    method Commit(prev: Option<View>)
      modifies this
      ensures var now := old(Current());
              var typing := TypingRuns(prev, now);
              var armed := StartTyping(pausePoints, total, now.index, now.paused);
              var ends := typing && now.index >= total;
              && index == now.index
              && paused == (now.paused || (typing && armed.PauseEnd?))
              && complete == (now.complete || ends)
              && completions == old(completions) + (if ends then 1 else 0)
              && timer == (if typing then armed else old(timer))
              && blinking == (prev.None? || old(blinking))
              && showCursor == old(showCursor)
    {
      var now := Current();
      if TypingRuns(prev, now) {
        TypingEffect(now);
      }
      if prev.None? {
        blinking := true;
      }
    }

    /** Mounting: the initial render, then the commits it sets off. */
    constructor (text: Option<string>, segments: seq<Segment>, pausePoints: seq<PausePoint>,
                 keepCursorAfterComplete: bool, hasEndIndicator: bool)
      ensures this.text == text && this.segments == segments && this.pausePoints == pausePoints
      ensures this.keepCursorAfterComplete == keepCursorAfterComplete && this.hasEndIndicator == hasEndIndicator
      ensures Valid() && index == 0 && showCursor
      ensures complete <==> total == 0
    {
      this.text := text;
      this.segments := segments;
      this.pausePoints := pausePoints;
      this.keepCursorAfterComplete := keepCursorAfterComplete;
      this.hasEndIndicator := hasEndIndicator;
      this.total := TotalLength(text, segments);
      index := 0;
      paused := false;
      complete := false;
      showCursor := true;
      timer := NoTimer;
      blinking := false;
      completions := 0;
      new;
      var v0 := Current();
      Commit(None);
      var v1 := Current();
      Commit(Some(v0));
      assert Current() == v1;  // a further commit would find no dependency changed
    }

    /** The typing tick: `prev + 1`; it only fires below the total length. */
    method FireTyping()
      requires Valid() && timer == TypingTick
      modifies this
      ensures Valid()
      ensures index == old(index) + 1
      ensures complete <==> index == total
      ensures paused <==> !complete && FindPause(pausePoints, index).Some?
      ensures showCursor == old(showCursor)
    {
      var v0 := Current();
      timer := NoTimer;
      index := index + 1;
      var v1 := Current();
      Commit(Some(v0));
      var v2 := Current();
      Commit(Some(v1));
      assert Current() == v2;
    }

    /** The end of a pause: `isPaused` cleared and the index advanced by one. */
    method FirePause()
      requires Valid() && timer.PauseEnd?
      modifies this
      ensures Valid()
      ensures index == old(index) + 1
      ensures complete <==> index == total
      ensures paused <==> !complete && FindPause(pausePoints, index).Some?
      ensures showCursor == old(showCursor)
    {
      var v0 := Current();
      timer := NoTimer;
      paused := false;
      index := index + 1;
      var v1 := Current();
      Commit(Some(v0));
      var v2 := Current();
      Commit(Some(v1));
      assert Current() == v2;
    }

    /** A tick of the blink interval, which never stops: the cursor shows or hides, nothing else changes. */
    method FireBlink()
      requires Valid()
      modifies this
      ensures Valid() && showCursor == !old(showCursor)
      ensures Current() == old(Current()) && timer == old(timer) && completions == old(completions)
    {
      var v0 := Current();
      showCursor := !showCursor;
      Commit(Some(v0));
    }

    /**
     * What the typewriter renders (`renderSegments` with segments, else
     * `renderPlainText`): the first `index` characters of its text; one cursor
     * when `showCursor` is on, the cursor is wanted, and, with segments, a
     * segment is partially shown, so none at a segment boundary or at the end;
     * that cursor at the reveal point; and the end indicator exactly once
     * complete with the cursor kept and an indicator given.
     */
    method Render() returns (out: seq<Node>)
      requires Valid()
      ensures VisibleText(out) == FullText(text, segments)[..index]
      ensures CountCursors(out)
           == if showCursor && ShowCursorElement(complete, keepCursorAfterComplete, hasEndIndicator)
                 && (|segments| == 0 || HasPartial(segments, index)) then 1 else 0
      ensures CountCursors(out) == 1 ==>
                exists p :: 0 <= p < |out| && out[p] == Cursor(true) && VisibleText(out[p + 1..]) == ""
      ensures EndIndicator in out <==> ShowCustomIndicator(complete, keepCursorAfterComplete, hasEndIndicator)
    {
      var showCursorElement := ShowCursorElement(complete, keepCursorAfterComplete, hasEndIndicator);
      var showCustomIndicator := ShowCustomIndicator(complete, keepCursorAfterComplete, hasEndIndicator);
      var cursorOn := showCursor && showCursorElement;
      if |segments| > 0 {
        out := RenderSegments(segments, index, cursorOn, showCustomIndicator);
        SegmentOutput(segments, index, cursorOn, showCustomIndicator);
      } else {
        var cursor := if cursorOn then Some(Cursor(true)) else None;
        out := PlainLayout(text, index, cursor, showCustomIndicator);
        PlainLayoutFacts(text, index, cursor, showCustomIndicator);
        if cursorOn {
          assert out[1] == Cursor(true) && VisibleText(out[2..]) == "";
        }
      }
    }
  }
}
