/**
 * The typewriter under app/components/Typewriter.tsx: the same reveal as the
 * animation typewriter, from `startFromIndex` and with `isSkipped`, but with no
 * watchdog, an unclamped typing tick, and the cursor always after the last
 * visible segment.
 */
module SkippableTypewriter {
  import opened Wrappers
  import opened Segments
  import opened Scheduling

  // ---------------------------------------------------------------------------
  // Cursor placement
  // ---------------------------------------------------------------------------

  /** The segment `renderSegments` puts the cursor after: the last visible one, whether full or partial. */
  function CursorSegment(segs: seq<Segment>, idx: int, cursorOn: bool): int
  {
    if cursorOn then LastVisible(segs, idx) else -1
  }

  /**
   * The segment-mode output shows exactly the revealed prefix of the text; it
   * holds one cursor when the cursor is on and something is revealed, none at
   * index 0; that cursor follows the last visible segment's entry with no text
   * after it; and the end indicator appears exactly when asked for.
   */
  lemma SegmentOutput(segs: seq<Segment>, idx: int, cursorOn: bool, blinking: bool, indicator: bool)
    ensures var out := Layout(segs, idx, CursorSegment(segs, idx, cursorOn), Cursor(blinking), false, indicator);
      && VisibleText(out) == Concat(segs)[..Clamp(idx, SumLengths(segs))]
      && CountCursors(out) == (if cursorOn && idx > 0 && |segs| > 0 then 1 else 0)
      && (cursorOn && idx > 0 && |segs| > 0 ==>
            exists p :: 1 <= p < |out| && out[p - 1] == Piece(segs, idx, LastVisible(segs, idx))
                        && out[p] == Cursor(blinking) && VisibleText(out[p + 1..]) == "")
      && (EndIndicator in out <==> indicator)
  {
    var c := CursorSegment(segs, idx, cursorOn);
    var cursor := Cursor(blinking);
    LayoutText(segs, idx, c, cursor, false, indicator);
    LayoutCursors(segs, idx, c, cursor, false, indicator);
    LayoutIndicator(segs, idx, c, cursor, false, indicator);
    if c >= 0 {
      LayoutCursorAtRevealPoint(segs, idx, cursor, false, indicator);
    }
  }

  /** `renderSegments`: one entry per segment, the cursor right after the last visible one, then the end indicator. */
  method RenderSegments(segs: seq<Segment>, idx: int, cursorOn: bool, blinking: bool, indicator: bool)
    returns (out: seq<Node>)
    ensures out == Layout(segs, idx, CursorSegment(segs, idx, cursorOn), Cursor(blinking), false, indicator)
  {
    // first pass: the last segment whose start is before the index
    var last, _ := ScanSegments(segs, idx);

    // second pass: the entries, and the cursor after the last visible segment
    ghost var c := CursorSegment(segs, idx, cursorOn);
    var cursor := Cursor(blinking);
    out := [];
    var globalIndex := 0;
    var i := 0;
    while i < |segs|
      invariant i <= |segs|
      invariant globalIndex == Start(segs, i)
      invariant out == Pieces(segs, idx, c, cursor, 0, i)
    {
      var segment := segs[i];
      var segmentStart := globalIndex;
      if idx <= segmentStart {
        out := out + [Blank];
      } else if idx >= segmentStart + |segment.text| {
        out := out + [Run(segment.text, segment.render)];
      } else {
        out := out + [Run(segment.text[..idx - segmentStart], segment.render)];
      }
      if i == last && cursorOn {
        out := out + [cursor];
      }
      StartStep(segs, i);
      globalIndex := globalIndex + |segment.text|;
      i := i + 1;
    }
    if indicator {
      out := out + [EndIndicator];
    }
  }

  // ---------------------------------------------------------------------------
  // The scheduler
  // ---------------------------------------------------------------------------

  /**
   * One mounted typewriter. Its props are fixed except `isSkipped`, and they keep
   * their identity from render to render (`pausePoints` is passed, not left to
   * its `[]` default, which is a new array each render); its state is
   * React state plus the timers held in refs. An event method applies one
   * callback's setters as a batch and then runs the commits React performs until
   * no effect's dependencies change.
   */
  class Typewriter {
    const text: Option<string>
    const segments: seq<Segment>
    const pausePoints: seq<PausePoint>
    const keepCursorAfterComplete: bool
    const hasEndIndicator: bool
    const startFromIndex: int
    const total: nat          // `totalLength`

    var isSkipped: bool       // the `isSkipped` prop
    var index: int            // `displayedTextIndex`
    var paused: bool          // `isPaused`
    var complete: bool        // `isComplete`
    var showCursor: bool      // `showCursor`
    var timer: Timer          // the one-shot held in `timeoutRef`
    var blinking: bool        // the blink interval in `cursorIntervalRef` is running
    var completions: nat      // how many times `onComplete` has been called

    /** The rendered values the effects depend on. */
    function Current(): View
      reads this
    {
      View(index, paused, complete, isSkipped)
    }

    /**
     * The state between events: below the total length a timer is always armed
     * (the pause end exactly when a pause point matches); past it, nothing is
     * armed and `onComplete` has run; the blink interval runs exactly while
     * paused or complete.
     */
    predicate Valid()
      reads this
    {
      var armed := StartTyping(pausePoints, total, index, paused);
      && total == TotalLength(text, segments)
      && (complete <==> index >= total)
      && (index > total ==> index == startFromIndex)
      && (isSkipped ==> complete)
      && (!complete ==> completions == 0 && timer == armed && timer != NoTimer && (paused <==> armed.PauseEnd?))
      && (complete ==> timer == NoTimer && completions >= 1)
      && blinking == (paused || complete)
      && (!blinking ==> showCursor)
    }

    /** The skip effect: when skipped and not complete, it cancels the pending timer, completes at once and calls `onComplete`. */
    method SkipEffect(now: View)
      modifies this`timer, this`index, this`complete, this`completions
      ensures now.skipped && !now.complete ==>
                timer == NoTimer && index == total && complete && completions == old(completions) + 1
      ensures !(now.skipped && !now.complete) ==>
                timer == old(timer) && index == old(index) && complete == old(complete) && completions == old(completions)
    {
      if now.skipped && !now.complete {
        timer := NoTimer;
        index := total;
        complete := true;
        completions := completions + 1;
      }
    }

    /**
     * The typing effect: its cleanup cancels the pending timer; then `startTyping`
     * arms the next one, setting `isPaused` at a pause point, or, at the end,
     * completes and calls `onComplete`.
     */
    method TypingEffect(now: View)
      modifies this`timer, this`paused, this`complete, this`completions
      ensures timer == StartTyping(pausePoints, total, now.index, now.paused)
      ensures paused == (old(paused) || timer.PauseEnd?)
      ensures complete == (old(complete) || now.index >= total)
      ensures completions == old(completions) + if now.index >= total then 1 else 0
    {
      timer := NoTimer;
      if now.index < total {
        var pausePoint := FindPause(pausePoints, now.index);
        if pausePoint.Some? {
          paused := true;
          timer := PauseEnd(pausePoint.value.duration);
        } else if !now.paused {
          timer := TypingTick;
        }
      } else {
        complete := true;
        completions := completions + 1;
      }
    }

    /** The blink effect: the blink interval runs while paused or complete; otherwise the cursor is held visible. */
    method BlinkEffect(now: View)
      modifies this`blinking, this`showCursor
      ensures blinking == (now.paused || now.complete)
      ensures showCursor == (old(showCursor) || !blinking)
    {
      blinking := now.paused || now.complete;
      if !blinking {
        showCursor := true;
      }
    }

    /**
     * One commit: the effects whose dependencies changed since `prev` (all of
     * them at mount, when `prev` is None) run in declaration order, reading the
     * rendered values; their setters take effect together afterwards.
     */
    method Commit(prev: Option<View>)
      modifies this
      ensures var now := old(Current());
              var skipActs := SkipRuns(prev, now) && now.skipped && !now.complete;
              var typing := TypingRuns(prev, now);
              var armed := StartTyping(pausePoints, total, now.index, now.paused);
              var ends := typing && now.index >= total;
              && isSkipped == old(isSkipped)
              && index == (if skipActs then total else now.index)
              && paused == (now.paused || (typing && armed.PauseEnd?))
              && complete == (now.complete || skipActs || ends)
              && completions == old(completions) + (if skipActs then 1 else 0) + (if ends then 1 else 0)
              && timer == (if typing then armed else if skipActs then NoTimer else old(timer))
              && blinking == (if BlinkRuns(prev, now) then now.paused || now.complete else old(blinking))
              && showCursor == (old(showCursor) || (BlinkRuns(prev, now) && !now.paused && !now.complete))
    {
      var now := Current();
      if SkipRuns(prev, now) {
        SkipEffect(now);
      }
      if TypingRuns(prev, now) {
        TypingEffect(now);
      }
      if BlinkRuns(prev, now) {
        BlinkEffect(now);
      }
    }

    /** Mounting: the initial render, then the commits it sets off. */
    constructor (text: Option<string>, segments: seq<Segment>, pausePoints: seq<PausePoint>,
                 keepCursorAfterComplete: bool, hasEndIndicator: bool, isSkipped: bool, startFromIndex: int)
      ensures this.text == text && this.segments == segments && this.pausePoints == pausePoints
      ensures this.keepCursorAfterComplete == keepCursorAfterComplete && this.hasEndIndicator == hasEndIndicator
      ensures this.startFromIndex == startFromIndex && this.isSkipped == isSkipped
      ensures Valid()
      ensures !isSkipped ==> index == startFromIndex
      ensures !isSkipped ==> completions == (if startFromIndex >= total then 1 else 0)
      ensures isSkipped ==> index == total && complete
      ensures isSkipped ==> completions == (if startFromIndex > total then 3 else 2)
    {
      this.text := text;
      this.segments := segments;
      this.pausePoints := pausePoints;
      this.keepCursorAfterComplete := keepCursorAfterComplete;
      this.hasEndIndicator := hasEndIndicator;
      this.startFromIndex := startFromIndex;
      this.total := TotalLength(text, segments);
      this.isSkipped := isSkipped;
      index := startFromIndex;
      paused := false;
      complete := false;
      showCursor := true;
      timer := NoTimer;
      blinking := false;
      completions := 0;
      new;
      var v0 := Current();
      Commit(None);
      var v1 := Current();
      Commit(Some(v0));
      assert Current() == v1;  // a further commit would find no dependency changed
    }

    /** The typing tick: `prev + 1`, with no clamp; it only fires below the total length. */
    method FireTyping()
      requires Valid() && timer == TypingTick
      modifies this
      ensures Valid()
      ensures index == old(index) + 1 <= total
      ensures complete <==> index == total
      ensures completions == (if complete then 1 else 0)
      ensures paused <==> !complete && FindPause(pausePoints, index).Some?
      ensures isSkipped == old(isSkipped) && showCursor == old(showCursor)
    {
      var v0 := Current();
      timer := NoTimer;
      index := index + 1;
      var v1 := Current();
      Commit(Some(v0));
      var v2 := Current();
      Commit(Some(v1));
      assert Current() == v2;
    }

    /** The end of a pause: `isPaused` cleared and the index advanced by one. */
    method FirePause()
      requires Valid() && timer.PauseEnd?
      modifies this
      ensures Valid()
      ensures index == old(index) + 1 <= total
      ensures complete <==> index == total
      ensures completions == (if complete then 1 else 0)
      ensures paused <==> !complete && FindPause(pausePoints, index).Some?
      ensures isSkipped == old(isSkipped)
    {
      var v0 := Current();
      timer := NoTimer;
      paused := false;
      index := index + 1;
      var v1 := Current();
      Commit(Some(v0));
      var v2 := Current();
      Commit(Some(v1));
      assert Current() == v2;
    }

    /** A new value of the `isSkipped` prop: skipping completes at once, unless already complete. */
    method SetSkipped(skipped: bool)
      requires Valid()
      modifies this
      ensures Valid() && isSkipped == skipped && paused == old(paused)
      ensures skipped && !old(complete) ==>
                index == total && complete && completions == 2 && timer == NoTimer
      ensures !(skipped && !old(complete)) ==>
                index == old(index) && complete == old(complete) && completions == old(completions)
                && timer == old(timer)
    {
      var v0 := Current();
      isSkipped := skipped;
      var v1 := Current();
      Commit(Some(v0));
      var v2 := Current();
      Commit(Some(v1));
      assert Current() == v2;
    }

    /** A tick of the blink interval: the cursor shows or hides, nothing else changes. */
    method FireBlink()
      requires Valid() && blinking
      modifies this
      ensures Valid() && showCursor == !old(showCursor)
      ensures Current() == old(Current()) && timer == old(timer) && completions == old(completions)
    {
      var v0 := Current();
      showCursor := !showCursor;
      Commit(Some(v0));
    }

    /**
     * What the typewriter renders (`renderSegments` with segments, else
     * `renderPlainText`): the first `index` characters of its text; one cursor
     * when `showCursor` is on, the cursor is wanted (`!isComplete ||
     * keepCursorAfterComplete`), and, with segments, something is revealed; that
     * cursor at the reveal point, blinking exactly while paused or complete; and
     * the end indicator exactly once complete.
     */
    method Render() returns (out: seq<Node>)
      requires Valid()
      ensures VisibleText(out) == FullText(text, segments)[..Clamp(index, total)]
      ensures CountCursors(out)
           == if showCursor && (!complete || keepCursorAfterComplete) && (|segments| == 0 || index > 0) then 1 else 0
      ensures CountCursors(out) == 1 ==>
                exists p :: 0 <= p < |out| && out[p] == Cursor(paused || complete) && VisibleText(out[p + 1..]) == ""
      ensures EndIndicator in out <==> complete && hasEndIndicator
    {
      var showCursorElement := !complete || (complete && keepCursorAfterComplete);
      var showCustomIndicator := complete && hasEndIndicator;
      var cursorOn := showCursor && showCursorElement;
      var blink := paused || complete;
      if |segments| > 0 {
        out := RenderSegments(segments, index, cursorOn, blink, showCustomIndicator);
        SegmentOutput(segments, index, cursorOn, blink, showCustomIndicator);
      } else {
        var cursor := if cursorOn then Some(Cursor(blink)) else None;
        out := PlainLayout(text, index, cursor, showCustomIndicator);
        PlainLayoutFacts(text, index, cursor, showCustomIndicator);
        if cursorOn {
          assert out[1] == Cursor(blink) && VisibleText(out[2..]) == "";
        }
      }
    }
  }
}
