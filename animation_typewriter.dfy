/**
 * The typewriter under app/components/ui/animation (the one the introduction
 * uses): it reveals its text one character per tick from `startFromIndex`, holds
 * at pause points, completes at once when `isSkipped` is set, runs a watchdog
 * while paused, and shows a cursor that blinks only while paused or complete.
 */
module AnimationTypewriter {
  import opened Wrappers
  import opened Segments
  import opened Scheduling

  // ---------------------------------------------------------------------------
  // Cursor placement
  // ---------------------------------------------------------------------------

  /**
   * The segment `renderSegments` puts the cursor after: the last visible one,
   * provided the index has not gone past its end; else -1.
   */
  function CursorSegment(segs: seq<Segment>, idx: int, cursorOn: bool): int
  {
    var last := LastVisible(segs, idx);
    if cursorOn && last >= 0 && idx <= End(segs, last) then last else -1
  }

  /** Whether `renderSegments` adds the cursor after all the segments. */
  function TrailingCursor(segs: seq<Segment>, idx: int, cursorOn: bool): bool
  {
    cursorOn && idx >= SumLengths(segs) && CursorSegment(segs, idx, cursorOn) < 0
  }

  /**
   * In segment mode exactly one cursor shows when the cursor is on and some text
   * is revealed or the end is reached; with nothing revealed of a non-empty text
   * there is none.
   */
  lemma CursorCount(segs: seq<Segment>, idx: int, cursorOn: bool, blinking: bool, indicator: bool)
    ensures CountCursors(Layout(segs, idx, CursorSegment(segs, idx, cursorOn), Cursor(blinking),
                                TrailingCursor(segs, idx, cursorOn), indicator))
         == if cursorOn && (idx > 0 || idx >= SumLengths(segs)) then 1 else 0
  {
    var c := CursorSegment(segs, idx, cursorOn);
    var last := LastVisible(segs, idx);
    LayoutCursors(segs, idx, c, Cursor(blinking), TrailingCursor(segs, idx, cursorOn), indicator);
    if cursorOn && last >= 0 && c < 0 {
      // the index is past the end of the last visible segment, so that segment is the last one
      if last + 1 < |segs| {
        StartStep(segs, last);
      } else {
        StartStep(segs, last);
        StartOfEnd(segs);
      }
    }
    if cursorOn && last < 0 && idx > 0 {
      StartOfEnd(segs);
    }
  }

  /** The test `renderSegments` makes before adding the cursor after segment `i` picks out exactly the cursor segment. */
  lemma CursorTest(segs: seq<Segment>, idx: int, cursorOn: bool, i: nat)
    requires i < |segs|
    ensures (i == LastVisible(segs, idx) && cursorOn && Start(segs, i) < idx <= End(segs, i))
        <==> i == CursorSegment(segs, idx, cursorOn)
  {
  }

  /**
   * The segment-mode output shows exactly the revealed prefix of the text; its
   * cursor, when there is one, sits at the reveal point with no text after it;
   * and the end indicator appears exactly when asked for.
   */
  lemma SegmentOutput(segs: seq<Segment>, idx: int, cursorOn: bool, blinking: bool, indicator: bool)
    ensures var out := Layout(segs, idx, CursorSegment(segs, idx, cursorOn), Cursor(blinking),
                              TrailingCursor(segs, idx, cursorOn), indicator);
      && VisibleText(out) == Concat(segs)[..Clamp(idx, SumLengths(segs))]
      && CountCursors(out) == (if cursorOn && (idx > 0 || idx >= SumLengths(segs)) then 1 else 0)
      && (cursorOn && (idx > 0 || idx >= SumLengths(segs)) ==>
            exists p :: 0 <= p < |out| && out[p] == Cursor(blinking) && VisibleText(out[p + 1..]) == "")
      && (EndIndicator in out <==> indicator)
  {
    var c := CursorSegment(segs, idx, cursorOn);
    var trailing := TrailingCursor(segs, idx, cursorOn);
    var cursor := Cursor(blinking);
    LayoutText(segs, idx, c, cursor, trailing, indicator);
    CursorCount(segs, idx, cursorOn, blinking, indicator);
    LayoutIndicator(segs, idx, c, cursor, trailing, indicator);
    LayoutCursors(segs, idx, c, cursor, trailing, indicator);
    if c >= 0 {
      assert !trailing;
      LayoutCursorAtRevealPoint(segs, idx, cursor, false, indicator);
    } else if trailing {
      LayoutTrailingCursor(segs, idx, cursor, indicator);
    }
  }

  /**
   * The body of the second `forEach` pass for segment `i`: its entry, then the
   * cursor when this is the last visible segment, the index lies inside it or
   * at its end, and no cursor has been added yet.
   */
  method SegmentEntries(segs: seq<Segment>, idx: int, i: nat, segmentStart: int, last: int,
                        cursorOn: bool, cursorAdded: bool, cursor: Node)
    returns (entries: seq<Node>, added: bool)
    requires i < |segs| && segmentStart == Start(segs, i) && last == LastVisible(segs, idx)
    ensures entries == [Piece(segs, idx, i)]
                       + (if !cursorAdded && i == CursorSegment(segs, idx, cursorOn) then [cursor] else [])
    ensures added == (cursorAdded || i == CursorSegment(segs, idx, cursorOn))
  {
    var segment := segs[i];
    var segmentEnd := segmentStart + |segment.text|;
    CursorTest(segs, idx, cursorOn, i);
    added := cursorAdded;
    if idx <= segmentStart {
      entries := [Blank];
    } else if idx >= segmentEnd {
      entries := [Run(segment.text, segment.render)];
      if i == last && idx == segmentEnd && cursorOn && !cursorAdded {
        entries := entries + [cursor];
        added := true;
      }
    } else {
      entries := [Run(segment.text[..idx - segmentStart], segment.render)];
      if i == last && cursorOn && !cursorAdded {
        entries := entries + [cursor];
        added := true;
      }
    }
  }

  /** The second `forEach` pass of `renderSegments`: every segment's entry, the cursor after the cursor segment. */
  method PlaceEntries(segs: seq<Segment>, idx: int, last: int, cursorOn: bool, cursor: Node)
    returns (out: seq<Node>, cursorAdded: bool)
    requires last == LastVisible(segs, idx)
    ensures out == Pieces(segs, idx, CursorSegment(segs, idx, cursorOn), cursor, 0, |segs|)
    ensures cursorAdded == (CursorSegment(segs, idx, cursorOn) >= 0)
  {
    ghost var c := CursorSegment(segs, idx, cursorOn);
    cursorAdded := false;
    out := [];
    var globalIndex := 0;
    var i := 0;
    while i < |segs|
      invariant i <= |segs|
      invariant globalIndex == Start(segs, i)
      invariant out == Pieces(segs, idx, c, cursor, 0, i)
      invariant cursorAdded == (0 <= c < i)
    {
      var entries, added := SegmentEntries(segs, idx, i, globalIndex, last, cursorOn, cursorAdded, cursor);
      assert Pieces(segs, idx, c, cursor, 0, i + 1) == out + entries;
      out := out + entries;
      cursorAdded := added;
      StartStep(segs, i);
      globalIndex := globalIndex + |segs[i].text|;
      i := i + 1;
    }
  }

  /**
   * `renderSegments`: one entry per segment, the cursor after the last visible
   * segment while the index is within it or at its end, else after everything
   * once the end is reached, then the end indicator.
   */
  method RenderSegments(segs: seq<Segment>, idx: int, cursorOn: bool, blinking: bool, indicator: bool)
    returns (out: seq<Node>)
    ensures out == Layout(segs, idx, CursorSegment(segs, idx, cursorOn), Cursor(blinking),
                          TrailingCursor(segs, idx, cursorOn), indicator)
  {
    // first pass: the last segment whose start is before the index
    var last, total := ScanSegments(segs, idx);

    // second pass: the entries, and the cursor after the last visible segment
    var cursor := Cursor(blinking);
    var cursorAdded;
    out, cursorAdded := PlaceEntries(segs, idx, last, cursorOn, cursor);

    assert (idx >= total && cursorOn && !cursorAdded) == TrailingCursor(segs, idx, cursorOn);
    if idx >= total && cursorOn && !cursorAdded {
      out := out + [cursor];
    }
    if indicator {
      out := out + [EndIndicator];
    }
  }

  // ---------------------------------------------------------------------------
  // The scheduler
  // ---------------------------------------------------------------------------

  /**
   * One mounted typewriter. Its props are fixed except `isSkipped`, and they keep
   * their identity from render to render (`pausePoints` is passed, not left to
   * its `[]` default, which is a new array each render); its state is
   * React state plus the timers and counters held in refs. An event method
   * applies one callback's setters as a batch and then runs the commits React
   * performs until no effect's dependencies change.
   */
  class Typewriter {
    const text: Option<string>
    const segments: seq<Segment>
    const pausePoints: seq<PausePoint>
    const keepCursorAfterComplete: bool
    const hasEndIndicator: bool
    const startFromIndex: int

    var isSkipped: bool       // the `isSkipped` prop
    var index: int            // `displayedTextIndex`
    var paused: bool          // `isPaused`
    var complete: bool        // `isComplete`
    var showCursor: bool      // `showCursor`
    var timer: Timer          // the one-shot held in `timeoutRef`
    var watchdogArmed: bool   // a `forceResumeTimeout` is pending
    var attempts: nat         // `pauseResumeAttempts`
    var blinking: bool        // the blink interval in `cursorIntervalRef` is running
    var completions: nat      // how many times `onComplete` has been called

    const total: nat          // `totalLength`

    /** The rendered values the effects depend on. */
    function Current(): View
      reads this
    {
      View(index, paused, complete, isSkipped)
    }

    /**
     * The state between events: below the total length a timer is always armed
     * (the pause end exactly when a pause point matches); past it, nothing is
     * armed and `onComplete` has run; the watchdog has fired at most twice per
     * pause; the blink interval runs exactly while paused or complete.
     */
    predicate Valid()
      reads this
    {
      var armed := StartTyping(pausePoints, total, index, paused);
      var dog := attempts + (if watchdogArmed then 1 else 0);
      && total == TotalLength(text, segments)
      && (complete <==> index >= total)
      && (index > total ==> index == startFromIndex)
      && (isSkipped ==> complete)
      && (!complete ==> completions == 0 && timer == armed && timer != NoTimer && (paused <==> armed.PauseEnd?))
      && (complete ==> timer == NoTimer && completions >= 1)
      && (!paused ==> !watchdogArmed && attempts == 0)
      && (paused && !complete ==> dog == 1)
      && (paused ==> dog <= 2)
      && blinking == (paused || complete)
      && (!blinking ==> showCursor)
    }

    /** The watchdog effect: its cleanup cancels the pending check; while paused it arms a new one, otherwise it resets the count. */
    method WatchdogEffect(now: View)
      modifies this`watchdogArmed, this`attempts
      ensures watchdogArmed == now.paused
      ensures attempts == if now.paused then old(attempts) else 0
    {
      if now.paused {
        watchdogArmed := true;
      } else {
        watchdogArmed := false;
        attempts := 0;
      }
    }

    /** The skip effect: when skipped and not complete, it cancels the pending timer, completes at once and calls `onComplete`. */
    method SkipEffect(now: View)
      modifies this`timer, this`index, this`complete, this`completions
      ensures now.skipped && !now.complete ==>
                timer == NoTimer && index == total && complete && completions == old(completions) + 1
      ensures !(now.skipped && !now.complete) ==>
                timer == old(timer) && index == old(index) && complete == old(complete) && completions == old(completions)
    {
      if now.skipped && !now.complete {
        timer := NoTimer;
        index := total;
        complete := true;
        completions := completions + 1;
      }
    }

    /**
     * The typing effect: its cleanup cancels the pending timer; then `startTyping`
     * arms the next one, setting `isPaused` at a pause point, or, at the end,
     * completes and calls `onComplete`.
     */
    method TypingEffect(now: View)
      modifies this`timer, this`paused, this`complete, this`completions
      ensures timer == StartTyping(pausePoints, total, now.index, now.paused)
      ensures paused == (old(paused) || timer.PauseEnd?)
      ensures complete == (old(complete) || now.index >= total)
      ensures completions == old(completions) + if now.index >= total then 1 else 0
    {
      timer := NoTimer;
      if now.index < total {
        var pausePoint := FindPause(pausePoints, now.index);
        if pausePoint.Some? {
          paused := true;
          timer := PauseEnd(pausePoint.value.duration);
        } else if !now.paused {
          timer := TypingTick;
        }
      } else {
        complete := true;
        completions := completions + 1;
      }
    }

    /** The blink effect: the blink interval runs while paused or complete; otherwise the cursor is held visible. */
    method BlinkEffect(now: View)
      modifies this`blinking, this`showCursor
      ensures blinking == (now.paused || now.complete)
      ensures showCursor == (old(showCursor) || !blinking)
    {
      blinking := now.paused || now.complete;
      if !blinking {
        showCursor := true;
      }
    }

    /**
     * One commit: the effects whose dependencies changed since `prev` (all of
     * them at mount, when `prev` is None) run in declaration order, reading the
     * rendered values; their setters take effect together afterwards.
     */
    method Commit(prev: Option<View>)
      modifies this
      ensures var now := old(Current());
              var skipActs := SkipRuns(prev, now) && now.skipped && !now.complete;
              var typing := TypingRuns(prev, now);
              var armed := StartTyping(pausePoints, total, now.index, now.paused);
              var ends := typing && now.index >= total;
              && isSkipped == old(isSkipped)
              && index == (if skipActs then total else now.index)
              && paused == (now.paused || (typing && armed.PauseEnd?))
              && complete == (now.complete || skipActs || ends)
              && completions == old(completions) + (if skipActs then 1 else 0) + (if ends then 1 else 0)
              && timer == (if typing then armed else if skipActs then NoTimer else old(timer))
              && watchdogArmed == (if WatchdogRuns(prev, now) then now.paused else old(watchdogArmed))
              && attempts == (if WatchdogRuns(prev, now) && !now.paused then 0 else old(attempts))
              && blinking == (if BlinkRuns(prev, now) then now.paused || now.complete else old(blinking))
              && showCursor == (old(showCursor) || (BlinkRuns(prev, now) && !now.paused && !now.complete))
    {
      var now := Current();
      if WatchdogRuns(prev, now) {
        WatchdogEffect(now);
      }
      if SkipRuns(prev, now) {
        SkipEffect(now);
      }
      if TypingRuns(prev, now) {
        TypingEffect(now);
      }
      if BlinkRuns(prev, now) {
        BlinkEffect(now);
      }
    }

    /** Mounting: the initial render, then the commits it sets off. */
    constructor (text: Option<string>, segments: seq<Segment>, pausePoints: seq<PausePoint>,
                 keepCursorAfterComplete: bool, hasEndIndicator: bool, isSkipped: bool, startFromIndex: int)
      ensures this.text == text && this.segments == segments && this.pausePoints == pausePoints
      ensures this.keepCursorAfterComplete == keepCursorAfterComplete && this.hasEndIndicator == hasEndIndicator
      ensures this.startFromIndex == startFromIndex && this.isSkipped == isSkipped
      ensures Valid()
      ensures !isSkipped ==> index == startFromIndex
      ensures !isSkipped ==> completions == (if startFromIndex >= total then 1 else 0)
      ensures isSkipped ==> index == total && complete
      ensures isSkipped ==> completions == (if startFromIndex > total then 3 else 2)
    {
      this.text := text;
      this.segments := segments;
      this.pausePoints := pausePoints;
      this.keepCursorAfterComplete := keepCursorAfterComplete;
      this.hasEndIndicator := hasEndIndicator;
      this.startFromIndex := startFromIndex;
      this.total := TotalLength(text, segments);
      this.isSkipped := isSkipped;
      index := startFromIndex;
      paused := false;
      complete := false;
      showCursor := true;
      timer := NoTimer;
      watchdogArmed := false;
      attempts := 0;
      blinking := false;
      completions := 0;
      new;
      var v0 := Current();
      Commit(None);
      var v1 := Current();
      Commit(Some(v0));
      assert Current() == v1;  // a further commit would find no dependency changed
    }

    /** The typing tick: `Math.min(prev + 1, totalLength)`. */
    method FireTyping()
      requires Valid() && timer == TypingTick
      modifies this
      ensures Valid()
      ensures index == old(index) + 1 <= total
      ensures complete <==> index == total
      ensures completions == (if complete then 1 else 0)
      ensures paused <==> !complete && FindPause(pausePoints, index).Some?
      ensures isSkipped == old(isSkipped) && showCursor == old(showCursor)
    {
      var v0 := Current();
      timer := NoTimer;
      index := if index + 1 < total then index + 1 else total;
      var v1 := Current();
      Commit(Some(v0));
      var v2 := Current();
      Commit(Some(v1));
      assert Current() == v2;
    }

    /** The end of a pause: `isPaused` cleared and the index advanced by one. */
    method FirePause()
      requires Valid() && timer.PauseEnd?
      modifies this
      ensures Valid()
      ensures index == old(index) + 1 <= total
      ensures complete <==> index == total
      ensures completions == (if complete then 1 else 0)
      ensures paused <==> !complete && FindPause(pausePoints, index).Some?
      ensures isSkipped == old(isSkipped)
    {
      var v0 := Current();
      timer := NoTimer;
      paused := false;
      index := index + 1;
      var v1 := Current();
      Commit(Some(v0));
      var v2 := Current();
      Commit(Some(v1));
      assert Current() == v2;
    }

    /**
     * The watchdog's one-shot check: it counts an attempt and forces a resume
     * only at the third. Between events it never gets there: it is armed only
     * when `isPaused` or the index changes, so at most twice per pause.
     */
    method FireWatchdog()
      requires watchdogArmed
      modifies this
      ensures old(attempts) + 1 < 3 ==>
                attempts == old(attempts) + 1 && !watchdogArmed && Current() == old(Current())
                && timer == old(timer) && completions == old(completions)
      ensures old(attempts) + 1 >= 3 ==> attempts == 0 && index == old(index) + 1
      ensures old(Valid()) ==> Valid() && old(attempts) + 1 < 3
    {
      var v0 := Current();
      watchdogArmed := false;
      attempts := attempts + 1;
      if attempts >= 3 {
        paused := false;
        index := index + 1;
        attempts := 0;
        var v1 := Current();
        Commit(Some(v0));
        var v2 := Current();
        Commit(Some(v1));
        assert Current() == v2;
      }
    }

    /** A new value of the `isSkipped` prop: skipping completes at once, unless already complete. */
    method SetSkipped(skipped: bool)
      requires Valid()
      modifies this
      ensures Valid() && isSkipped == skipped && paused == old(paused)
      ensures skipped && !old(complete) ==>
                index == total && complete && completions == 2 && timer == NoTimer
      ensures !(skipped && !old(complete)) ==>
                index == old(index) && complete == old(complete) && completions == old(completions)
                && timer == old(timer)
    {
      var v0 := Current();
      isSkipped := skipped;
      var v1 := Current();
      Commit(Some(v0));
      var v2 := Current();
      Commit(Some(v1));
      assert Current() == v2;
    }

    /** A tick of the blink interval: the cursor shows or hides, nothing else changes. */
    method FireBlink()
      requires Valid() && blinking
      modifies this
      ensures Valid() && showCursor == !old(showCursor)
      ensures Current() == old(Current()) && timer == old(timer) && completions == old(completions)
    {
      var v0 := Current();
      showCursor := !showCursor;
      Commit(Some(v0));
    }

    /**
     * What the typewriter renders (`renderSegments` with segments, else
     * `renderPlainText`): the first `index` characters of its text; one cursor
     * when `showCursor` is on, the cursor is wanted (`!isComplete ||
     * keepCursorAfterComplete`), and, with segments, something is revealed or the
     * end is reached; that cursor at the reveal point, blinking exactly while
     * paused or complete; and the end indicator exactly once complete.
     */
    method Render() returns (out: seq<Node>)
      requires Valid()
      ensures VisibleText(out) == FullText(text, segments)[..Clamp(index, total)]
      ensures CountCursors(out)
           == if showCursor && (!complete || keepCursorAfterComplete)
                 && (|segments| == 0 || index > 0 || index >= total) then 1 else 0
      ensures CountCursors(out) == 1 ==>
                exists p :: 0 <= p < |out| && out[p] == Cursor(paused || complete) && VisibleText(out[p + 1..]) == ""
      ensures EndIndicator in out <==> complete && hasEndIndicator
    {
      var showCursorElement := !complete || (complete && keepCursorAfterComplete);
      var showCustomIndicator := complete && hasEndIndicator;
      var cursorOn := showCursor && showCursorElement;
      var blink := paused || complete;
      if |segments| > 0 {
        out := RenderSegments(segments, index, cursorOn, blink, showCustomIndicator);
        SegmentOutput(segments, index, cursorOn, blink, showCustomIndicator);
      } else {
        var cursor := if cursorOn then Some(Cursor(blink)) else None;
        out := PlainLayout(text, index, cursor, showCustomIndicator);
        PlainLayoutFacts(text, index, cursor, showCustomIndicator);
        if cursorOn {
          assert out[1] == Cursor(blink) && VisibleText(out[2..]) == "";
        }
      }
    }
  }
}
