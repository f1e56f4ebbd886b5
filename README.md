# Portfolio site state machines, in Dafny

This project models the interactive core of a personal portfolio website built
with Next.js and React, and proves properties of that model.

- **The typewriter reveal engine.** It exists in three diverging copies:
  - `app/components/ui/animation/Typewriter.tsx`: the one the introduction uses, with skip and a pause watchdog;
  - `app/components/Typewriter.tsx`: with skip, without the watchdog;
  - `app/components/TypeWriter.tsx`: the original, which starts at 0 and has no skip.

  Each copy reveals a text, plain or split into styled segments, one character
  per timer tick. It holds at pause points, completes and calls `onComplete`,
  and renders the revealed prefix with a `_` cursor. Each copy places that
  cursor by its own rule.
- **The animation manager hook** (`app/hooks/useAnimationManager.ts`). It
  decides at mount whether the intro plays, using a replay cooldown on a
  timestamp in local storage. Then it steps TYPING → CONTENT_FADING → COMPLETE.
  The cooldown constant is named `TEN_MINUTES_MS`, and the comments beside the
  gate speak of ten minutes. But its value, `10 * 60 * 10`, is 6000 ms (six
  seconds). The model follows the value; a ten-minute window would be
  600000 ms.
- **The theme provider** (`app/components/ui/theme/ThemeProvider.tsx`). It
  holds the light or dark theme, taken from local storage or the system
  preference. It follows the system until the user toggles, and persists the
  theme once the user has set it by hand.
- **The mouse trail** (`app/components/ui/effects/MouseTrail.tsx`). Each mouse
  move adds a dot, and at most 30 dots are kept. Each 30 ms tick moves, fades
  and ages every dot and drops the dead ones.

Modules:

- `Segments` (segments.dfy) is the segment model the three typewriters share:
  - total length, and where each segment starts;
  - the projection of a reveal index onto the segments (not started, full, or a prefix);
  - the last visible segment;
  - `pausePoints.find`;
  - the render output as a list of entries, and lemmas about its visible text, cursors and end indicator.
- `Scheduling` (scheduling.dfy) holds the timer that `startTyping` arms, and when each effect re-runs.
- `AnimationTypewriter`, `SkippableTypewriter` and `OriginalTypewriter` each hold one copy:
  - its cursor placement;
  - its `renderSegments` loops as methods;
  - the component as a class.
- `JsNumbers` (js_numbers.dfy) models `parseInt` and integer `toString`, over exact integers.
- `AnimationManager`, `ThemeProvider` and `MouseTrail` hold the other three components.
- `Wrappers` holds `Option`.

React is modelled as follows:

- A component is a class. Its React state and refs are fields.
- A timer or listener firing is an event method. It applies that callback's
  setters as one batch.
- Then the commits React performs run, until no effect's dependency changes.
  In each commit, the effects whose dependencies changed run in declaration
  order. They read the values of the render being committed.
- `Commit` is one such commit. `Valid()` is the invariant every event method
  preserves.
- Timers are events, not time. Clock readings, `Math.random()` values and
  storage contents are parameters or fields.

## Model

| member | source | states |
|---|---|---|
| Segments.TotalLength | app/components/ui/animation/Typewriter.tsx:59-64 | `totalLength` is the length of the text being revealed: the sum of the segment lengths when there are segments, else the length of `text`, 0 when absent |
| Segments.Concat | app/components/ui/animation/Typewriter.tsx:62-63 | the segments' text in order has the summed length `reduce` computes |
| Segments.Resolve | app/components/ui/animation/Typewriter.tsx:198-261 | a segment at a reveal index is not started (index ≤ start), full (index ≥ end) or a proper, non-empty prefix of length index − start |
| Segments.LastVisibleIn | app/components/ui/animation/Typewriter.tsx:184-193 | the last of the first k segments whose start is below the index, or -1; every later one starts at or after the index |
| Segments.LastVisible | app/components/ui/animation/Typewriter.tsx:184-193 | `lastVisibleSegmentIndex` is -1 exactly when there are no segments or the index is ≤ 0 |
| Segments.ScanSegments | app/components/ui/animation/Typewriter.tsx:180-193 | the first `forEach` pass computes the last visible segment and the total length |
| Segments.PartialIsLastVisible | app/components/ui/animation/Typewriter.tsx:233-258 | a partially shown segment is always the last visible one, so at most one segment is partial |
| Segments.BeforeLastVisibleIsFull | app/components/ui/animation/Typewriter.tsx:198-261 | every segment before the last visible one is fully shown, and the last visible one is not blank |
| Segments.ResolveAtTotal | app/components/ui/animation/Typewriter.tsx:97 | at the total length, which skip jumps to, no segment is partial and every non-empty one is full |
| Segments.StartMonotone | app/components/ui/animation/Typewriter.tsx:260 | segment start offsets never decrease along the list |
| Segments.FindPauseFrom | app/components/ui/animation/Typewriter.tsx:111 | `find` returns the first pause point whose index matches, and none exactly when no pause point matches |
| Segments.AppendOutputs | app/components/ui/animation/Typewriter.tsx:198-278 | pushing entries appends their visible text and adds their cursors |
| Segments.PiecesText | app/components/ui/animation/Typewriter.tsx:198-261 | the entries of the first k segments show exactly the first `index` characters of those segments' text |
| Segments.LayoutText | app/components/ui/animation/Typewriter.tsx:177-281 | wherever the cursor is placed, the segment-mode output shows exactly the first `index` characters of the whole text |
| Segments.LayoutCursors | app/components/ui/animation/Typewriter.tsx:224-269 | the output holds one cursor after the chosen segment, if there is one, plus the trailing cursor, if asked for |
| Segments.LayoutCursorAtRevealPoint | app/components/ui/animation/Typewriter.tsx:224-261 | a cursor after the last visible segment directly follows that segment's entry, and no text is visible after it |
| Segments.AfterLastVisible | app/components/ui/animation/Typewriter.tsx:198-278 | segments after the last visible one show nothing, and neither does a trailing cursor or the indicator |
| Segments.LayoutTrailingCursor | app/components/ui/animation/Typewriter.tsx:264-269 | a trailing cursor comes right after all the segment entries, with nothing visible after it |
| Segments.LayoutIndicator | app/components/ui/animation/Typewriter.tsx:272-278 | the end indicator appears in segment mode exactly when asked for |
| Segments.PlainLayoutFacts | app/components/ui/animation/Typewriter.tsx:284-298 | `renderPlainText` shows `substring(0, index)`, then at most one cursor with nothing visible after it, then the indicator exactly when asked for |
| Scheduling.StartTyping | app/components/ui/animation/Typewriter.tsx:108-132 | below the total length: the first matching pause point's timer when a pause point matches, else a typing tick unless paused; at or past the total length nothing is armed, so pause points there are never honoured |
| AnimationTypewriter.CursorCount | app/components/ui/animation/Typewriter.tsx:177-281 | segment mode shows exactly one cursor when the cursor is on and text is revealed or the end is reached; with 0 = index < total, none |
| AnimationTypewriter.CursorTest | app/components/ui/animation/Typewriter.tsx:224-257 | the source's two cursor tests, on a full segment at its end or a partial one, pick out exactly the cursor segment |
| AnimationTypewriter.SegmentOutput | app/components/ui/animation/Typewriter.tsx:177-281 | segment-mode output: revealed prefix; one cursor when on and something is revealed or the end is reached; that cursor at the reveal point; indicator iff asked |
| AnimationTypewriter.SegmentEntries | app/components/ui/animation/Typewriter.tsx:198-261 | one iteration of the second pass pushes the segment's entry, then the cursor exactly when this is the cursor segment and none was added yet |
| AnimationTypewriter.PlaceEntries | app/components/ui/animation/Typewriter.tsx:195-261 | the second pass pushes every segment's entry in order, with the cursor after the cursor segment, and reports whether it placed it |
| AnimationTypewriter.RenderSegments | app/components/ui/animation/Typewriter.tsx:177-281 | `renderSegments` builds the layout with the cursor after the last visible segment while the index is inside it or at its end, else trailing once the end is reached, then the indicator |
| AnimationTypewriter.Typewriter.WatchdogEffect | app/components/ui/animation/Typewriter.tsx:67-86 | while paused a fresh one-shot check is armed; otherwise the attempt count is reset |
| AnimationTypewriter.Typewriter.SkipEffect | app/components/ui/animation/Typewriter.tsx:89-104 | skipped and not complete: the timer is cancelled, the index jumps to the total, complete is set and `onComplete` is called; otherwise nothing changes |
| AnimationTypewriter.Typewriter.TypingEffect | app/components/ui/animation/Typewriter.tsx:106-142 | the pending timer is replaced by what `startTyping` arms; a pause point sets paused; at the end complete is set and `onComplete` called |
| AnimationTypewriter.Typewriter.BlinkEffect | app/components/ui/animation/Typewriter.tsx:145-165 | the blink interval runs exactly while paused or complete; otherwise the cursor is forced visible |
| AnimationTypewriter.Typewriter.Commit | app/components/ui/animation/Typewriter.tsx:67-165 | one React commit: the new state, given which effects' dependencies changed |
| AnimationTypewriter.Typewriter.constructor | app/components/ui/animation/Typewriter.tsx:41-48 | mounting from `startFromIndex` reaches the invariant; starting at or past the end completes with one `onComplete` call; mounting already skipped jumps to the end with two calls, three when starting past the end |
| AnimationTypewriter.Typewriter.FireTyping | app/components/ui/animation/Typewriter.tsx:120-123 | a typing tick advances the index by exactly 1, never past the total; reaching the total completes with `onComplete` called once; landing on a pause point pauses |
| AnimationTypewriter.Typewriter.FirePause | app/components/ui/animation/Typewriter.tsx:113-119 | the end of a pause clears paused and advances the index by exactly 1, never past the total |
| AnimationTypewriter.Typewriter.FireWatchdog | app/components/ui/animation/Typewriter.tsx:70-78 | the check counts an attempt and forces a resume only at the third; from any valid state it never reaches the third, so the unclamped forced increment never runs |
| AnimationTypewriter.Typewriter.SetSkipped | app/components/ui/animation/Typewriter.tsx:89-104 | skipping an incomplete typewriter jumps to the total and completes, with `onComplete` called twice; otherwise nothing changes; paused is left as it was |
| AnimationTypewriter.Typewriter.FireBlink | app/components/ui/animation/Typewriter.tsx:148-150 | a blink toggles the cursor and changes nothing else |
| AnimationTypewriter.Typewriter.Render | app/components/ui/animation/Typewriter.tsx:167-298 | visible text is the first `index` characters; one cursor exactly when shown, wanted (`!isComplete \|\| keepCursorAfterComplete`) and placeable; it sits at the reveal point and blinks iff paused or complete; indicator iff complete |
| SkippableTypewriter.SegmentOutput | app/components/Typewriter.tsx:147-228 | segment-mode output: revealed prefix; one cursor right after the last visible segment when on and index > 0, none at index 0; indicator iff asked |
| SkippableTypewriter.RenderSegments | app/components/Typewriter.tsx:147-228 | `renderSegments` builds the layout with the cursor after the last visible segment, whether full or partial |
| SkippableTypewriter.Typewriter.SkipEffect | app/components/Typewriter.tsx:65-80 | skipped and not complete: the timer is cancelled, the index jumps to the total, complete is set and `onComplete` is called; otherwise nothing changes |
| SkippableTypewriter.Typewriter.TypingEffect | app/components/Typewriter.tsx:82-117 | the pending timer is replaced by what `startTyping` arms; a pause point sets paused; at the end complete is set and `onComplete` called |
| SkippableTypewriter.Typewriter.BlinkEffect | app/components/Typewriter.tsx:120-140 | the blink interval runs exactly while paused or complete; otherwise the cursor is forced visible |
| SkippableTypewriter.Typewriter.Commit | app/components/Typewriter.tsx:65-140 | one React commit: the new state, given which effects' dependencies changed |
| SkippableTypewriter.Typewriter.constructor | app/components/Typewriter.tsx:41-46 | mounting from `startFromIndex` reaches the invariant; skipped at mount jumps to the end with two `onComplete` calls, three when starting past the end |
| SkippableTypewriter.Typewriter.FireTyping | app/components/Typewriter.tsx:95-99 | the unclamped tick still advances the index by exactly 1 and never past the total, since it is armed only below it; the end completes |
| SkippableTypewriter.Typewriter.FirePause | app/components/Typewriter.tsx:89-94 | the end of a pause clears paused and advances the index by exactly 1, never past the total |
| SkippableTypewriter.Typewriter.SetSkipped | app/components/Typewriter.tsx:65-80 | skipping an incomplete typewriter jumps to the total and completes, with `onComplete` called twice; otherwise nothing changes |
| SkippableTypewriter.Typewriter.FireBlink | app/components/Typewriter.tsx:123-125 | a blink toggles the cursor and changes nothing else |
| SkippableTypewriter.Typewriter.Render | app/components/Typewriter.tsx:143-247 | visible text is the first `index` characters; one cursor exactly when shown, wanted and (in segment mode) index > 0; it sits at the reveal point and blinks iff paused or complete; indicator iff complete |
| OriginalTypewriter.CursorOrIndicator | app/components/TypeWriter.tsx:102-103 | after completion the cursor shows iff it is kept and there is no indicator, the indicator iff it is kept and given; never both |
| OriginalTypewriter.PartialIsCursorSegment | app/components/TypeWriter.tsx:134-156 | some segment is partial exactly when the last visible segment is partial |
| OriginalTypewriter.NoPartialAtBoundary | app/components/TypeWriter.tsx:134-156 | at index 0, at the total or on a segment boundary no segment is partial, so there is no cursor in segment mode |
| OriginalTypewriter.NotInsideAtBoundary | app/components/TypeWriter.tsx:134-150 | a boundary index lies strictly inside no segment |
| OriginalTypewriter.SegmentOutput | app/components/TypeWriter.tsx:106-172 | segment-mode output: revealed prefix; one cursor iff on and some segment is partial, at the reveal point; indicator iff asked |
| OriginalTypewriter.SegmentEntries | app/components/TypeWriter.tsx:110-159 | one `forEach` iteration pushes the segment's entry, then the cursor exactly when it is the partial segment and the cursor is on |
| OriginalTypewriter.RenderSegments | app/components/TypeWriter.tsx:106-172 | `renderSegments` builds the layout with the cursor only inside the partial segment, then the indicator |
| OriginalTypewriter.Typewriter.TypingEffect | app/components/TypeWriter.tsx:50-85 | the pending timer is replaced by what `startTyping` arms; a pause point sets paused; at the end complete is set and `onComplete` called |
| OriginalTypewriter.Typewriter.Commit | app/components/TypeWriter.tsx:50-99 | one React commit; the blink interval starts only at mount |
| OriginalTypewriter.Typewriter.constructor | app/components/TypeWriter.tsx:35-48 | mounting starts at index 0 with the cursor shown; it is complete at once exactly when the text is empty |
| OriginalTypewriter.Typewriter.FireTyping | app/components/TypeWriter.tsx:63-67 | a typing tick advances the index by exactly 1, never past the total; reaching it completes |
| OriginalTypewriter.Typewriter.FirePause | app/components/TypeWriter.tsx:57-62 | the end of a pause clears paused and advances the index by exactly 1 |
| OriginalTypewriter.Typewriter.FireBlink | app/components/TypeWriter.tsx:88-99 | the blink interval never stops; a blink toggles the cursor and changes nothing else |
| OriginalTypewriter.Typewriter.Render | app/components/TypeWriter.tsx:102-191 | visible text is the first `index` characters; one cursor exactly when shown, wanted and (in segment mode) inside a partial segment; indicator iff complete, kept and given |
| JsNumbers.TrimStart | app/hooks/useAnimationManager.ts:22 | `parseInt` skips exactly the leading white space |
| JsNumbers.LeadingDigits | app/hooks/useAnimationManager.ts:22 | `parseInt` reads the longest run of digits at the front |
| JsNumbers.ParseUnsigned | app/hooks/useAnimationManager.ts:22 | an unsigned part is never negative |
| JsNumbers.NatToString | app/hooks/useAnimationManager.ts:53 | `toString` of a non-negative integer is decimal digits with no leading zero |
| JsNumbers.ValueOfNatToString | app/hooks/useAnimationManager.ts:53 | the digits `toString` writes have the number's value |
| JsNumbers.ParseIntOfToString | app/hooks/useAnimationManager.ts:22 | `parseInt` reads back exactly the integer that `toString` wrote at line 53, negative ones included |
| JsNumbers.ParseIntNoDigits | app/hooks/useAnimationManager.ts:22 | a stored value that starts, after white space, with no sign and no digit parses to NaN |
| AnimationManager.Gate | app/hooks/useAnimationManager.ts:16-35 | the animation plays (TYPING) exactly when storage fails, nothing is stored, or more than 6000 ms have passed since the parsed timestamp; otherwise COMPLETE, including a NaN timestamp |
| AnimationManager.GateBoundary | app/hooks/useAnimationManager.ts:7 | the cooldown is 6000 ms and strict: exactly 6000 ms later skips, 6001 ms later plays |
| AnimationManager.ReplayAfterWrite | app/hooks/useAnimationManager.ts:18-28 | a mount reading back the time written at completion replays exactly when more than 6000 ms have passed |
| AnimationManager.GateNotANumber | app/hooks/useAnimationManager.ts:22-28 | a non-empty stored value that is not a number never replays the animation |
| AnimationManager.Manager.constructor | app/hooks/useAnimationManager.ts:12-13 | the hook starts INITIAL, not playing, with nothing written |
| AnimationManager.Manager.Mount | app/hooks/useAnimationManager.ts:16-35 | the mount effect runs once, from INITIAL (its dependency list is empty), sets the state and the play flag by the gate, and always leaves INITIAL |
| AnimationManager.Manager.CompleteParaTyping | app/hooks/useAnimationManager.ts:43-47 | CONTENT_FADING exactly when the animation plays, otherwise nothing changes; never CONTENT_FADING when not playing |
| AnimationManager.Manager.CompleteIntroTyping | app/hooks/useAnimationManager.ts:37-41 | the same as `completeParaTyping` |
| AnimationManager.Manager.CompleteContentFading | app/hooks/useAnimationManager.ts:49-59 | when playing, the current time is written (unless the write fails) and the state is COMPLETE either way; when not playing nothing is written or changed |
| ThemeProvider.ThemeFromStorage | app/components/ui/theme/ThemeProvider.tsx:15-22 | the stored entry, or nothing when storage cannot be read |
| ThemeProvider.SystemTheme | app/components/ui/theme/ThemeProvider.tsx:25-32 | light exactly when the query says not dark; dark when it matches or cannot be evaluated |
| ThemeProvider.Flip | app/components/ui/theme/ThemeProvider.tsx:112 | the toggled theme is dark or light and differs from a dark or light input |
| ThemeProvider.FlipTwice | app/components/ui/theme/ThemeProvider.tsx:112 | toggling twice restores a dark or light theme |
| ThemeProvider.Provider.constructor | app/components/ui/theme/ThemeProvider.tsx:36-40 | before mount: dark, not set by hand, not mounted |
| ThemeProvider.Provider.DetectEffect | app/components/ui/theme/ThemeProvider.tsx:43-57 | mounted; a saved theme wins and is marked as set by hand, else the system theme with the mark cleared |
| ThemeProvider.Provider.ApplyEffect | app/components/ui/theme/ThemeProvider.tsx:91-107 | once mounted the theme is applied; it is stored only when set by hand, and then the stored value is the current theme |
| ThemeProvider.Provider.Commit | app/components/ui/theme/ThemeProvider.tsx:43-107 | one React commit: detection on mount or when the manual mark changed, application when any of its dependencies changed |
| ThemeProvider.Provider.Mount | app/components/ui/theme/ThemeProvider.tsx:43-107 | after mounting, a saved theme is in use and marked as set by hand, else the system theme; it is applied, and the invariant holds |
| ThemeProvider.Provider.SystemChange | app/components/ui/theme/ThemeProvider.tsx:59-66 | a system preference change updates the theme only when it is not set by hand |
| ThemeProvider.Provider.Toggle | app/components/ui/theme/ThemeProvider.tsx:110-113 | with storage available: flipped, set by hand, and stored as the current theme; with storage unavailable the detection effect re-runs and reverts to the system theme |
| MouseTrail.NewDot | app/components/ui/effects/MouseTrail.tsx:30-38 | a new dot is at the mouse with time to live 20 and opacity 0.7 |
| MouseTrail.Appended | app/components/ui/effects/MouseTrail.tsx:41-42 | at most 30 dots remain, the new one last, and they are the newest of the old list plus it |
| MouseTrail.AppendedDropsOldest | app/components/ui/effects/MouseTrail.tsx:41-42 | only the oldest dots are dropped, only beyond 30, and the rest keep their order |
| MouseTrail.Kept | app/components/ui/effects/MouseTrail.tsx:79 | one kept index per surviving dot |
| MouseTrail.KeptSurvivors | app/components/ui/effects/MouseTrail.tsx:79 | `filter` keeps the dots at the kept indices, each one alive |
| MouseTrail.KeptComplete | app/components/ui/effects/MouseTrail.tsx:79 | `filter` drops no live dot |
| MouseTrail.TickKeepsOrder | app/components/ui/effects/MouseTrail.tsx:70-80 | a tick never lengthens the list and keeps, in their order, exactly the dots whose moved version passes the filter; each survivor is its dot moved by one step (drifted by its velocity, faded by 0.92, aged by one), with time to live one less and still positive and opacity above 0.01 |
| MouseTrail.FadeDecreases | app/components/ui/effects/MouseTrail.tsx:76 | a positive opacity strictly decreases on each tick |
| MouseTrail.NineteenFades | app/components/ui/effects/MouseTrail.tsx:76-79 | after 19 fades a dot keeps more than a seventieth of its opacity, so 0.7 stays above 0.01 |
| MouseTrail.AliveIffTimeLeft | app/components/ui/effects/MouseTrail.tsx:76-79 | for a dot in the trail, the opacity test never drops it before its time is up |
| MouseTrail.GoneAfter | app/components/ui/effects/MouseTrail.tsx:77-79 | dots with at most n ticks to live are all gone after n ticks |
| MouseTrail.TrailClearsAfterTwentyTicks | app/components/ui/effects/MouseTrail.tsx:37 | every dot in the trail is gone after 20 ticks |
| MouseTrail.Trail.constructor | app/components/ui/effects/MouseTrail.tsx:18-20 | no dots, position (0, 0), hidden |
| MouseTrail.Trail.MouseMove | app/components/ui/effects/MouseTrail.tsx:24-44 | a move records the position, shows the trail and appends a dot, keeping at most 30 well-aged dots |
| MouseTrail.Trail.MouseLeave | app/components/ui/effects/MouseTrail.tsx:47-49 | leaving the window hides the trail |
| MouseTrail.Trail.MouseEnter | app/components/ui/effects/MouseTrail.tsx:52-54 | entering the window shows it |
| MouseTrail.Trail.Tick | app/components/ui/effects/MouseTrail.tsx:68-84 | a tick replaces the dots with the moved survivors, keeping the invariant |

## Left out

- Timing: typing speed, pause durations, the 1 s watchdog, the 530 ms blink and the 30 ms trail tick are not timed. Each timer is an event the caller fires. The order in which pending timers fire is the caller's choice, and each event method requires its timer to be pending.
- The `onSkip` effect (ui/animation/Typewriter.tsx:51-56 and Typewriter.tsx:49-54) hands the index to a parent callback on cleanup. It changes no state of the component, so it is not modelled.
- The `onComplete` callback is counted (`completions`), not run. Props other than `isSkipped` are fixed for the component's lifetime and keep their identity, so re-renders caused by a new `pausePoints`, `typingSpeed` or `onComplete` identity are not modelled.
- The `pausePoints = []` default (ui/animation/Typewriter.tsx:32, Typewriter.tsx:32, TypeWriter.tsx:29) is not modelled. When the prop is omitted, every render creates a new array, and the array is a dependency of the typing effect (ui/animation/Typewriter.tsx:142, Typewriter.tsx:117, TypeWriter.tsx:85). So the typing effect re-runs after every render. Once complete, each re-run calls `onComplete` again: one extra call after the render that sets `isComplete`, then one per cursor blink every 530 ms, for as long as the component is mounted (the blink interval runs while complete, and in TypeWriter.tsx always). Before completion, each re-run only restarts the pending typing timer. All `completions` counts below hold only when `pausePoints` is passed.
- AnimationTypewriter.Typewriter.FireBlink: "changes nothing else", including `completions`, holds only when `pausePoints` is passed; with the default, a blink after completion adds one `onComplete` call.
- SkippableTypewriter.Typewriter.FireBlink: the same as for the animation typewriter's `FireBlink`.
- OriginalTypewriter.Typewriter.FireBlink: the same; here the blink interval never stops, so with the default `pausePoints` the calls go on every 530 ms. The invariant's `completions == 1` once complete also holds only when `pausePoints` is passed.
- AnimationTypewriter.Typewriter.FireTyping, FirePause, SetSkipped and the constructors of the three typewriters: their exact `completions` counts (1, 2 or 3) assume `pausePoints` is passed. With the default, the typing effect also re-runs in commits where none of its other dependencies changed, so a count can be one higher. For example, a typing tick that reaches the end then gives two calls, not one.
- Strings are Dafny strings: sequences of Unicode scalar values. The source's `length`, `substring` and pause-point indices count UTF-16 code units. For text outside the Basic Multilingual Plane (an emoji, say) they differ. In "a😀b" the source's `totalLength` is 4 and the model's is 3. The source spends one extra tick on the emoji and at index 2 shows "a" plus a lone surrogate. Every pause index after such a character is one off against the model. So `Segments.TotalLength`, `Segments.Resolve`, `Segments.PlainLayout` and every typewriter's index and revealed text match the source only for text inside the Basic Multilingual Plane.
- Segment `render` callbacks are named, not run. The output entry records the callback's name and the text it is given.
- JSX structure is not modelled: React keys, fragments, `<span>` classes other than the blink class, and CSS (including the original typewriter's keyframe blink at TypeWriter.tsx:204-208). The output is a list of text runs, blanks, cursors and the end indicator.
- `renderPlainText` in all three copies is modelled as the function `Segments.PlainLayout`, since it is a single expression.
- AnimationTypewriter.Typewriter.FireWatchdog: the forced-resume branch (:73-77) is modelled, but it is proved unreachable from a valid state, so its unclamped `prev + 1` is not proved to stay within the total.
- React StrictMode double effects, server rendering (`typeof window === "undefined"`) and hydration are not modelled.
- JsNumbers: `parseInt` with an explicit radix, and white space beyond the ASCII and listed Unicode spaces (other `Zs` characters), are not modelled. `toString` is modelled for integers only; the exponent form at 1e21 and above, and non-integral numbers, are not modelled. The clock is a parameter.
- AnimationManager: a read failure is one value (`ReadFailed`) whether `getItem` or the clock throws. A write failure is a parameter of `CompleteContentFading`. The log output is not modelled.
- ThemeProvider: `localStorage` is one flag, available or not, covering both reads and writes. A failing `setItem` when reads succeed is not modelled. The document's class list is the single applied theme. A failing `matchMedia` listener registration is not modelled; a listener exists only when the query can be evaluated.
- ThemeProvider.Provider.SystemChange: requires that the media query could be evaluated (`prefersDark.Some?`), because only then is a listener registered.
- MouseTrail: coordinates and opacities are exact reals, not IEEE doubles. `Math.random()` values are parameters. The dot colour depends on the theme context and is not modelled; nor are the pixel styles.
- MouseTrail.Trail.Rendered: the render is only the choice between nothing (hidden) and the dot list, one element per dot; sizes, positions and opacities are carried in the dots but not rendered as styles, so nothing beyond that choice is stated about it.
- The rest of the site is not modelled: page layout, the last-visitor network lookup, logging and style helpers have no decision logic of these kinds.
