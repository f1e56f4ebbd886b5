/**
 * What the three typewriter schedulers share: the values their effects depend
 * on, the one-shot timer `timeoutRef` may hold, and the decision `startTyping`
 * makes when its effect runs.
 */
module Scheduling {
  import opened Wrappers
  import opened Segments

  /** The rendered values the effects depend on: the index, `isPaused`, `isComplete` and the `isSkipped` prop. */
  datatype View = View(index: int, paused: bool, complete: bool, skipped: bool)

  /** The one-shot timer held in `timeoutRef`: none, the next typing tick, or the end of a pause. */
  datatype Timer = NoTimer | TypingTick | PauseEnd(duration: int)

  /**
   * What `startTyping` arms for a rendered index and pause flag: below the total
   * length, the end of the first pause point registered at the index if there is
   * one, else a typing tick unless paused; at or past the total length nothing,
   * so pause points there are never honoured.
   */
  function StartTyping(pps: seq<PausePoint>, total: nat, index: int, paused: bool): (t: Timer)
    ensures t.PauseEnd? <==> index < total && exists k :: 0 <= k < |pps| && pps[k].index == index
    ensures t.PauseEnd? ==> exists k :: 0 <= k < |pps| && pps[k] == PausePoint(index, t.duration)
                                        && forall j :: 0 <= j < k ==> pps[j].index != index
    ensures t.TypingTick? <==> index < total && !paused && forall k :: 0 <= k < |pps| ==> pps[k].index != index
  {
    if index < total then
      match FindPause(pps, index)
      case Some(pp) => PauseEnd(pp.duration)
      case None => if !paused then TypingTick else NoTimer
    else NoTimer
  }

  /** Whether an effect runs at a commit: at mount (no previous view), or when one of its dependencies changed. */
  function TypingRuns(prev: Option<View>, now: View): bool
  {
    prev.None? || prev.value.index != now.index || prev.value.paused != now.paused
  }

  function SkipRuns(prev: Option<View>, now: View): bool
  {
    prev.None? || prev.value.skipped != now.skipped || prev.value.complete != now.complete
  }

  function BlinkRuns(prev: Option<View>, now: View): bool
  {
    prev.None? || prev.value.paused != now.paused || prev.value.complete != now.complete
  }

  function WatchdogRuns(prev: Option<View>, now: View): bool
  {
    prev.None? || prev.value.paused != now.paused || prev.value.index != now.index
  }
}
