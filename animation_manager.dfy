/**
 * The animation manager hook (app/hooks/useAnimationManager.ts): a replay
 * cooldown gate that decides at mount whether the intro animation plays, and
 * the steps TYPING -> CONTENT_FADING -> COMPLETE that the page drives.
 */
module AnimationManager {
  import opened Wrappers
  import opened JsNumbers

  datatype AnimationState = Initial | Typing | ContentFading | Complete

  /** `TEN_MINUTES_MS`: the product as written, which is six seconds. */
  const CooldownMs: int := 10 * 60 * 10

  /** What reading `lastAnimationTime` from local storage yields: a failure, or the entry if there is one. */
  datatype StorageRead = ReadFailed | Read(entry: Option<string>)

  /** The entry counts as no previous animation: missing or the empty string. */
  predicate NoPreviousAnimation(entry: Option<string>)
  {
    entry.None? || entry.value == ""
  }

  /**
   * The mount effect's decision, as (state, shouldPlayAnimation): play when the
   * read fails, when nothing was stored, or when more than the cooldown has
   * passed since the stored time; otherwise skip straight to COMPLETE. A stored
   * value that does not parse compares false and skips.
   */
  function Gate(read: StorageRead, now: int): (r: (AnimationState, bool))
    ensures r.1 <==> r.0 == Typing
    ensures r.0 == Typing || r.0 == Complete
    ensures r.0 == Complete <==>
              read.Read? && !NoPreviousAnimation(read.entry)
              && match ParseInt(read.entry.value) {
                   case NaN => true
                   case Int(t) => now - t <= CooldownMs
                 }
  {
    match read {
      case ReadFailed => (Typing, true)
      case Read(entry) =>
        if NoPreviousAnimation(entry) then (Typing, true)
        else match ParseInt(entry.value) {
          case NaN => (Complete, false)
          case Int(t) => if now - t > CooldownMs then (Typing, true) else (Complete, false)
        }
    }
  }

  /** The cooldown is six seconds, and the comparison is strict: exactly 6000 ms later still skips, 6001 ms later plays. */
  lemma GateBoundary(stored: int)
    ensures Gate(Read(Some(IntToString(stored))), stored + 6000) == (Complete, false)
    ensures Gate(Read(Some(IntToString(stored))), stored + 6001) == (Typing, true)
  {
    ParseIntOfToString(stored);
  }

  /**
   * A later mount reading back what `completeContentFading` wrote at `finished`
   * skips the animation exactly when no more than the cooldown has passed.
   */
  lemma ReplayAfterWrite(finished: int, now: int)
    ensures Gate(Read(Some(IntToString(finished))), now)
            == if now - finished > CooldownMs then (Typing, true) else (Complete, false)
  {
    ParseIntOfToString(finished);
  }

  /** A stored value with no number at its front never replays the animation. */
  lemma GateNotANumber(entry: string, now: int)
    requires entry != "" && ParseInt(entry) == NaN
    ensures Gate(Read(Some(entry)), now) == (Complete, false)
  {
  }

  /**
   * One use of the hook. `stored` is the `lastAnimationTime` entry as this hook
   * last wrote it (None before any write); the clock and storage failures are
   * parameters of the methods that meet them.
   */
  class Manager {
    var state: AnimationState     // `animationState`
    var shouldPlay: bool          // `shouldPlayAnimation`
    var stored: Option<string>    // what `completeContentFading` wrote

    /**
     * A manager whose animation is not to play never fades and never writes;
     * before the mount effect has run nothing is playing.
     */
    predicate Valid()
      reads this
    {
      && (!shouldPlay ==> (state == Initial || state == Complete) && stored.None?)
      && (state == Initial ==> !shouldPlay)
    }

    /** The hook's initial state, before the mount effect runs. */
    constructor ()
      ensures Valid() && state == Initial && !shouldPlay && stored.None?
    {
      state := Initial;
      shouldPlay := false;
      stored := None;
    }

    /**
     * The mount effect, which runs once (its dependency list is empty): the
     * cooldown gate applied to what storage yields at time `now`. It always
     * leaves INITIAL, so it cannot run again.
     */
    method Mount(read: StorageRead, now: int)
      requires Valid() && state == Initial
      modifies this
      ensures Valid() && state != Initial
      ensures state == Gate(read, now).0
      ensures shouldPlay == Gate(read, now).1
      ensures stored == old(stored)
    {
      match read {
        case ReadFailed =>
          shouldPlay := true;
          state := Typing;
        case Read(entry) =>
          var lastAnimationTime := entry;
          if NoPreviousAnimation(lastAnimationTime) {
            shouldPlay := true;
            state := Typing;
          } else {
            var parsed := ParseInt(lastAnimationTime.value);
            if parsed.Int? && now - parsed.value > CooldownMs {
              shouldPlay := true;
              state := Typing;
            } else {
              state := Complete;
            }
          }
      }
    }

    /** `completeParaTyping`: on to CONTENT_FADING when the animation plays, otherwise nothing. */
    method CompleteParaTyping()
      requires Valid()
      modifies this
      ensures Valid()
      ensures state == (if shouldPlay then ContentFading else old(state))
      ensures shouldPlay == old(shouldPlay) && stored == old(stored)
    {
      if shouldPlay {
        state := ContentFading;
      }
    }

    /** `completeIntroTyping`: kept for compatibility, the same as `completeParaTyping`. */
    method CompleteIntroTyping()
      requires Valid()
      modifies this
      ensures Valid()
      ensures state == (if shouldPlay then ContentFading else old(state))
      ensures shouldPlay == old(shouldPlay) && stored == old(stored)
    {
      CompleteParaTyping();
    }

    /**
     * `completeContentFading`: when the animation plays, record the time `now`
     * (unless the write fails) and go to COMPLETE; otherwise nothing.
     */
    method CompleteContentFading(now: int, writeFails: bool)
      requires Valid()
      modifies this
      ensures Valid()
      ensures state == (if shouldPlay then Complete else old(state))
      ensures stored == (if shouldPlay && !writeFails then Some(IntToString(now)) else old(stored))
      ensures shouldPlay == old(shouldPlay)
    {
      if shouldPlay {
        if !writeFails {
          stored := Some(IntToString(now));
        }
        state := Complete;
      }
    }
  }
}
