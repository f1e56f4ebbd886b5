/**
 * The mouse trail (app/components/ui/effects/MouseTrail.tsx): each mouse move
 * adds a dot, keeping the 30 most recent; every 30 ms each dot drifts, fades
 * and ages by one, and dots that have run out of time or faded away are
 * dropped. Positions, sizes and opacities are JavaScript numbers, modelled as
 * exact reals.
 */
module MouseTrail {
  import opened Wrappers

  datatype Dot = Dot(x: real, y: real, size: real, alpha: real, dx: real, dy: real, ttl: int)

  /** `slice(-30)`: the dots kept after a move. */
  const MaxDots: nat := 30
  /** The time to live of a new dot, in ticks. */
  const InitialTtl: int := 20
  const InitialAlpha: real := 0.7
  /** The factor a dot's opacity is multiplied by on each tick. */
  const Fade: real := 0.92
  /** A dot at or below this opacity is dropped. */
  const MinAlpha: real := 0.01

  /**
   * The dot a mouse move at (x, y) adds; `r1`, `r2`, `r3` are the three
   * `Math.random()` values drawn for its size and its drift.
   */
  function NewDot(x: real, y: real, r1: real, r2: real, r3: real): (d: Dot)
    ensures d.x == x && d.y == y && d.ttl == InitialTtl && d.alpha == InitialAlpha
  {
    Dot(x, y, r1 * 3.0 + 1.0, InitialAlpha, (r2 - 0.5) * 2.0, (r3 - 0.5) * 2.0, InitialTtl)
  }

  /** `[...prevDots, newDot].slice(-30)`. */
  function Appended(dots: seq<Dot>, d: Dot): (r: seq<Dot>)
    ensures |r| == if |dots| < MaxDots then |dots| + 1 else MaxDots
    ensures r[|r| - 1] == d
    ensures r == (dots + [d])[|dots| + 1 - |r|..]
  {
    var updated := dots + [d];
    if |updated| <= MaxDots then updated else updated[|updated| - MaxDots..]
  }

  /** Appending keeps the newest dots in order: only the oldest ones are dropped, and only when there are more than 30. */
  lemma AppendedDropsOldest(dots: seq<Dot>, d: Dot)
    ensures var r := Appended(dots, d);
            var dropped := |dots| + 1 - |r|;
            && (|dots| < MaxDots ==> dropped == 0)
            && (forall k :: 0 <= k < |r| - 1 ==> r[k] == dots[dropped + k])
  {
    var r := Appended(dots, d);
    var dropped := |dots| + 1 - |r|;
    forall k | 0 <= k < |r| - 1
      ensures r[k] == dots[dropped + k]
    {
      assert r[k] == (dots + [d])[dropped + k];
    }
  }

  /** One step of the animation for one dot: drift, fade, age. */
  function Moved(d: Dot): Dot
  {
    d.(x := d.x + d.dx, y := d.y + d.dy, alpha := d.alpha * Fade, ttl := d.ttl - 1)
  }

  /** The `filter` test: time left and still visible. */
  predicate Alive(d: Dot)
  {
    d.ttl > 0 && d.alpha > MinAlpha
  }

  /** `prevDots.map(...)`; the ensures is the pointwise form of the comprehension, for the solver. */
  function MovedAll(dots: seq<Dot>): (r: seq<Dot>)
    ensures |r| == |dots| && forall i :: 0 <= i < |dots| ==> r[i] == Moved(dots[i])
  {
    seq(|dots|, i requires 0 <= i < |dots| => Moved(dots[i]))
  }

  /** `.filter(...)`. */
  function Survivors(ds: seq<Dot>): seq<Dot>
  {
    if |ds| == 0 then []
    else Survivors(ds[..|ds| - 1]) + (if Alive(ds[|ds| - 1]) then [ds[|ds| - 1]] else [])
  }

  /** The indices of the dots `Survivors` keeps. */
  function Kept(ds: seq<Dot>): (idx: seq<nat>)
    ensures |idx| == |Survivors(ds)|
  {
    if |ds| == 0 then []
    else Kept(ds[..|ds| - 1]) + (if Alive(ds[|ds| - 1]) then [|ds| - 1] else [])
  }

  /** The kept indices are increasing and in range. */
  lemma {:induction false} KeptIncreasing(ds: seq<Dot>)
    ensures forall k :: 0 <= k < |Kept(ds)| ==> Kept(ds)[k] < |ds|
    ensures forall k, l :: 0 <= k < l < |Kept(ds)| ==> Kept(ds)[k] < Kept(ds)[l]
  {
    if |ds| > 0 {
      KeptIncreasing(ds[..|ds| - 1]);
    }
  }

  /** `Survivors` holds the dots at the kept indices, each of them alive. */
  lemma {:induction false} KeptSurvivors(ds: seq<Dot>)
    ensures forall k :: 0 <= k < |Kept(ds)| ==>
              Kept(ds)[k] < |ds| && Survivors(ds)[k] == ds[Kept(ds)[k]] && Alive(ds[Kept(ds)[k]])
  {
    if |ds| > 0 {
      var front := ds[..|ds| - 1];
      KeptSurvivors(front);
      var prev := Kept(front);
      var last := |ds| - 1;
      forall k | 0 <= k < |Kept(ds)|
        ensures Kept(ds)[k] < |ds| && Survivors(ds)[k] == ds[Kept(ds)[k]] && Alive(ds[Kept(ds)[k]])
      {
        if k < |prev| {
          assert Kept(ds)[k] == prev[k];
          assert Survivors(ds)[k] == Survivors(front)[k];
          assert front[prev[k]] == ds[prev[k]];
        }
      }
    }
  }

  /** Every live dot's index is kept. */
  lemma {:induction false} KeptComplete(ds: seq<Dot>)
    ensures forall i :: 0 <= i < |ds| && Alive(ds[i]) ==> i in Kept(ds)
  {
    if |ds| > 0 {
      var front := ds[..|ds| - 1];
      KeptComplete(front);
      forall i | 0 <= i < |ds| - 1 && Alive(ds[i])
        ensures i in Kept(ds)
      {
        assert front[i] == ds[i];
      }
    }
  }

  /** One tick of the interval: move every dot, then drop the dead ones. */
  function Ticked(dots: seq<Dot>): seq<Dot>
  {
    Survivors(MovedAll(dots))
  }

  /**
   * A tick keeps a subsequence of the dots, in their order, each moved by one
   * step: its time to live one less and still positive, its opacity faded and
   * still above the threshold; a dot that moves to a live state is never dropped.
   */
  lemma TickKeepsOrder(dots: seq<Dot>)
    ensures var idx := Kept(MovedAll(dots));
            && |Ticked(dots)| == |idx| <= |dots|
            && (forall k, l :: 0 <= k < l < |idx| ==> idx[k] < idx[l])
            && (forall k :: 0 <= k < |idx| ==>
                  idx[k] < |dots| && Ticked(dots)[k] == Moved(dots[idx[k]])
                  && Ticked(dots)[k].ttl == dots[idx[k]].ttl - 1 > 0
                  && MinAlpha < Ticked(dots)[k].alpha)
            && (forall i :: 0 <= i < |dots| && Alive(Moved(dots[i])) ==> i in idx)
  {
    var idx := Kept(MovedAll(dots));
    KeptIncreasing(MovedAll(dots));
    KeptSurvivors(MovedAll(dots));
    KeptComplete(MovedAll(dots));
    IncreasingBound(idx, |dots|);
  }

  /** A strictly increasing sequence of indices below `n` has at most `n` entries. */
  lemma {:induction false} IncreasingBound(idx: seq<nat>, n: nat)
    requires forall k :: 0 <= k < |idx| ==> idx[k] < n
    requires forall k, l :: 0 <= k < l < |idx| ==> idx[k] < idx[l]
    ensures |idx| <= n
  {
    if |idx| > 0 {
      var m := idx[|idx| - 1];
      IncreasingBound(idx[..|idx| - 1], m);
    }
  }

  /** A positive opacity fades strictly on every tick. */
  lemma FadeDecreases(d: Dot)
    requires d.alpha > 0.0
    ensures 0.0 < Moved(d).alpha < d.alpha
  {
  }

  /** `b` to the power `k`. */
  function Pow(b: real, k: nat): real
  {
    if k == 0 then 1.0 else b * Pow(b, k - 1)
  }

  /** Powers of the fade factor shrink as the exponent grows. */
  lemma {:induction false} PowFadeMonotone(k: nat, m: nat)
    requires k <= m
    ensures 0.0 < Pow(Fade, m) <= Pow(Fade, k)
    decreases m
  {
    if m > k {
      PowFadeMonotone(k, m - 1);
    } else if m > 0 {
      PowFadeMonotone(0, m - 1);
    }
  }

  /** Powers add their exponents. */
  lemma {:induction false} PowAdd(b: real, m: nat, n: nat)
    ensures Pow(b, m + n) == Pow(b, m) * Pow(b, n)
    decreases m
  {
    if m > 0 {
      PowAdd(b, m - 1, n);
    }
  }

  /** After 19 fades a dot keeps more than a seventieth of its opacity. */
  lemma NineteenFades()
    ensures Pow(Fade, 19) > 1.0 / 70.0
  {
    var p3 := Pow(Fade, 3);
    var p4 := Pow(Fade, 4);
    assert p3 > 0.77 && p4 > 0.7;
    PowAdd(Fade, 4, 4);
    PowAdd(Fade, 8, 8);
    PowAdd(Fade, 16, 3);
    var p8 := Pow(Fade, 8);
    var p16 := Pow(Fade, 16);
    assert p8 > 0.49 by { assert p8 == p4 * p4; }
    assert p16 > 0.24 by { assert p16 == p8 * p8; }
    assert Pow(Fade, 19) == p16 * p3;
  }

  /** The opacity of a dot that has aged `20 - ttl` ticks. */
  function AlphaAt(ttl: int): real
    requires 0 <= ttl <= InitialTtl
  {
    InitialAlpha * Pow(Fade, InitialTtl - ttl)
  }

  /** A dot as it can exist in the trail: time left, and the opacity its age gives. */
  predicate WellAged(d: Dot)
  {
    0 < d.ttl <= InitialTtl && d.alpha == AlphaAt(d.ttl)
  }

  /**
   * The opacity test never drops a dot before its time is up: after 19 fades
   * the opacity is still above 0.01, so a dot lives exactly as long as its
   * time to live.
   */
  lemma AliveIffTimeLeft(d: Dot)
    requires WellAged(d)
    ensures Alive(Moved(d)) <==> d.ttl > 1
    ensures d.ttl > 1 ==> WellAged(Moved(d))
  {
    if d.ttl > 1 {
      PowFadeMonotone(InitialTtl - d.ttl + 1, 19);
      NineteenFades();
      assert Pow(Fade, InitialTtl - (d.ttl - 1)) == Fade * Pow(Fade, InitialTtl - d.ttl);
    }
  }

  /** `n` ticks in a row. */
  function Ticks(dots: seq<Dot>, n: nat): seq<Dot>
    decreases n
  {
    if n == 0 then dots else Ticks(Ticked(dots), n - 1)
  }

  /** Dots with at most `n` ticks to live are all gone after `n` ticks; in the trail that is at most 20. */
  lemma {:induction false} GoneAfter(dots: seq<Dot>, n: nat)
    requires forall i :: 0 <= i < |dots| ==> 0 < dots[i].ttl <= n
    ensures Ticks(dots, n) == []
    decreases n
  {
    if n > 0 {
      TickKeepsOrder(dots);
      var next := Ticked(dots);
      GoneAfter(next, n - 1);
    }
  }

  /**
   * The trail component: its dot list, the last mouse position and whether the
   * pointer is in the window.
   */
  class Trail {
    var dots: seq<Dot>
    var mousePos: (real, real)
    var visible: bool

    /** At most 30 dots, each with time left and the opacity its age gives. */
    predicate Valid()
      reads this
    {
      |dots| <= MaxDots && forall i :: 0 <= i < |dots| ==> WellAged(dots[i])
    }

    constructor ()
      ensures Valid() && dots == [] && mousePos == (0.0, 0.0) && !visible
    {
      dots := [];
      mousePos := (0.0, 0.0);
      visible := false;
    }

    /** `handleMouseMove`: remember the position, show the trail and add a dot there. */
    method MouseMove(x: real, y: real, r1: real, r2: real, r3: real)
      requires Valid()
      modifies this
      ensures Valid()
      ensures dots == Appended(old(dots), NewDot(x, y, r1, r2, r3))
      ensures mousePos == (x, y) && visible
    {
      mousePos := (x, y);
      visible := true;
      var newDot := NewDot(x, y, r1, r2, r3);
      assert WellAged(newDot);
      dots := Appended(dots, newDot);
    }

    /** `handleMouseLeave`: hide the trail; the dots go on ageing. */
    method MouseLeave()
      modifies this`visible
      ensures !visible
    {
      visible := false;
    }

    /** `handleMouseEnter`: show the trail. */
    method MouseEnter()
      modifies this`visible
      ensures visible
    {
      visible := true;
    }

    /** A tick of the 30 ms interval. */
    method Tick()
      requires Valid()
      modifies this`dots
      ensures Valid()
      ensures dots == Ticked(old(dots))
    {
      TickKeepsOrder(dots);
      var next := Ticked(dots);
      forall k | 0 <= k < |next|
        ensures WellAged(next[k])
      {
        var i := Kept(MovedAll(dots))[k];
        AliveIffTimeLeft(dots[i]);
      }
      dots := next;
    }

    /** What the component renders: nothing while hidden, else one element per dot, in order. */
    function Rendered(): (r: Option<seq<Dot>>)
      reads this
      ensures r.Some? <==> visible
      ensures r.Some? ==> r.value == dots
    {
      if !visible then None else Some(dots)
    }
  }

  /** Every dot in a trail is gone after 20 ticks without a mouse move. */
  lemma TrailClearsAfterTwentyTicks(dots: seq<Dot>)
    requires forall i :: 0 <= i < |dots| ==> WellAged(dots[i])
    ensures Ticks(dots, 20) == []
  {
    GoneAfter(dots, 20);
  }
}
