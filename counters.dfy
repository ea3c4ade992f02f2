/** The counter animation of the icon badges: a one-shot trigger on the first
    scroll that shows the icons section, and, per badge, a ramp from 0 to the
    number its text starts with, in 50 interval ticks.

    The source adds `target / 50` to a floating-point count on each tick. Here the
    count is kept exactly as `scaledCount == 50 * count`, which grows by `target`
    on each tick. */
module Counters {
  import opened Dom
  import opened JsNumber

  /** The text after the number on a badge. */
  const Suffix := " Grand Slams"

  /** The number of ticks over which the count ramps up to its target. */
  const Steps := 50

  /** The visibility test of checkCountersVisibility: the section's rectangle meets
      the viewport. */
  predicate IsVisible(rect: Rect, innerHeight: int) {
    rect.top < innerHeight && rect.bottom >= 0
  }

  /** For a positive target, fewer than 50 ticks stay below it. */
  lemma BelowTargetBeforeLastStep(target: int, j: int)
    requires target > 0 && j < Steps
    ensures j * target < Steps * target
  {
    assert (Steps - j) * target > 0;
    assert Steps * target - j * target == (Steps - j) * target;
  }

  /** The tick on which the ramp ends: the first tick k >= 1 after which the count
      k * target / 50 has reached the target. */
  function FinishTick(target: int): (k: nat)
    ensures 1 <= k <= Steps
    ensures k * target >= Steps * target
    ensures forall j :: 1 <= j < k ==> j * target < Steps * target
  {
    if target > 0 then
      assert forall j :: 1 <= j < Steps ==> j * target < Steps * target by {
        forall j | 1 <= j < Steps ensures j * target < Steps * target {
          BelowTargetBeforeLastStep(target, j);
        }
      }
      Steps
    else
      assert Steps * target <= 1 * target;
      1
  }

  /** Math.floor(count) after k ticks, when 50 * count == k * target: the largest
      integer not above k * target / 50. */
  function ShownCount(target: int, k: nat): (r: int)
    ensures r * Steps <= k * target < (r + 1) * Steps
  {
    (k * target) / Steps
  }

  /** The badge text the interval writes on tick k: a number, then the suffix. */
  function RampText(target: int, k: nat): (r: string)
    ensures |r| > |Suffix| && r[|r| - |Suffix|..] == Suffix
  {
    if k * target >= Steps * target then IntToString(target) + Suffix
    else IntToString(ShownCount(target, k)) + Suffix
  }

  /** On the last tick the badge shows the target itself. */
  lemma FinalText(target: int)
    ensures RampText(target, FinishTick(target)) == IntToString(target) + Suffix
  {
  }

  /** Before the last tick the badge shows a count from 0 up to, but not including,
      the target. */
  lemma ShownCountBelowTarget(target: int, k: nat)
    requires 1 <= k < FinishTick(target)
    ensures target > 0 && 0 <= ShownCount(target, k) < target
    ensures RampText(target, k) == IntToString(ShownCount(target, k)) + Suffix
  {
    assert k * target < Steps * target;
    assert k * target >= 0;
  }

  /** The count shown never goes down from one tick to a later one. */
  lemma ShownCountMonotone(target: int, j: nat, k: nat)
    requires target > 0 && j <= k
    ensures ShownCount(target, j) <= ShownCount(target, k)
  {
    assert k * target - j * target == (k - j) * target;
    assert (k - j) * target >= 0;
  }

  /** The count shown does not go up on every tick: for 24 the first two ticks
      both show 0 (24 / 50 and 48 / 50 both round down to 0). */
  lemma ShownCountRepeats()
    ensures ShownCount(24, 1) == 0 && ShownCount(24, 2) == 0
    ensures RampText(24, 1) == RampText(24, 2)
  {
  }

  /** Every text the ramp writes still starts with a number parseInt reads: the
      count shown, or the target on the last tick. */
  lemma RampTextParses(target: int, k: nat)
    ensures ParseInt(RampText(target, k)) ==
      Some(if k * target >= Steps * target then target else ShownCount(target, k))
  {
    if k * target >= Steps * target {
      ParseIntRoundTrip(target, Suffix);
    } else {
      ParseIntRoundTrip(ShownCount(target, k), Suffix);
    }
  }

  /** An element of class `icon-badge`. */
  class Badge {
    var text: string

    constructor (text: string)
      ensures this.text == text
    {
      this.text := text;
    }
  }

  /** The interval that ramps one badge up to its target. */
  class Counter {
    const badge: Badge
    const target: int
    var scaledCount: int
    var running: bool
    ghost var ticks: nat

    /** The count is ticks * target / 50, the interval runs until the finishing
        tick, and the badge shows the text of the latest tick. */
    ghost predicate Valid()
      reads this, badge
    {
      && scaledCount == ticks * target
      && ticks <= FinishTick(target)
      && running == (ticks < FinishTick(target))
      && (ticks > 0 ==> badge.text == RampText(target, ticks))
    }

    /** setInterval for the badge, with the count at 0. */
    constructor (badge: Badge, target: int)
      ensures this.badge == badge && this.target == target
      ensures Valid() && running && ticks == 0
    {
      this.badge := badge;
      this.target := target;
      scaledCount := 0;
      running := true;
      ticks := 0;
    }

    /** One firing of the interval. A cleared interval does not fire, so the
        source never ticks after the last tick; such a call is left total on
        purpose and changes nothing. */
    method Tick()
      requires Valid()
      modifies this, badge
      ensures Valid()
      ensures ticks == if old(running) then old(ticks) + 1 else old(ticks)
      ensures !old(running) ==> badge.text == old(badge.text)
      ensures !running ==> ticks == FinishTick(target) <= Steps && badge.text == IntToString(target) + Suffix
    {
      if running {
        ghost var k := ticks + 1;
        assert k * target == ticks * target + target;
        scaledCount := scaledCount + target;
        ticks := k;
        if scaledCount >= Steps * target {
          assert k == FinishTick(target);
          badge.text := IntToString(target) + Suffix;
          running := false;
        } else {
          assert k < FinishTick(target);
          badge.text := IntToString(scaledCount / Steps) + Suffix;
        }
      }
    }
  }

  /** animateCounters: parse each badge and start an interval for it, skipping a
      badge whose text has no leading integer. The result has one entry per badge,
      in order: none for a skipped badge, otherwise a new interval at tick 0
      ramping up to the number the badge's text starts with. */
  method AnimateCounters(badges: seq<Badge>) returns (counters: seq<Option<Counter>>)
    ensures |counters| == |badges|
    ensures forall i :: 0 <= i < |badges| ==> (counters[i].None? <==> ParseInt(badges[i].text).None?)
    ensures forall i :: 0 <= i < |badges| && counters[i].Some? ==>
      counters[i].value.badge == badges[i] && ParseInt(badges[i].text) == Some(counters[i].value.target)
    ensures forall i :: 0 <= i < |badges| && counters[i].Some? ==>
      fresh(counters[i].value) && counters[i].value.running && counters[i].value.ticks == 0 && counters[i].value.Valid()
  {
    counters := [];
    for i := 0 to |badges|
      invariant |counters| == i
      invariant forall j :: 0 <= j < i ==> (counters[j].None? <==> ParseInt(badges[j].text).None?)
      invariant forall j :: 0 <= j < i && counters[j].Some? ==>
        counters[j].value.badge == badges[j] && ParseInt(badges[j].text) == Some(counters[j].value.target)
      invariant forall j :: 0 <= j < i && counters[j].Some? ==>
        fresh(counters[j].value) && counters[j].value.running && counters[j].value.ticks == 0 && counters[j].value.Valid()
    {
      var target := ParseInt(badges[i].text);
      if target.Some? {
        var c := new Counter(badges[i], target.value);
        counters := counters + [Some(c)];
      } else {
        counters := counters + [None];
      }
    }
  }

  /** What one call of checkCountersVisibility sees: the icons section's rectangle,
      when the section exists, and the viewport height. */
  datatype Observation = Observation(section: Option<Rect>, innerHeight: int)

  predicate Visible(o: Observation) {
    o.section.Some? && IsVisible(o.section.value, o.innerHeight)
  }

  /** Whether a call starts the counters, given the one-shot flag before it. */
  predicate Starts(animated: bool, o: Observation) {
    Visible(o) && !animated
  }

  /** For each call in a sequence of calls, whether it started the counters. */
  function StartRun(animated: bool, obs: seq<Observation>): (r: seq<bool>)
    ensures |r| == |obs|
    decreases |obs|
  {
    if obs == [] then []
    else [Starts(animated, obs[0])] + StartRun(animated || Starts(animated, obs[0]), obs[1..])
  }

  /** The one-shot flag after a sequence of calls. */
  function AnimatedAfter(animated: bool, obs: seq<Observation>): bool
    decreases |obs|
  {
    if obs == [] then animated
    else AnimatedAfter(animated || Starts(animated, obs[0]), obs[1..])
  }

  /** A call starts the counters exactly when the flag was clear at the beginning,
      the section is visible, and it was not visible on any earlier call. */
  lemma {:induction false} StartsOnFirstVisible(animated: bool, obs: seq<Observation>)
    ensures forall i :: 0 <= i < |obs| ==>
      (StartRun(animated, obs)[i] <==> !animated && Visible(obs[i]) && forall j :: 0 <= j < i ==> !Visible(obs[j]))
    decreases |obs|
  {
    if obs != [] {
      var next := animated || Starts(animated, obs[0]);
      StartsOnFirstVisible(next, obs[1..]);
      forall i | 0 < i < |obs|
        ensures StartRun(animated, obs)[i] == StartRun(next, obs[1..])[i - 1]
        ensures (forall j :: 0 <= j < i ==> !Visible(obs[j])) <==>
          !Visible(obs[0]) && forall j :: 0 <= j < i - 1 ==> !Visible(obs[1..][j])
      {
        if forall j :: 0 <= j < i - 1 ==> !Visible(obs[1..][j]) {
          forall j | 1 <= j < i ensures !Visible(obs[j]) {
            assert obs[j] == obs[1..][j - 1];
          }
        }
      }
    }
  }

  /** Over any sequence of calls the counters are started at most once. */
  lemma StartsAtMostOnce(animated: bool, obs: seq<Observation>)
    ensures forall i, j :: 0 <= i < |obs| && 0 <= j < |obs| && StartRun(animated, obs)[i] && StartRun(animated, obs)[j] ==> i == j
  {
    StartsOnFirstVisible(animated, obs);
  }

  /** After a sequence of calls the flag is set exactly when it was set before or
      the section was visible on some call; in particular it is never cleared. */
  lemma {:induction false} AnimatedAfterSomeVisible(animated: bool, obs: seq<Observation>)
    ensures AnimatedAfter(animated, obs) <==> animated || exists i :: 0 <= i < |obs| && Visible(obs[i])
    decreases |obs|
  {
    if obs != [] {
      AnimatedAfterSomeVisible(animated || Starts(animated, obs[0]), obs[1..]);
      if exists i :: 0 <= i < |obs[1..]| && Visible(obs[1..][i]) {
        var i :| 0 <= i < |obs[1..]| && Visible(obs[1..][i]);
        assert Visible(obs[i + 1]);
      }
      if exists i :: 0 <= i < |obs| && Visible(obs[i]) {
        var i :| 0 <= i < |obs| && Visible(obs[i]);
        if i > 0 {
          assert Visible(obs[1..][i - 1]);
        }
      }
    }
  }

  /** The page's `countersAnimated` flag and checkCountersVisibility. */
  class CounterTrigger {
    var countersAnimated: bool

    constructor ()
      ensures !countersAnimated
    {
      countersAnimated := false;
    }

    /** Start the counters when the icons section is visible and they have not been
        started before. A page without the section does nothing. */
    method CheckCountersVisibility(section: Option<Rect>, innerHeight: int, badges: seq<Badge>)
      returns (started: bool, counters: seq<Option<Counter>>)
      modifies this
      ensures started == Starts(old(countersAnimated), Observation(section, innerHeight))
      ensures countersAnimated == (old(countersAnimated) || started)
      ensures !started ==> counters == []
      ensures started ==> |counters| == |badges|
      ensures started ==> forall i :: 0 <= i < |badges| ==> (counters[i].None? <==> ParseInt(badges[i].text).None?)
      ensures started ==> forall i :: 0 <= i < |badges| && counters[i].Some? ==>
        counters[i].value.badge == badges[i] && ParseInt(badges[i].text) == Some(counters[i].value.target)
      ensures started ==> forall i :: 0 <= i < |badges| && counters[i].Some? ==>
        fresh(counters[i].value) && counters[i].value.running && counters[i].value.ticks == 0 && counters[i].value.Valid()
    {
      started := false;
      counters := [];
      if section.None? {
        return;
      }
      var rect := section.value;
      var isVisible := rect.top < innerHeight && rect.bottom >= 0;
      if isVisible && !countersAnimated {
        countersAnimated := true;
        started := true;
        counters := AnimateCounters(badges);
      }
    }
  }
}
