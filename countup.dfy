/** The arithmetic of one count-up run of the statistics section: the fixed
    per-tick increment, one firing of the interval callback, and the state of
    the run after any number of firings. Numbers are exact (`real`); the value
    shown on screen is the floor of the accumulator. */
module CountUp {

  /** Length of one count-up run, in milliseconds. */
  const Duration: real := 2000.0
  /** Period of the interval timer, in milliseconds. */
  const Interval: real := 16.0
  /** Number of firings a positive target is spread over (Duration / Interval). */
  const Steps: nat := 125

  /** The amount added to the accumulator on every firing, computed once when
      the timer is armed: Steps increments make up the whole target. */
  function Increment(end: real): (inc: real)
    ensures inc * (Steps as real) == end
    ensures inc > 0.0 <==> end > 0.0
    ensures inc == 0.0 <==> end == 0.0
  {
    end / (Duration / Interval)
  }

  /** The per-stat state of the effect: the accumulator `start` and whether its
      interval is still armed. */
  datatype Run = Run(start: real, running: bool)

  /** A freshly armed run: accumulator at zero, interval active. */
  const Armed: Run := Run(0.0, true)

  function Min(a: real, b: real): real { if a <= b then a else b }

  /** One firing of the interval callback: add the increment; on reaching or
      passing the target, pin the accumulator to the target and clear the
      interval. The first two clauses define the step as a clamp (the smaller
      of sum and target) and a stop test; the last two are what one firing
      guarantees. */
  function Advance(r: Run, end: real, inc: real): (next: Run)
    ensures next.start == Min(r.start + inc, end)
    ensures next.running <==> r.start + inc < end
    ensures !next.running ==> next.start == end
    ensures 0.0 <= inc && r.start <= end ==> r.start <= next.start <= end
  {
    var s := r.start + inc;
    if s >= end then Run(end, false) else Run(s, true)
  }

  /** The run after the interval has fired `k` times since it was armed. A
      cleared interval no longer fires, so from then on the run stays put. */
  function RunAfter(end: real, k: nat): (r: Run)
    ensures 0.0 <= end ==> 0.0 <= r.start <= end
    ensures !r.running ==> r.start == end
  {
    if k == 0 then Armed
    else
      var prev := RunAfter(end, k - 1);
      if prev.running then Advance(prev, end, Increment(end)) else prev
  }

  /** The firing on which the interval is cleared: the Steps-th for a positive
      target, the very first one otherwise. */
  function StopTick(end: real): nat
  {
    if end > 0.0 then Steps else 1
  }

  /** The value written into the stat's slot on firing `k` (Math.floor of the
      accumulator). */
  function Shown(end: real, k: nat): int
  {
    RunAfter(end, k).start.Floor
  }

  /** For a positive target, k increments reach the target exactly when k is
      at least Steps. */
  lemma ReachesTarget(end: real, k: nat)
    requires end > 0.0
    ensures k as real * Increment(end) >= end <==> k >= Steps
  {
    var inc := Increment(end);
    var n := Steps as real;
    assert end == n * inc;
    if k >= Steps {
      var d := (k - Steps) as real;
      assert d * inc >= 0.0;
      assert k as real * inc == n * inc + d * inc;
    } else {
      var d := (Steps - k) as real;
      assert d * inc > 0.0;
      assert n * inc == k as real * inc + d * inc;
    }
  }

  /** Exact form of a run: before the clearing firing the accumulator holds
      k increments and the interval is armed; from it on the accumulator is
      the target and the interval is cleared. */
  lemma {:induction false} RunAfterClosedForm(end: real, k: nat)
    ensures RunAfter(end, k) ==
      if k < StopTick(end) then Run(k as real * Increment(end), true) else Run(end, false)
  {
    if k > 0 {
      RunAfterClosedForm(end, k - 1);
      if k - 1 < StopTick(end) {
        var inc := Increment(end);
        assert (k - 1) as real * inc + inc == k as real * inc;
        if end > 0.0 {
          ReachesTarget(end, k);
        }
      }
    }
  }

  /** The interval is cleared exactly once: it is armed before firing
      StopTick(end), cleared on that firing, and stays cleared after it. */
  lemma ClearedExactlyOnce(end: real, k: nat)
    ensures RunAfter(end, k).running <==> k < StopTick(end)
    ensures RunAfter(end, k).running && !RunAfter(end, k + 1).running <==> k + 1 == StopTick(end)
  {
    RunAfterClosedForm(end, k);
    RunAfterClosedForm(end, k + 1);
  }

  /** A positive target takes exactly Steps firings, a target of zero (or
      below) exactly one, and either way the run settles on the target. */
  lemma TicksToSettle(end: real)
    ensures 0.0 < end ==> RunAfter(end, Steps - 1).running && RunAfter(end, Steps) == Run(end, false)
    ensures end <= 0.0 ==> RunAfter(end, 1) == Run(end, false)
    ensures end == 0.0 ==> Increment(end) == 0.0 && Shown(end, 1) == 0
  {
    RunAfterClosedForm(end, Steps - 1);
    RunAfterClosedForm(end, Steps);
    RunAfterClosedForm(end, 1);
  }

  /** For a non-negative target the accumulator never decreases from one
      firing to a later one. */
  lemma RunMonotone(end: real, j: nat, k: nat)
    requires 0.0 <= end
    requires j <= k
    ensures RunAfter(end, j).start <= RunAfter(end, k).start
  {
    RunAfterClosedForm(end, j);
    RunAfterClosedForm(end, k);
    if k < StopTick(end) {
      var inc := Increment(end);
      assert (k - j) as real * inc >= 0.0;
      assert k as real * inc == j as real * inc + (k - j) as real * inc;
    }
  }

  /** Every value written for a non-negative target lies between 0 and the
      floor of the target, later writes are never smaller than earlier ones,
      and every write from the clearing firing on is the floor of the target. */
  lemma ShownValues(end: real, j: nat, k: nat)
    requires 0.0 <= end
    requires j <= k
    ensures 0 <= Shown(end, j) <= Shown(end, k) <= end.Floor
    ensures k >= StopTick(end) ==> Shown(end, k) == end.Floor
  {
    RunMonotone(end, j, k);
    ClearedExactlyOnce(end, k);
  }
}
