/** The statistics section of the landing page: four declared stats, the
    four-slot `counters` state they are displayed from, and the effect that,
    once the section is in view, arms one interval timer per stat to count its
    slot up from 0 to the stat's value. */
module StatsSection {
  import opened CountUp

  /** One declared statistic; `caption` holds the stat's `label` (`label` is a
      Dafny keyword). The icon is markup and is not modelled. */
  datatype Stat = Stat(value: real, suffix: string, caption: string, color: string)

  /** The stats in display order; slot i of `counters` belongs to Stats[i]. */
  const Stats: seq<Stat> := [
    Stat(500.0, "M+", "Active Users", "text-blue-400"),
    Stat(100.0, "M+", "Songs Available", "text-green-400"),
    Stat(190.0, "+", "Countries", "text-purple-400"),
    Stat(24.0, "/7", "Hours Streaming", "text-yellow-400")
  ]

  /** The state one armed interval callback closes over: its slot, its target,
      its increment (fixed when armed) and its accumulator. */
  class Counter {
    const index: nat
    const end: real
    const inc: real
    var start: real
    var running: bool
    /** How many times the interval has fired. */
    ghost var ticks: nat

    /** The fields are the run RunAfter describes after `ticks` firings; the
        interval is armed until its StopTick-th firing and never fires after. */
    ghost predicate Valid()
      reads this
    {
      inc == Increment(end) &&
      Run(start, running) == RunAfter(end, ticks) &&
      ticks <= StopTick(end) &&
      (running <==> ticks < StopTick(end))
    }

    /** Arms the timer for slot `index`: accumulator 0, increment computed
        once from the target. */
    constructor (index: nat, end: real)
      ensures Valid()
      ensures this.index == index && this.end == end
      ensures start == 0.0 && running && ticks == 0
    {
      this.index := index;
      this.end := end;
      this.inc := Increment(end);
      start := 0.0;
      running := true;
      ticks := 0;
    }

    /** One firing of the interval: accumulate, clamp and clear on reaching the
        target, then write the floor of the accumulator into slot `index` of a
        copy of the previous counters, all other slots kept. */
    method Tick(counters: array<int>)
      requires Valid() && running
      requires index < counters.Length
      modifies this, counters
      ensures Valid() && ticks == old(ticks) + 1
      ensures Run(start, running) == Advance(old(Run(start, running)), end, inc)
      ensures 0.0 <= end ==> old(start) <= start <= end
      ensures !running ==> start == end
      ensures counters[..] == old(counters[..])[index := start.Floor]
      ensures counters[index] == Shown(end, ticks)
    {
      start := start + inc;
      if start >= end {
        start := end;
        running := false;
      }
      counters[index] := start.Floor;
      ticks := ticks + 1;
      ClearedExactlyOnce(end, ticks - 1);
    }
  }

  /** The section component: its `counters` state and the timers its effect
      has armed. */
  class Section {
    var counters: array<int>
    var timers: seq<Counter>

    /** Before the effect arms anything every slot shows 0; afterwards there is
        exactly one timer per stat, each distinct, targeting its stat's value,
        and each slot shows the floor of its own timer's accumulator. */
    ghost predicate Valid()
      reads this, counters, timers
    {
      counters.Length == |Stats| &&
      (|timers| == 0 || |timers| == |Stats|) &&
      (forall i, j :: 0 <= i < j < |timers| ==> timers[i] != timers[j]) &&
      (forall j :: 0 <= j < |timers| ==>
        timers[j].Valid() && timers[j].index == j && timers[j].end == Stats[j].value) &&
      (forall j :: 0 <= j < counters.Length ==>
        counters[j] == if |timers| == 0 then 0 else timers[j].start.Floor)
    }

    /** Every armed timer has cleared its interval. */
    ghost predicate Settled()
      reads this, timers
    {
      forall j :: 0 <= j < |timers| ==> !timers[j].running
    }

    /** Mounts the component: counters start as [0, 0, 0, 0], nothing armed. */
    constructor ()
      ensures Valid() && fresh(counters)
      ensures counters[..] == [0, 0, 0, 0] && timers == []
    {
      counters := new int[4](_ => 0);
      timers := [];
    }

    /** The effect, run with the current in-view flag. When the flag is false
        nothing happens; when it is true one timer is armed per stat, in
        order, each with a fresh accumulator at 0. */
    method Effect(isInView: bool)
      requires Valid() && timers == []
      modifies this
      ensures Valid() && counters == old(counters)
      ensures counters[..] == [0, 0, 0, 0]
      ensures !isInView ==> timers == []
      ensures isInView ==> |timers| == |Stats|
      ensures forall j :: 0 <= j < |timers| ==>
        fresh(timers[j]) && timers[j].index == j && timers[j].end == Stats[j].value &&
        timers[j].start == 0.0 && timers[j].running && timers[j].ticks == 0
    {
      if isInView {
        var armed: seq<Counter> := [];
        for i := 0 to |Stats|
          invariant counters == old(counters) && timers == []
          invariant |armed| == i
          invariant forall a, b :: 0 <= a < b < i ==> armed[a] != armed[b]
          invariant forall j :: 0 <= j < i ==>
            fresh(armed[j]) && armed[j].Valid() && armed[j].index == j &&
            armed[j].end == Stats[j].value &&
            armed[j].start == 0.0 && armed[j].running && armed[j].ticks == 0
        {
          var c := new Counter(i, Stats[i].value);
          armed := armed + [c];
        }
        timers := armed;
      }
    }

    /** The host fires timer `j`, which is still armed: only slot `j` changes,
        to the floor of that timer's new accumulator. */
    method Fire(j: nat)
      requires Valid() && j < |timers| && timers[j].running
      modifies counters, timers[j]
      ensures Valid() && timers == old(timers)
      ensures timers[j].ticks == old(timers[j].ticks) + 1
      ensures counters[..] == old(counters[..])[j := timers[j].start.Floor]
      ensures old(counters[j]) <= counters[j] <= timers[j].end.Floor
      ensures forall i :: 0 <= i < |timers| && i != j ==> unchanged(timers[i])
    {
      timers[j].Tick(counters);
      assert Stats[j].value >= 0.0;
    }

    /** Once every timer has cleared, each slot shows its stat's value. */
    lemma SettledShowsValues()
      requires Valid() && timers != [] && Settled()
      ensures counters[..] == [500, 100, 190, 24]
      ensures forall j :: 0 <= j < |Stats| ==> counters[j] == Stats[j].value.Floor
    {
      forall j | 0 <= j < |Stats|
        ensures counters[j] == Stats[j].value.Floor
      {
        var c := timers[j];
        assert c.Valid() && !c.running && c.end == Stats[j].value;
        assert !RunAfter(c.end, c.ticks).running;
      }
      assert Stats[0].value.Floor == 500 && Stats[1].value.Floor == 100;
      assert Stats[2].value.Floor == 190 && Stats[3].value.Floor == 24;
      var shown := counters[..];
      assert |shown| == 4 && shown[0] == 500 && shown[1] == 100 && shown[2] == 190 && shown[3] == 24;
    }

    /** `pending[i]` is how many firings timer i has left before it clears. */
    ghost predicate PendingIs(pending: seq<nat>)
      reads this, timers
    {
      |pending| == |timers| &&
      forall i :: 0 <= i < |timers| ==> pending[i] == StopTick(timers[i].end) - timers[i].ticks
    }

    /** Some armed timer is still waiting to fire. */
    predicate AnyArmed()
      reads this, timers
    {
      exists j :: 0 <= j < |timers| && timers[j].running
    }

    /** The host fires one armed timer `j`, whichever it picks: only slot `j`
        changes and does not go down, every other timer is untouched, and
        timer `j` has one firing fewer left. */
    method FireAny(ghost pending: seq<nat>) returns (j: nat, ghost left: seq<nat>)
      requires Valid() && AnyArmed() && PendingIs(pending)
      modifies counters, timers
      ensures Valid() && timers == old(timers) && PendingIs(left)
      ensures j < |timers| && old(timers[j].running)
      ensures timers[j].ticks == old(timers[j].ticks) + 1
      ensures left == pending[j := pending[j] - 1]
      ensures counters[..] == old(counters[..])[j := timers[j].start.Floor]
      ensures old(counters[j]) <= counters[j] <= timers[j].end.Floor
      ensures forall i :: 0 <= i < |timers| && i != j ==> unchanged(timers[i])
      ensures Sum(left) + 1 == Sum(pending)
    {
      j :| 0 <= j < |timers| && timers[j].running;
      Fire(j);
      SumDecrement(pending, j);
      left := pending[j := pending[j] - 1];
    }

    /** Freshly armed timers have Steps firings each ahead of them. */
    lemma PendingAtArming(pending: seq<nat>)
      requires Valid() && |timers| == |Stats|
      requires forall j :: 0 <= j < |timers| ==> timers[j].ticks == 0
      requires pending == seq(|Stats|, _ => Steps)
      ensures PendingIs(pending) && Sum(pending) == |Stats| * Steps
    {
      SumConstant(|Stats|, Steps);
    }

    /** The host's timer loop after the effect armed the timers: as long as
        some timer is armed, one of them fires. However the firings
        interleave, the loop ends with every timer cleared, 500 firings in
        all (125 per stat), and the counters showing the declared values. */
    method RunTimers() returns (fired: nat)
      requires Valid() && |timers| == |Stats|
      requires forall j :: 0 <= j < |timers| ==> timers[j].ticks == 0
      modifies counters, timers
      ensures Valid() && timers == old(timers) && Settled()
      ensures fired == |Stats| * Steps
      ensures counters[..] == [500, 100, 190, 24]
    {
      fired := 0;
      ghost var pending: seq<nat> := seq(|Stats|, _ => Steps);
      PendingAtArming(pending);
      while AnyArmed()
        invariant Valid() && timers == old(timers) && PendingIs(pending)
        invariant fired + Sum(pending) == |Stats| * Steps
        decreases Sum(pending)
      {
        var _, left := FireAny(pending);
        pending := left;
        fired := fired + 1;
      }
      AllZeroSum(pending);
      SettledShowsValues();
    }
  }

  /** The section from mount to the end of its count-up, given whether it ever
      comes into view: the effect runs once with that flag, then the host
      fires armed timers until none is left. Returns what the four slots show
      at the end and how many firings happened. */
  method Lifecycle(isInView: bool) returns (shown: seq<int>, fired: nat)
    ensures shown == if isInView then [500, 100, 190, 24] else [0, 0, 0, 0]
    ensures fired == if isInView then |Stats| * Steps else 0
  {
    var section := new Section();
    section.Effect(isInView);
    fired := 0;
    if isInView {
      fired := section.RunTimers();
    }
    shown := section.counters[..];
  }

  /** Total of a sequence of counts. */
  function Sum(s: seq<nat>): nat
  {
    if s == [] then 0 else Sum(s[..|s| - 1]) + s[|s| - 1]
  }

  lemma {:induction false} SumDecrement(s: seq<nat>, j: nat)
    requires j < |s| && s[j] > 0
    ensures Sum(s[j := s[j] - 1]) + 1 == Sum(s)
  {
    var t := s[j := s[j] - 1];
    if j < |s| - 1 {
      assert t[..|t| - 1] == s[..|s| - 1][j := s[j] - 1];
      SumDecrement(s[..|s| - 1], j);
    } else {
      assert t[..|t| - 1] == s[..|s| - 1];
    }
  }

  lemma {:induction false} SumConstant(n: nat, v: nat)
    ensures Sum(seq(n, _ => v)) == n * v
  {
    if n > 0 {
      assert seq(n, _ => v)[..n - 1] == seq(n - 1, _ => v);
      SumConstant(n - 1, v);
    }
  }

  lemma {:induction false} AllZeroSum(s: seq<nat>)
    requires forall j :: 0 <= j < |s| ==> s[j] == 0
    ensures Sum(s) == 0
  {
    if s != [] {
      AllZeroSum(s[..|s| - 1]);
    }
  }
}
