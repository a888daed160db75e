# Count-up counters of the Vibefy statistics section

The landing page's statistics section shows four numbers (500M+ active users,
100M+ songs, 190+ countries, 24/7 streaming). They are held in a four-slot
`counters` state that starts at `[0, 0, 0, 0]`. When the section first comes
into view, an effect arms one 16 ms interval timer per stat. Each timer keeps
a private accumulator `start`, starting at 0, and adds a fixed increment
`end / (2000 / 16)` on every firing. When the accumulator reaches or passes
the stat's value `end`, it is pinned to `end` and the interval is cleared.
Every firing writes `Math.floor(start)` into the timer's own slot of a copy of
the previous counters.

This project models that engine and proves what it does:

- `countup.dfy`, module `CountUp`: the arithmetic of one run as pure
  functions. `Increment` gives the fixed increment, `Advance` one firing, and
  `RunAfter` the state after k firings, with `Shown` the floored value written.
  The lemmas prove the closed form of a run and when the interval is cleared
  (exactly once: on firing 125 for a positive target, on the first firing
  otherwise). They also prove that written values never decrease, stay within
  `[0, end]` and finish at `end`.
- `stats_section.dfy`, module `StatsSection`: the component, imperatively.
  - `Stat` and `Stats` are the declared stats.
  - `Counter` is the state one interval callback closes over. Its `Tick` is
    the callback body.
  - `Section` holds the `counters` array and the armed timers. `Effect` is the
    effect body. `Fire` and `FireAny` are the host firing one armed timer.
  - `RunTimers` is the host's timer loop, which picks any armed timer on each
    step. It is proved to end, for every interleaving, with every interval
    cleared, 500 firings in all, and the counters showing `[500, 100, 190, 24]`.

Numbers are exact rationals (`real`), and `Math.floor` is `.Floor`. A timer
firing is one discrete step; wall-clock time does not appear. The in-view flag
is an input boolean. The one-shot visibility latch guarantees that the effect
sees `true` at most once, and that both of its runs (at mount with `false`,
then possibly with `true`) happen before any timer exists. `Effect` therefore
requires that no timer is armed yet.

A zero target arms a timer like any other; it clears on its first firing,
showing 0. The divisor is `2000 / 16`, with no rounding. Nothing checks the
target, duration or interval, and nothing stops the timers on unmount.

## Model

| member | source | states |
|---|---|---|
| CountUp.Increment | src/components/StatsSection.tsx:53-55 | the per-tick increment is computed once from the target alone, and 125 increments make up exactly the target; it is positive (zero) exactly when the target is |
| CountUp.Advance | src/components/StatsSection.tsx:58-61 | one firing moves the accumulator to the smaller of accumulator + increment and the target; the interval stays armed exactly when the sum is still below the target; once cleared the accumulator equals the target; a non-negative increment never lowers the accumulator nor lifts it above the target |
| CountUp.RunAfter | src/components/StatsSection.tsx:52-61 | after any number of firings, a non-negative target's accumulator lies in [0, end], and a cleared run's accumulator is exactly the target |
| CountUp.ReachesTarget | src/components/StatsSection.tsx:54-59 | for a positive target, k increments reach or pass the target if and only if k is at least 125 |
| CountUp.RunAfterClosedForm | src/components/StatsSection.tsx:52-61 | before its clearing firing a run holds exactly k increments and is armed; from that firing on it holds the target and is cleared |
| CountUp.ClearedExactlyOnce | src/components/StatsSection.tsx:59-61 | the interval is armed if and only if fewer than StopTick firings happened, and it is cleared on firing k+1 if and only if k+1 is StopTick: exactly once |
| CountUp.TicksToSettle | src/components/StatsSection.tsx:54-61 | a positive target is still counting after 124 firings and settles on the target at firing 125; a target of zero or below settles on the first firing; a zero target has increment 0 and shows 0 |
| CountUp.RunMonotone | src/components/StatsSection.tsx:55-60 | for a non-negative target, the accumulator after a later firing is never below the accumulator after an earlier one |
| CountUp.ShownValues | src/components/StatsSection.tsx:58-65 | every written value for a non-negative target is an integer in [0, floor(end)], successive writes never decrease, and every write from the clearing firing on is floor(end) |
| StatsSection.Counter.constructor | src/components/StatsSection.tsx:52-57 | arming a timer fixes its slot, target and increment and starts the accumulator at 0 with the interval active |
| StatsSection.Counter.Tick | src/components/StatsSection.tsx:57-67 | one firing is exactly Advance on the accumulator; the accumulator never decreases and stays within the target; a cleared interval holds the target; only slot `index` of the counters changes, to the floor of the accumulator, which is Shown for this firing |
| StatsSection.Section.constructor | src/components/StatsSection.tsx:16 | the counters start as [0, 0, 0, 0] with no timer armed |
| StatsSection.Section.Effect | src/components/StatsSection.tsx:49-57 | with the in-view flag false no timer is armed and the counters stay [0, 0, 0, 0]; with it true exactly one fresh timer per stat is armed, in order, each for its stat's value with accumulator 0 |
| StatsSection.Section.Fire | src/components/StatsSection.tsx:57-68 | firing an armed timer changes only its own slot, never lowers it, keeps it within the target, and leaves every other timer unchanged |
| StatsSection.Section.FireAny | src/components/StatsSection.tsx:51-68 | whichever armed timer `j` the host fires: it was armed, its firing count rises by one and its pending count drops by one; only slot `j` of the counters changes, to the floor of its accumulator, never going down nor above the target; every other timer is unchanged; one firing fewer remains outstanding in all |
| StatsSection.Section.RunTimers | src/components/StatsSection.tsx:51-68 | however the four timers' firings interleave, all intervals clear after 500 firings in total and the counters end as [500, 100, 190, 24] |
| StatsSection.Section.SettledShowsValues | src/components/StatsSection.tsx:18-66 | once every interval is cleared, each slot shows the declared value of its stat, in declaration order |
| StatsSection.Lifecycle | src/components/StatsSection.tsx:15-71 | a section that never comes into view shows [0, 0, 0, 0] with no firing; one that comes into view ends showing [500, 100, 190, 24] after 125 firings per stat |

## Left out

- Teardown: the effect returns no cleanup function, so nothing stops the timers when the component unmounts. The model has no unmount step.
- The one-shot visibility latch (`useInView` with `once: true`) is library behaviour. It is an input boolean here, and `Effect` requires that no timer is armed yet, which the latch guarantees.
- Stagger timing, variants and the rest of the markup are handed to the animation library, which computes the offsets. They are not modelled.
- IEEE-754 doubles: accumulation is exact here. With doubles the firing that reaches the target can differ by one: for the target 100 the increment is 0.8, and 125 double additions of 0.8 stay just below 100, so that interval clears on firing 126 (slot 1 shows 99 after firing 125). The clamp still makes the final value exact.
- StatsSection.Section.RunTimers: "500 firings in all" holds for exact arithmetic; with doubles the target 100 takes one extra firing, 501 in all.
- StatsSection.Lifecycle: the firing count 125 per stat holds for exact arithmetic; with doubles it is 501 in all, for the reason above.
- Real timer cadence: a firing is one discrete step. Drift and the 16 ms period do not appear beyond the constants.
- React state batching: `setCounters(prev => …)` is modelled as an in-place write to one slot of the counters array. Copying the array and replacing one index gives the same contents.
- Icons, labels, suffixes and colours only feed rendering. `Stat` keeps the strings as data, but no property depends on them.
- The other components (hero, features, playlist showcase, navigation bar, footer, app shell) are declarative markup, decorative animation, random positioning or browser I/O, and are not part of this model.
