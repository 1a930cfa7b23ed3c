// Counters over whole runs: updates, clears, and zones switched on and off, while the hardware
// keeps counting.
module CounterRuns {
  import opened Basics
  import opened StatsStore
  import Arith

  // hw is the number of events the hardware has seen. readAt and clearedAt remember hw at the last
  // reading and at the last clear; the code does not see them.
  datatype Sys = Sys(e: Element, enabled: bool, hw: nat, readAt: nat, clearedAt: nat)

  datatype Event = Hw(k: nat) | Update | Clear | Enable | Disable

  // What the register shows: a free-running counter of the given modulus, or the events since the
  // last reading.
  function Raw(spec: MetricSpec, modulus: nat, s: Sys): nat
    requires modulus >= 1
  {
    if spec.clearOnRead then (if s.readAt <= s.hw then s.hw - s.readAt else 0) % TWO_TO_THE_64 else s.hw % modulus
  }

  // Updates skip a disabled zone; clears do not.
  function Step(spec: MetricSpec, modulus: nat, s: Sys, ev: Event): Sys
    requires modulus >= 1
  {
    match ev
    case Hw(k) => s.(hw := s.hw + k)
    case Update =>
      if s.enabled then s.(e := Reading(spec, s.e, Raw(spec, modulus, s), false), readAt := s.hw) else s
    case Clear =>
      s.(e := Reading(spec, s.e, Raw(spec, modulus, s), !spec.neverClear), readAt := s.hw, clearedAt := s.hw)
    case Enable => s.(enabled := true)
    case Disable => s.(enabled := false)
  }

  function Run(spec: MetricSpec, modulus: nat, s: Sys, evs: seq<Event>): Sys
    requires modulus >= 1
    decreases |evs|
  {
    if evs == [] then s
    else Step(spec, modulus, Run(spec, modulus, s, evs[..|evs| - 1]), evs[|evs| - 1])
  }

  // Independent reading of a trace: the events in it, and the switch position after it.
  function Events(evs: seq<Event>): nat {
    if evs == [] then 0
    else Events(evs[..|evs| - 1]) + if evs[|evs| - 1].Hw? then evs[|evs| - 1].k else 0
  }

  function EnabledAfter(start: bool, evs: seq<Event>): bool {
    if evs == [] then start
    else match evs[|evs| - 1]
      case Enable => true
      case Disable => false
      case _ => EnabledAfter(start, evs[..|evs| - 1])
  }

  predicate NoClear(evs: seq<Event>) { Clear !in evs }

  ghost predicate Counts(spec: MetricSpec, modulus: nat, s: Sys)
    requires modulus >= 1
  {
    s.clearedAt <= s.readAt <= s.hw
    && if spec.clearOnRead then s.e.u64 == (spec.initValue + s.readAt - s.clearedAt) % TWO_TO_THE_64
       else s.e.last == s.readAt % modulus
            && s.e.u64 == (spec.initValue + s.readAt % modulus - s.clearedAt % modulus) % TWO_TO_THE_64
  }

  predicate ClearableCounter(spec: MetricSpec) {
    spec.ty == CounterMetric && !spec.neverClear && spec.initValue < TWO_TO_THE_64
  }

  // A clear establishes the invariant from any state, and every event keeps it.
  lemma ClearEstablishes(spec: MetricSpec, modulus: nat, s: Sys)
    requires ClearableCounter(spec) && modulus >= 1
    ensures Counts(spec, modulus, Step(spec, modulus, s, Clear))
  {
  }

  // Differences taken and added modulo 2^64 telescope.
  lemma WrapAdd(i: int, a: int, b: int)
    ensures ((i + a) % TWO_TO_THE_64 + (b - a) % TWO_TO_THE_64) % TWO_TO_THE_64 == (i + b) % TWO_TO_THE_64
  {
    var sum := (i + a) % TWO_TO_THE_64 + (b - a) % TWO_TO_THE_64;
    var q := (i + b) / TWO_TO_THE_64 - (i + a) / TWO_TO_THE_64 - (b - a) / TWO_TO_THE_64;
    Arith.DivModUnique(sum, q, (i + b) % TWO_TO_THE_64, TWO_TO_THE_64);
  }

  lemma ModDifference(i: int, a: int, b: int)
    ensures (i + a % TWO_TO_THE_64 - b % TWO_TO_THE_64) % TWO_TO_THE_64 == (i + a - b) % TWO_TO_THE_64
  {
    var q := (i + a - b) / TWO_TO_THE_64 - a / TWO_TO_THE_64 + b / TWO_TO_THE_64;
    Arith.DivModUnique(i + a % TWO_TO_THE_64 - b % TWO_TO_THE_64, q, (i + a - b) % TWO_TO_THE_64, TWO_TO_THE_64);
  }

  // One reading moves the stored value from reference point a to reference point b.
  lemma ReadingMoves(spec: MetricSpec, e: Element, raw: nat, i: int, a: int, b: int)
    requires spec.ty == CounterMetric && e.u64 == (i + a) % TWO_TO_THE_64
    requires if spec.clearOnRead then raw == (b - a) % TWO_TO_THE_64 else e.last == a && raw == b
    ensures Reading(spec, e, raw, false).u64 == (i + b) % TWO_TO_THE_64
    ensures Reading(spec, e, raw, false).last == if spec.clearOnRead then e.last else b
  {
    WrapAdd(i, a, b);
  }

  lemma StepKeepsCounts(spec: MetricSpec, modulus: nat, s: Sys, ev: Event)
    requires ClearableCounter(spec) && modulus >= 1 && Counts(spec, modulus, s)
    ensures Counts(spec, modulus, Step(spec, modulus, s, ev))
  {
    if ev.Clear? {
      ClearEstablishes(spec, modulus, s);
    } else if ev.Update? && s.enabled {
      var a, b, c := s.readAt % modulus, s.hw % modulus, s.clearedAt % modulus;
      if spec.clearOnRead {
        ReadingMoves(spec, s.e, Raw(spec, modulus, s), spec.initValue - s.clearedAt, s.readAt, s.hw);
      } else {
        ReadingMoves(spec, s.e, b, spec.initValue - c, a, b);
      }
    }
  }

  lemma WrapSub(x: int, y: int)
    ensures (x - y) % TWO_TO_THE_64 == x % TWO_TO_THE_64 <==> y % TWO_TO_THE_64 == 0
  {
  }

  lemma {:induction false} RunKeepsCounts(spec: MetricSpec, modulus: nat, s: Sys, evs: seq<Event>)
    requires ClearableCounter(spec) && modulus >= 1 && Counts(spec, modulus, s)
    ensures Counts(spec, modulus, Run(spec, modulus, s, evs))
  {
    if evs != [] {
      RunKeepsCounts(spec, modulus, s, evs[..|evs| - 1]);
      StepKeepsCounts(spec, modulus, Run(spec, modulus, s, evs[..|evs| - 1]), evs[|evs| - 1]);
    }
  }

  lemma {:induction false} RunBookkeeping(spec: MetricSpec, modulus: nat, s: Sys, evs: seq<Event>)
    requires modulus >= 1 && NoClear(evs)
    ensures var t := Run(spec, modulus, s, evs);
      t.hw == s.hw + Events(evs) && t.clearedAt == s.clearedAt && t.enabled == EnabledAfter(s.enabled, evs)
  {
    if evs != [] { RunBookkeeping(spec, modulus, s, evs[..|evs| - 1]); }
  }

  // No update takes effect in evs when the zone is off at each of them.
  predicate NoEffect(start: bool, evs: seq<Event>)
  {
    evs == []
    || (NoEffect(start, evs[..|evs| - 1]) && !evs[|evs| - 1].Clear?
        && (evs[|evs| - 1].Update? ==> !EnabledAfter(start, evs[..|evs| - 1])))
  }

  lemma {:induction false} NoEffectKeeps(spec: MetricSpec, modulus: nat, s: Sys, evs: seq<Event>)
    requires modulus >= 1 && NoEffect(s.enabled, evs)
    ensures Run(spec, modulus, s, evs).e == s.e
    ensures Run(spec, modulus, s, evs).enabled == EnabledAfter(s.enabled, evs)
  {
    if evs != [] { NoEffectKeeps(spec, modulus, s, evs[..|evs| - 1]); }
  }

  lemma {:induction false} RunAppend(spec: MetricSpec, modulus: nat, s: Sys, a: seq<Event>, b: seq<Event>)
    requires modulus >= 1
    ensures Run(spec, modulus, s, a + b) == Run(spec, modulus, Run(spec, modulus, s, a), b)
    decreases |b|
  {
    if b == [] {
      assert a + b == a;
    } else {
      RunAppend(spec, modulus, s, a, b[..|b| - 1]);
      assert (a + b)[..|a + b| - 1] == a + b[..|b| - 1];
    }
  }

  // The state after: anything, a clear, mid without clears, an update, post without effect.
  function AfterReading(spec: MetricSpec, modulus: nat, s: Sys, mid: seq<Event>, post: seq<Event>): Sys
    requires modulus >= 1
  {
    Run(spec, modulus, s, [Clear] + mid + [Update] + post)
  }

  function AtReading(spec: MetricSpec, modulus: nat, s: Sys, mid: seq<Event>): Sys
    requires modulus >= 1
  {
    Step(spec, modulus, Run(spec, modulus, Step(spec, modulus, s, Clear), mid), Update)
  }

  lemma AfterReadingSplits(spec: MetricSpec, modulus: nat, s: Sys, mid: seq<Event>, post: seq<Event>)
    requires modulus >= 1
    ensures AfterReading(spec, modulus, s, mid, post) == Run(spec, modulus, AtReading(spec, modulus, s, mid), post)
  {
    RunAppend(spec, modulus, s, [Clear] + mid + [Update], post);
    RunAppend(spec, modulus, s, [Clear] + mid, [Update]);
    RunAppend(spec, modulus, s, [Clear], mid);
    assert [Clear][..0] == [] && [Update][..0] == [];
  }

  lemma AtReadingCounts(spec: MetricSpec, modulus: nat, s: Sys, mid: seq<Event>)
    requires ClearableCounter(spec) && modulus >= 1
    requires NoClear(mid) && EnabledAfter(s.enabled, mid)
    ensures var t := AtReading(spec, modulus, s, mid);
      Counts(spec, modulus, t) && t.readAt == s.hw + Events(mid) && t.clearedAt == s.hw && t.enabled
  {
    ClearEstablishes(spec, modulus, s);
    var s1 := Step(spec, modulus, s, Clear);
    RunKeepsCounts(spec, modulus, s1, mid);
    RunBookkeeping(spec, modulus, s1, mid);
    StepKeepsCounts(spec, modulus, Run(spec, modulus, s1, mid), Update);
  }

  lemma AfterReadingCounts(spec: MetricSpec, modulus: nat, s: Sys, mid: seq<Event>, post: seq<Event>)
    requires ClearableCounter(spec) && modulus >= 1
    requires NoClear(mid) && EnabledAfter(s.enabled, mid) && NoEffect(true, post)
    ensures var e := AfterReading(spec, modulus, s, mid, post).e;
      if spec.clearOnRead then e.u64 == (spec.initValue + Events(mid)) % TWO_TO_THE_64
      else e.u64 == (spec.initValue + (s.hw + Events(mid)) % modulus - s.hw % modulus) % TWO_TO_THE_64
  {
    hide AfterReading, AtReading, Run, NoEffect, EnabledAfter, Events;
    AfterReadingSplits(spec, modulus, s, mid, post);
    AtReadingCounts(spec, modulus, s, mid);
    NoEffectKeeps(spec, modulus, AtReading(spec, modulus, s, mid), post);
  }

  // Counters read by clearing, and free-running 64-bit counters, show the same abstract count:
  // init_value plus the events between the last clear's reading and the last effective update's
  // reading, modulo 2^64. mid may switch the zone off and on: no event of those periods is lost.
  lemma CountsEveryEvent(spec: MetricSpec, s: Sys, mid: seq<Event>, post: seq<Event>)
    requires ClearableCounter(spec)
    requires NoClear(mid) && EnabledAfter(s.enabled, mid) && NoEffect(true, post)
    ensures AfterReading(spec, TWO_TO_THE_64, s, mid, post).e.u64 == (spec.initValue + Events(mid)) % TWO_TO_THE_64
  {
    AfterReadingCounts(spec, TWO_TO_THE_64, s, mid, post);
    ModDifference(spec.initValue, s.hw + Events(mid), s.hw);
  }

  // A free-running counter narrower than 64 bits is counted right exactly when the register wrapped
  // a multiple of 2^64 / modulus times between the two readings (in practice: not at all).
  lemma NarrowCounterExact(spec: MetricSpec, modulus: nat, ratio: nat, s: Sys, mid: seq<Event>, post: seq<Event>)
    requires ClearableCounter(spec) && !spec.clearOnRead && modulus >= 1 && modulus * ratio == TWO_TO_THE_64
    requires NoClear(mid) && EnabledAfter(s.enabled, mid) && NoEffect(true, post)
    ensures AfterReading(spec, modulus, s, mid, post).e.u64 == (spec.initValue + Events(mid)) % TWO_TO_THE_64
       <==> ((s.hw + Events(mid)) / modulus - s.hw / modulus) % ratio == 0
  {
    assert AfterReading(spec, modulus, s, mid, post).e.u64
        == (spec.initValue + (s.hw + Events(mid)) % modulus - s.hw % modulus) % TWO_TO_THE_64 by {
      AfterReadingCounts(spec, modulus, s, mid, post);
    }
    NarrowDifference(spec.initValue, s.hw + Events(mid), s.hw, modulus, ratio);
  }

  // A 32-bit free-running counter that wraps once between clear and update shows no event at all.
  lemma NarrowCounterLosesAWrap(spec: MetricSpec, s: Sys, mid: seq<Event>)
    requires spec == MetricSpec("packets", CounterMetric, false, false, false, 0)
    requires s == Sys(Element(0, 0), true, 0, 0, 0) && mid == [Hw(0x1_0000_0000)]
    ensures Events(mid) == 0x1_0000_0000 && AfterReading(spec, 0x1_0000_0000, s, mid, []).e.u64 == 0
  {
    assert mid[..0] == [];
    AfterReadingCounts(spec, 0x1_0000_0000, s, mid, []);
  }

  lemma NarrowDifference(i: nat, a: nat, b: nat, m: nat, ratio: nat)
    requires m >= 1 && m * ratio == TWO_TO_THE_64
    ensures (i + a % m - b % m) % TWO_TO_THE_64 == (i + a - b) % TWO_TO_THE_64 <==> (a / m - b / m) % ratio == 0
  {
    var p, q := a / m, b / m;
    DivMod(a, m);
    DivMod(b, m);
    var lost := m * (p - q);
    assert lost == m * p - m * q;
    WrapSub(i + a - b, lost);
    MulMod(m, ratio, p - q);
  }

  lemma DivMod(n: nat, m: nat)
    requires m >= 1
    ensures n % m == n - m * (n / m)
  {
  }

  lemma MulMod(m: nat, k: nat, q: int)
    requires m >= 1 && m * k == TWO_TO_THE_64
    ensures (m * q) % TWO_TO_THE_64 == 0 <==> q % k == 0
  {
    var t, r := q / k, q % k;
    assert m * r < TWO_TO_THE_64 by {
      Arith.MulAtLeast(m, k - r);
      assert m * (k - r) == TWO_TO_THE_64 - m * r;
    }
    assert m * q == TWO_TO_THE_64 * t + m * r by {
      assert q == k * t + r;
      assert m * (k * t) == (m * k) * t;
      assert m * (k * t + r) == m * (k * t) + m * r;
    }
    assert m * r >= 0;
    Arith.DivModUnique(m * q, t, m * r, TWO_TO_THE_64);
    if r != 0 {
      assert m * r >= m by { Arith.MulAtLeast(m, r); }
    }
  }

  // ---- Before the first clear, and for metrics that are never cleared ----

  // No clear takes effect: none is asked for, or the metric ignores it.
  predicate NeverReset(spec: MetricSpec, evs: seq<Event>) { spec.neverClear || NoClear(evs) }

  // A counter since its construction, when start events had been read: a free-running one shows the
  // last reading, one read by clearing shows init_value plus the events read since.
  ghost predicate SinceStart(spec: MetricSpec, s: Sys, start: nat) {
    start <= s.readAt <= s.hw
    && if spec.clearOnRead then s.e.u64 == (spec.initValue + s.readAt - start) % TWO_TO_THE_64
       else s.e.u64 == s.e.last < TWO_TO_THE_64
  }

  lemma ConstructedSinceStart(spec: MetricSpec, s: Sys)
    requires spec.ty == CounterMetric && spec.initValue < TWO_TO_THE_64
    requires s.e == Element(spec.initValue, spec.initValue) && s.readAt <= s.hw
    ensures SinceStart(spec, s, s.readAt)
  {
  }

  // A free-running counter that shows its last reading shows the next one.
  lemma ShowsReading(spec: MetricSpec, e: Element, raw: nat)
    requires spec.ty == CounterMetric && !spec.clearOnRead
    requires e.u64 == e.last < TWO_TO_THE_64 && raw < TWO_TO_THE_64
    ensures Reading(spec, e, raw, false) == Element(raw, raw)
  {
    Arith.DivModUnique(e.last, 0, e.last, TWO_TO_THE_64);
    Arith.DivModUnique(raw, 0, raw, TWO_TO_THE_64);
    WrapAdd(0, e.last, raw);
  }

  lemma StepKeepsSinceStart(spec: MetricSpec, modulus: nat, s: Sys, ev: Event, start: nat)
    requires spec.ty == CounterMetric && 1 <= modulus <= TWO_TO_THE_64 && SinceStart(spec, s, start)
    requires ev.Clear? ==> spec.neverClear
    ensures SinceStart(spec, Step(spec, modulus, s, ev), start)
  {
    if ev.Clear? || (ev.Update? && s.enabled) {
      if spec.clearOnRead {
        ReadingMoves(spec, s.e, Raw(spec, modulus, s), spec.initValue - start, s.readAt, s.hw);
      } else {
        ShowsReading(spec, s.e, Raw(spec, modulus, s));
      }
    }
  }

  // Over every run in which no clear takes effect, from the state the constructor leaves.
  lemma {:induction false} RunSinceStart(spec: MetricSpec, modulus: nat, s: Sys, evs: seq<Event>)
    requires spec.ty == CounterMetric && spec.initValue < TWO_TO_THE_64 && 1 <= modulus <= TWO_TO_THE_64
    requires s.e == Element(spec.initValue, spec.initValue) && s.readAt <= s.hw && NeverReset(spec, evs)
    ensures SinceStart(spec, Run(spec, modulus, s, evs), s.readAt)
  {
    if evs == [] {
      ConstructedSinceStart(spec, s);
    } else {
      var before := evs[..|evs| - 1];
      RunSinceStart(spec, modulus, s, before);
      StepKeepsSinceStart(spec, modulus, Run(spec, modulus, s, before), evs[|evs| - 1], s.readAt);
    }
  }
}
