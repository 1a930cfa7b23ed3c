// Gauges and flags over whole runs: updates, clears, and the metric's zone switched on and off.
module LevelRuns {
  import opened Basics
  import opened StatsStore

  // An update or a clear comes with the value the register has at that moment.
  datatype Event = Update(raw: nat) | Clear(raw: nat) | Enable | Disable

  datatype Sys = Sys(e: Element, enabled: bool)

  // Updates skip a disabled zone; clears do not.
  function Step(spec: MetricSpec, s: Sys, ev: Event): Sys {
    match ev
    case Update(raw) => if s.enabled then s.(e := Reading(spec, s.e, raw, false)) else s
    case Clear(raw) => s.(e := Reading(spec, s.e, raw, !spec.neverClear))
    case Enable => s.(enabled := true)
    case Disable => s.(enabled := false)
  }

  function Run(spec: MetricSpec, s: Sys, evs: seq<Event>): Sys
    decreases |evs|
  {
    if evs == [] then s else Step(spec, Run(spec, s, evs[..|evs| - 1]), evs[|evs| - 1])
  }

  // The switch position before event k.
  predicate EnabledBefore(start: bool, evs: seq<Event>, k: nat)
    requires k <= |evs|
  {
    if k == 0 then start
    else if evs[k - 1].Enable? then true
    else if evs[k - 1].Disable? then false
    else EnabledBefore(start, evs, k - 1)
  }

  // Event k reaches the metric.
  predicate Effective(start: bool, evs: seq<Event>, k: nat)
    requires k < |evs|
  {
    evs[k].Clear? || (evs[k].Update? && EnabledBefore(start, evs, k))
  }

  lemma {:induction false} SwitchFollows(spec: MetricSpec, s: Sys, evs: seq<Event>, k: nat)
    requires k <= |evs|
    ensures Run(spec, s, evs[..k]).enabled == EnabledBefore(s.enabled, evs, k)
  {
    if k > 0 {
      SwitchFollows(spec, s, evs, k - 1);
      assert evs[..k][..k - 1] == evs[..k - 1];
    }
  }

  // What a gauge or a flag shows once event k was the last to reach it: init_value after a clear that
  // may reset it, otherwise the value read, for a flag as 0 or 1.
  function Shown(spec: MetricSpec, ev: Event): nat
    requires ev.Update? || ev.Clear?
  {
    if ev.Clear? && !spec.neverClear then spec.initValue
    else if spec.ty == GaugeMetric then ev.raw
    else if ev.raw == 0 then 0 else 1
  }

  // Over every run: only the last event that reached a gauge or flag decides what it shows, and with
  // none it shows what it did.
  lemma {:induction false} ShowsLastReading(spec: MetricSpec, s: Sys, evs: seq<Event>, k: nat)
    requires spec.ty in {GaugeMetric, FlagMetric} && k < |evs| && Effective(s.enabled, evs, k)
    requires forall j :: k < j < |evs| ==> !Effective(s.enabled, evs, j)
    ensures Run(spec, s, evs).e.u64 == Shown(spec, evs[k])
  {
    KeepsShown(spec, s, evs, k + 1, |evs|);
    SwitchFollows(spec, s, evs, k);
    assert evs[..k + 1][..k] == evs[..k] && evs[..|evs|] == evs;
  }

  lemma ShowsStart(spec: MetricSpec, s: Sys, evs: seq<Event>)
    requires forall j :: 0 <= j < |evs| ==> !Effective(s.enabled, evs, j)
    ensures Run(spec, s, evs).e == s.e
  {
    KeepsShown(spec, s, evs, 0, |evs|);
    assert evs[..0] == [] && evs[..|evs|] == evs;
  }

  // Events that do not reach the metric change nothing of it.
  lemma {:induction false} KeepsShown(spec: MetricSpec, s: Sys, evs: seq<Event>, k: nat, n: nat)
    requires k <= n <= |evs| && forall j :: k <= j < n ==> !Effective(s.enabled, evs, j)
    ensures Run(spec, s, evs[..n]).e == Run(spec, s, evs[..k]).e
  {
    if k < n {
      KeepsShown(spec, s, evs, k, n - 1);
      SwitchFollows(spec, s, evs, n - 1);
      assert evs[..n][..n - 1] == evs[..n - 1] && evs[..n][n - 1] == evs[n - 1];
      assert !Effective(s.enabled, evs, n - 1);
    }
  }
}
