// Stored metrics: how one update or clear changes every element of a metric, and which elements a
// filtered clear resets.
module StatsStore {
  import opened Basics
  import opened MetricFilter
  import opened StringMatch
  import BitArrays
  import FilterLaws

  datatype MetricType = CounterMetric | GaugeMetric | FlagMetric

  datatype MetricSpec = MetricSpec(name: string, ty: MetricType, clearOnRead: bool, neverClear: bool,
                                   isArray: bool, initValue: nat)

  datatype Element = Element(u64: nat, last: nat)

  // Clear every element, or those a filter selects.
  datatype ClearFilter = ClearAll | ClearMatching(filter: Filter)

  function TypeCode(ty: MetricType): StatsType {
    match ty
    case CounterMetric => Counter
    case GaugeMetric => Gauge
    case FlagMetric => Flag
  }

  // One element after one reading.
  function Reading(spec: MetricSpec, e: Element, raw: nat, doClear: bool): Element {
    match spec.ty
    case CounterMetric =>
      var diff := if spec.clearOnRead then raw else (raw - e.last) % TWO_TO_THE_64;
      Element(if doClear then spec.initValue else (e.u64 + diff) % TWO_TO_THE_64,
              if spec.clearOnRead then e.last else raw)
    case FlagMetric => e.(u64 := if doClear then spec.initValue else if raw != 0 then 1 else 0)
    case GaugeMetric => e.(u64 := if doClear then spec.initValue else raw)
  }

  class Metric {
    const spec: MetricSpec
    const domain: string
    const zone: string
    const block: string
    const labels: seq<seq<Label>>
    const elements: array<Element>

    ghost predicate Valid() { elements.Length > 0 && |labels| == elements.Length }

    // The metric as the filter callbacks see it.
    function Presented(): (view: ForEach)
      reads elements
      requires Valid()
      ensures |view.values| == elements.Length
    {
      ForEach(domain, zone, block, spec.name, spec.isArray,
              seq(elements.Length, n requires 0 <= n < elements.Length reads elements =>
                Value(elements[n].u64, labels[n])))
    }

    // How filters see the metric: under its own type, scope and labels.
    lemma SeenAsItself(lib: RegexLib, n: nat, name: string, key: string)
      requires Valid() && n < elements.Length
      ensures var view, ty := Presented(), TypeCode(spec.ty);
        && (FilterLaws.Selects(lib, view, DomainIs(Exact(name)), ty, n) <==> domain == name)
        && (FilterLaws.Selects(lib, view, ZoneIs(Exact(name)), ty, n) <==> zone == name)
        && (FilterLaws.Selects(lib, view, BlockIs(Exact(name)), ty, n) <==> block == name)
        && (FilterLaws.Selects(lib, view, NameIs(Exact(name)), ty, n) <==> spec.name == name)
        && (FilterLaws.Selects(lib, view, TypeIs(Counter), ty, n) <==> spec.ty == CounterMetric)
        && (FilterLaws.Selects(lib, view, TypeIs(Gauge), ty, n) <==> spec.ty == GaugeMetric)
        && (FilterLaws.Selects(lib, view, TypeIs(Flag), ty, n) <==> spec.ty == FlagMetric)
        && (FilterLaws.Selects(lib, view, LabelIs(Some(Exact(key)), Some(Exact(name))), ty, n)
            <==> Label(key, name) in labels[n])
    {
      var view, ty := Presented(), TypeCode(spec.ty);
      FilterLaws.LabelByName(lib, view, key, name, ty, n);
      FilterLaws.ScopeByName(lib, view, name, Counter, ty, n);
      FilterLaws.ScopeByName(lib, view, name, Gauge, ty, n);
      FilterLaws.ScopeByName(lib, view, name, Flag, ty, n);
      hide FilterLaws.Selects;
    }

    constructor (spec: MetricSpec, domain: string, zone: string, block: string, labels: seq<seq<Label>>)
      requires |labels| > 0
      ensures Valid() && fresh(elements) && this.spec == spec && this.labels == labels
      ensures this.domain == domain && this.zone == zone && this.block == block
      ensures forall n :: 0 <= n < elements.Length ==> elements[n] == Element(spec.initValue, spec.initValue)
    {
      this.spec, this.domain, this.zone, this.block, this.labels := spec, domain, zone, block, labels;
      elements := new Element[|labels|](_ => Element(spec.initValue, spec.initValue));
    }

    // Whether an update with the given clear request resets element n.
    ghost predicate Clears(lib: RegexLib, clear: Option<ClearFilter>, n: nat)
      reads elements
      requires Valid() && n < elements.Length
    {
      !spec.neverClear && clear.Some?
      && (clear.value.ClearMatching? ==>
            FilterHolds(lib, Presented(), clear.value.filter, TypeCode(spec.ty), n))
    }

    // The elements a clear request matches, evaluated before the pass changes any of them.
    method MatchClear(lib: RegexLib, clear: Option<ClearFilter>) returns (valid: BitArrays.BitArray)
      requires Valid()
      ensures valid.Valid() && fresh(valid) && fresh(valid.words)
      ensures clear.Some? && clear.value.ClearMatching? && !spec.neverClear ==>
        forall n: nat :: n < elements.Length ==> (n in valid.Contents() <==> Clears(lib, clear, n))
    {
      valid := new BitArrays.BitArray(elements.Length);
      if clear.Some? && clear.value.ClearMatching? {
        var view := Presented();
        ApplyMetricFilter(lib, view, clear.value.filter, TypeCode(spec.ty), valid);
        forall n: nat | n < elements.Length && !spec.neverClear
          ensures n in valid.Contents() <==> Clears(lib, clear, n)
        {
          DenotedMember(lib, view, clear.value.filter, TypeCode(spec.ty), n);
        }
      }
    }

    // One pass of a block update over this metric: raws are the values read from the hardware.
    method Update(lib: RegexLib, raws: seq<nat>, clear: Option<ClearFilter>)
      requires Valid() && |raws| == elements.Length
      modifies elements
      ensures forall n :: 0 <= n < elements.Length ==>
        elements[n] == Reading(spec, old(elements[n]), raws[n], old(Clears(lib, clear, n)))
    {
      var valid := MatchClear(lib, clear);
      ghost var matched := valid.Contents();
      hide BitArrays.BitArray.Valid, BitArrays.BitArray.Contents, FilterHolds, Reading;
      for n := 0 to elements.Length
        invariant valid.Valid() && valid.Contents() == matched
        invariant forall k :: n <= k < elements.Length ==> elements[k] == old(elements[k])
        invariant forall k :: 0 <= k < n ==>
          elements[k] == Reading(spec, old(elements[k]), raws[k], old(Clears(lib, clear, k)))
      {
        var doClear := !spec.neverClear && clear.Some?;
        if doClear && clear.value.ClearMatching? {
          doClear := valid.IsBitSet(n);
        }
        elements[n] := Reading(spec, elements[n], raws[n], doClear);
      }
    }

    // The clear request of a client: with a metric filter the matching elements, without one all.
    method ClearWithFilters(lib: RegexLib, raws: seq<nat>, filters: Filters)
      requires Valid() && |raws| == elements.Length
      modifies elements
      ensures forall n :: 0 <= n < elements.Length ==>
        elements[n] == Reading(spec, old(elements[n]), raws[n],
          !spec.neverClear
          && n in Selected(lib, old(Presented()), Filters(false, filters.metricFilter), TypeCode(spec.ty)))
    {
      if filters.metricFilter.Some? {
        Update(lib, raws, Some(ClearMatching(filters.metricFilter.value)));
      } else {
        Update(lib, raws, Some(ClearAll));
      }
    }
  }

  // ---- A read and a clear with the same filter select the same elements ----

  // Two views of one metric at different times: only the stored values differ.
  ghost predicate SameMetric(a: ForEach, b: ForEach) {
    a.domain == b.domain && a.zone == b.zone && a.block == b.block && a.name == b.name
    && a.isArray == b.isArray && |a.values| == |b.values|
    && forall n :: 0 <= n < |a.values| ==> a.values[n].labels == b.values[n].labels
  }

  lemma {:induction false} FilterIgnoresValues(lib: RegexLib, a: ForEach, b: ForEach, f: Filter, ty: StatsType, n: nat)
    requires SameMetric(a, b) && n < |a.values|
    ensures FilterHolds(lib, a, f, ty, n) == FilterHolds(lib, b, f, ty, n)
    decreases f
  {
    match f.term
    case Match(_) =>
    case AnySet(fs) =>
      forall k | 0 <= k < |fs| ensures FilterHolds(lib, a, fs[k], ty, n) == FilterHolds(lib, b, fs[k], ty, n) {
        FilterIgnoresValues(lib, a, b, fs[k], ty, n);
      }
    case AllSet(fs) =>
      forall k | 0 <= k < |fs| ensures FilterHolds(lib, a, fs[k], ty, n) == FilterHolds(lib, b, fs[k], ty, n) {
        FilterIgnoresValues(lib, a, b, fs[k], ty, n);
      }
    case NoTerm =>
  }

  // So what a read (without the non-zero restriction) would return does not depend on when it is
  // made: it is the set a clear with the same filter resets.
  lemma SelectionIgnoresValues(lib: RegexLib, a: ForEach, b: ForEach, metricFilter: Option<Filter>, ty: StatsType)
    requires SameMetric(a, b)
    ensures Selected(lib, a, Filters(false, metricFilter), ty) == Selected(lib, b, Filters(false, metricFilter), ty)
  {
    if metricFilter.Some? {
      forall n | n in BitArrays.AllBelow(|a.values|)
        ensures FilterHolds(lib, a, metricFilter.value, ty, n) == FilterHolds(lib, b, metricFilter.value, ty, n)
      {
        FilterIgnoresValues(lib, a, b, metricFilter.value, ty, n);
      }
    }
  }
}
