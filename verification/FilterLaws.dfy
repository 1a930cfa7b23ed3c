// What the filters of a client select, in the client's terms: index slices, and the attributes that
// tell metrics and elements apart.
module FilterLaws {
  import opened Basics
  import opened BitArrays
  import opened MetricFilter
  import opened StringMatch
  import Arith

  // The elements a list of slices selects.
  ghost function Picks(lib: RegexLib, spec: ForEach, slices: seq<Slice>, ty: StatsType): (s: set<nat>)
    ensures s <= AllBelow(|spec.values|)
  {
    Denoted(lib, spec, Filter(Match(Indices(slices)), false), ty)
  }

  lemma PicksSlice(lib: RegexLib, spec: ForEach, slice: Slice, ty: StatsType, n: nat)
    requires spec.isArray && n < |spec.values|
    ensures n in Picks(lib, spec, [slice], ty) <==> InSlice(slice, |spec.values|, n)
  {
    DenotedMember(lib, spec, Filter(Match(Indices([slice])), false), ty, n);
    assert [slice][0] == slice;
  }

  // Two slices that select the same indices one by one select the same elements.
  lemma SamePicks(lib: RegexLib, spec: ForEach, a: Slice, b: Slice, ty: StatsType)
    requires spec.isArray
    requires forall n: nat :: n < |spec.values| ==> (InSlice(a, |spec.values|, n) <==> InSlice(b, |spec.values|, n))
    ensures Picks(lib, spec, [a], ty) == Picks(lib, spec, [b], ty)
  {
    hide InSlice, Picks;
    forall n: nat | n < |spec.values| ensures n in Picks(lib, spec, [a], ty) <==> n in Picks(lib, spec, [b], ty) {
      PicksSlice(lib, spec, a, ty, n);
      PicksSlice(lib, spec, b, ty, n);
    }
  }

  // Both ends inside the array: every step-th index from the first, up to and including the last.
  lemma SliceForward(lib: RegexLib, spec: ForEach, a: nat, b: nat, step: nat, ty: StatsType, n: nat)
    requires spec.isArray && a <= b < |spec.values| && step >= 1 && n < |spec.values|
    ensures n in Picks(lib, spec, [Slice(a, b, step)], ty) <==> exists i: nat :: n == a + i * step && n <= b
  {
    PicksSlice(lib, spec, Slice(a, b, step), ty, n);
    hide Picks;
    if InSlice(Slice(a, b, step), |spec.values|, n) {
      var i := (n - a) / step;
      Multiple(n - a, step);
      assert n == a + i * step;
    }
    if i: nat :| n == a + i * step && n <= b {
      Arith.DivModUnique(n - a, i, 0, step);
    }
  }

  lemma Multiple(d: nat, step: nat)
    requires step >= 1 && d % step == 0
    ensures d == (d / step) * step
  {
  }

  // A negative end counts from the back: it is the same as that end plus the size.
  lemma EndFromBack(lib: RegexLib, spec: ForEach, a: int, e: int, step: int, ty: StatsType)
    requires spec.isArray && -|spec.values| <= e < 0
    ensures Picks(lib, spec, [Slice(a, e, step)], ty) == Picks(lib, spec, [Slice(a, e + |spec.values|, step)], ty)
  {
    SamePicks(lib, spec, Slice(a, e, step), Slice(a, e + |spec.values|, step), ty);
  }

  lemma StartFromBack(lib: RegexLib, spec: ForEach, a: int, e: int, step: int, ty: StatsType)
    requires spec.isArray && -|spec.values| <= a < 0
    ensures Picks(lib, spec, [Slice(a, e, step)], ty) == Picks(lib, spec, [Slice(a + |spec.values|, e, step)], ty)
  {
    SamePicks(lib, spec, Slice(a, e, step), Slice(a + |spec.values|, e, step), ty);
  }

  // Ends beyond the array: a start before it means index 0, an end behind it the last index.
  lemma EndsBeyond(lib: RegexLib, spec: ForEach, a: int, e: int, step: int, ty: StatsType)
    requires spec.isArray
    ensures a < -|spec.values| ==>
      Picks(lib, spec, [Slice(a, e, step)], ty) == Picks(lib, spec, [Slice(0, e, step)], ty)
    ensures e >= |spec.values| ==>
      Picks(lib, spec, [Slice(a, e, step)], ty) == Picks(lib, spec, [Slice(a, -1, step)], ty)
  {
    if a < -|spec.values| { SamePicks(lib, spec, Slice(a, e, step), Slice(0, e, step), ty); }
    if e >= |spec.values| { SamePicks(lib, spec, Slice(a, e, step), Slice(a, -1, step), ty); }
  }

  // Nothing is selected from behind the array, up to before it, or from an index behind the last.
  lemma EmptySlices(lib: RegexLib, spec: ForEach, a: int, e: int, step: int, ty: StatsType)
    requires spec.isArray
    requires a >= |spec.values| || e < -|spec.values| || 0 <= e < a
    ensures Picks(lib, spec, [Slice(a, e, step)], ty) == {}
  {
    hide Picks;
    forall n: nat | n < |spec.values| ensures n !in Picks(lib, spec, [Slice(a, e, step)], ty) {
      PicksSlice(lib, spec, Slice(a, e, step), ty, n);
    }
  }

  // A step of 0 (or less) is a step of 1.
  lemma StepZero(lib: RegexLib, spec: ForEach, a: int, e: int, step: int, ty: StatsType)
    requires spec.isArray && step <= 0
    ensures Picks(lib, spec, [Slice(a, e, step)], ty) == Picks(lib, spec, [Slice(a, e, 1)], ty)
  {
    SamePicks(lib, spec, Slice(a, e, step), Slice(a, e, 1), ty);
  }

  // From 0 to -1 is everything, from -1 to -1 the last element.
  lemma WholeAndLast(lib: RegexLib, spec: ForEach, step: int, ty: StatsType)
    requires spec.isArray && |spec.values| > 0
    ensures Picks(lib, spec, [Slice(0, -1, 1)], ty) == AllBelow(|spec.values|)
    ensures Picks(lib, spec, [Slice(-1, -1, step)], ty) == {|spec.values| - 1}
  {
    hide Picks;
    forall n: nat | n < |spec.values|
      ensures n in Picks(lib, spec, [Slice(0, -1, 1)], ty)
      ensures n in Picks(lib, spec, [Slice(-1, -1, step)], ty) <==> n == |spec.values| - 1
    {
      PicksSlice(lib, spec, Slice(0, -1, 1), ty, n);
      PicksSlice(lib, spec, Slice(-1, -1, step), ty, n);
    }
  }

  // Several slices select the union; no slice selects no element of an array.
  lemma SlicesUnite(lib: RegexLib, spec: ForEach, a: seq<Slice>, b: seq<Slice>, ty: StatsType)
    requires spec.isArray
    ensures Picks(lib, spec, a + b, ty) == Picks(lib, spec, a, ty) + Picks(lib, spec, b, ty)
    ensures Picks(lib, spec, [], ty) == {}
  {
    hide InSlice;
    forall n: nat | n < |spec.values|
      ensures n in Picks(lib, spec, a + b, ty) <==> n in Picks(lib, spec, a, ty) || n in Picks(lib, spec, b, ty)
      ensures n !in Picks(lib, spec, [], ty)
    {
      DenotedMember(lib, spec, Filter(Match(Indices(a)), false), ty, n);
      DenotedMember(lib, spec, Filter(Match(Indices(b)), false), ty, n);
      DenotedMember(lib, spec, Filter(Match(Indices(a + b)), false), ty, n);
      DenotedMember(lib, spec, Filter(Match(Indices([])), false), ty, n);
      hide Denoted;
      forall k | 0 <= k < |a| ensures (a + b)[k] == a[k] { }
      forall k | 0 <= k < |b| ensures (a + b)[|a| + k] == b[k] { }
    }
  }

  // A metric that is no array is selected by the empty list only.
  lemma Singleton(lib: RegexLib, spec: ForEach, slices: seq<Slice>, ty: StatsType)
    requires !spec.isArray
    ensures Picks(lib, spec, slices, ty) == if slices == [] then AllBelow(|spec.values|) else {}
  {
    forall n: nat | n < |spec.values| ensures n in Picks(lib, spec, slices, ty) <==> slices == [] {
      DenotedMember(lib, spec, Filter(Match(Indices(slices)), false), ty, n);
    }
  }

  // ---- Attributes ----

  predicate Selects(lib: RegexLib, spec: ForEach, a: Attribute, ty: StatsType, n: nat)
    requires n < |spec.values|
  {
    FilterHolds(lib, spec, Filter(Match(a), false), ty, n)
  }

  // Each attribute looks at its own part of a metric's scope.
  lemma ScopeByName(lib: RegexLib, spec: ForEach, name: string, t: StatsType, ty: StatsType, n: nat)
    requires n < |spec.values|
    ensures Selects(lib, spec, DomainIs(Exact(name)), ty, n) <==> spec.domain == name
    ensures Selects(lib, spec, ZoneIs(Exact(name)), ty, n) <==> spec.zone == name
    ensures Selects(lib, spec, BlockIs(Exact(name)), ty, n) <==> spec.block == name
    ensures Selects(lib, spec, NameIs(Exact(name)), ty, n) <==> spec.name == name
    ensures Selects(lib, spec, TypeIs(t), ty, n) <==> ty == t
    ensures Selects(lib, spec, AnyAttribute, ty, n) && FilterHolds(lib, spec, Filter(NoTerm, false), ty, n)
  {
  }

  // And at nothing else: metrics that differ in one part only are told apart by no other attribute.
  lemma SeesOnlyItsPart(lib: RegexLib, spec: ForEach, a: Attribute, other: string, otherType: StatsType,
                        ty: StatsType, n: nat)
    requires n < |spec.values|
    ensures !a.DomainIs? ==> Selects(lib, spec.(domain := other), a, ty, n) == Selects(lib, spec, a, ty, n)
    ensures !a.ZoneIs? ==> Selects(lib, spec.(zone := other), a, ty, n) == Selects(lib, spec, a, ty, n)
    ensures !a.BlockIs? ==> Selects(lib, spec.(block := other), a, ty, n) == Selects(lib, spec, a, ty, n)
    ensures !a.NameIs? ==> Selects(lib, spec.(name := other), a, ty, n) == Selects(lib, spec, a, ty, n)
    ensures !a.TypeIs? ==> Selects(lib, spec, a, otherType, n) == Selects(lib, spec, a, ty, n)
    ensures !a.Indices? ==> Selects(lib, spec.(isArray := !spec.isArray), a, ty, n) == Selects(lib, spec, a, ty, n)
  {
    hide Selects;
    SamePart(lib, spec, spec.(domain := other), a, ty, ty, n);
    SamePart(lib, spec, spec.(zone := other), a, ty, ty, n);
    SamePart(lib, spec, spec.(block := other), a, ty, ty, n);
    SamePart(lib, spec, spec.(name := other), a, ty, ty, n);
    SamePart(lib, spec, spec, a, ty, otherType, n);
    SamePart(lib, spec, spec.(isArray := !spec.isArray), a, ty, ty, n);
  }

  lemma SamePart(lib: RegexLib, s: ForEach, t: ForEach, a: Attribute, sty: StatsType, tty: StatsType, n: nat)
    requires n < |s.values| && s.values == t.values
    ensures (a.DomainIs? ==> s.domain == t.domain) && (a.ZoneIs? ==> s.zone == t.zone)
            && (a.BlockIs? ==> s.block == t.block) && (a.NameIs? ==> s.name == t.name)
            && (a.TypeIs? ==> sty == tty) && (a.Indices? ==> s.isArray == t.isArray) ==>
      Selects(lib, s, a, sty, n) == Selects(lib, t, a, tty, n)
  {
    hide LabelHolds, InSlice, Holds;
  }

  // A label match looks for one label with both parts; a part left out matches any.
  lemma LabelByName(lib: RegexLib, spec: ForEach, key: string, value: string, ty: StatsType, n: nat)
    requires n < |spec.values|
    ensures var labels := spec.values[n].labels;
      && (Selects(lib, spec, LabelIs(Some(Exact(key)), Some(Exact(value))), ty, n) <==> Label(key, value) in labels)
      && (Selects(lib, spec, LabelIs(Some(Exact(key)), None), ty, n) <==> exists v :: Label(key, v) in labels)
      && (Selects(lib, spec, LabelIs(None, Some(Exact(value))), ty, n) <==> exists k :: Label(k, value) in labels)
      && (Selects(lib, spec, LabelIs(None, None), ty, n) <==> labels != [])
  {
    var labels := spec.values[n].labels;
    hide AttributeHolds;
    LabelFound(lib, spec, Some(Exact(key)), Some(Exact(value)), ty, n);
    LabelFound(lib, spec, Some(Exact(key)), None, ty, n);
    LabelFound(lib, spec, None, Some(Exact(value)), ty, n);
    LabelFound(lib, spec, None, None, ty, n);
    assert forall l :: l in labels ==> l == Label(l.key, l.value);
    assert labels != [] ==> labels[0] in labels;
  }

  lemma LabelFound(lib: RegexLib, spec: ForEach, key: Option<StringMatch>, value: Option<StringMatch>,
                   ty: StatsType, n: nat)
    requires n < |spec.values|
    ensures Selects(lib, spec, LabelIs(key, value), ty, n) <==>
      exists l :: l in spec.values[n].labels && LabelHolds(lib, key, value, l)
  {
  }

  // ---- What a read reports ----

  // With the non-zero restriction no 0 is reported; without a filter every value that is not 0 is, and
  // without either everything is.
  lemma ReportedValues(lib: RegexLib, spec: ForEach, filters: Filters, ty: StatsType, reported: seq<(nat, nat)>)
    requires Lists(reported, spec, Selected(lib, spec, filters, ty), |spec.values|)
    ensures filters.nonZero ==> forall k :: 0 <= k < |reported| ==> reported[k].1 != 0
    ensures filters.metricFilter.None? ==> forall i: nat ::
      i < |spec.values| && (spec.values[i].u64 != 0 || !filters.nonZero) ==>
      (i, spec.values[i].u64) in reported
  {
    hide FilterHolds;
    forall k | 0 <= k < |reported| && filters.nonZero ensures reported[k].1 != 0 {
      assert reported[k].0 in Selected(lib, spec, filters, ty);
    }
    if filters.metricFilter.None? {
      forall i: nat | i < |spec.values| && (spec.values[i].u64 != 0 || !filters.nonZero)
        ensures (i, spec.values[i].u64) in reported
      {
        assert i in Selected(lib, spec, filters, ty);
        var k :| 0 <= k < |reported| && reported[k].0 == i;
        assert reported[k] == (reported[k].0, reported[k].1) == (i, spec.values[i].u64);
      }
    }
  }
}
