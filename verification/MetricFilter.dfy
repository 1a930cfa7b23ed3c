// The metric filter evaluator: a tree of any/all/negated terms evaluated into a bit array, reusing
// one scratch array per level and stopping early, against its meaning as a set of element indices.
module MetricFilter {
  import opened Basics
  import opened BitArrays
  import opened StringMatch
  import Arith

  datatype StatsType = Unknown | Counter | Gauge | Flag

  datatype Label = Label(key: string, value: string)

  datatype Value = Value(u64: nat, labels: seq<Label>)

  // One metric as presented to the filter callbacks.
  datatype ForEach = ForEach(domain: string, zone: string, block: string, name: string,
                             isArray: bool, values: seq<Value>)

  datatype Slice = Slice(start: int, end: int, step: int)

  datatype Attribute =
    | TypeIs(ty: StatsType)
    | DomainIs(m: StringMatch)
    | ZoneIs(m: StringMatch)
    | BlockIs(m: StringMatch)
    | NameIs(m: StringMatch)
    | Indices(slices: seq<Slice>)
    | LabelIs(key: Option<StringMatch>, value: Option<StringMatch>)
    | AnyAttribute

  datatype Filter = Filter(term: Term, negated: bool)

  datatype Term = Match(attribute: Attribute) | AnySet(anyOf: seq<Filter>) | AllSet(allOf: seq<Filter>) | NoTerm

  // ---- Meaning ----

  function StepOf(slice: Slice): (step: int)
    ensures step >= 1
  {
    if slice.step < 1 then 1 else slice.step
  }

  function First(slice: Slice, size: nat): (start: int)
    ensures start >= 0
  {
    if slice.start >= 0 then slice.start else if slice.start + size < 0 then 0 else slice.start + size
  }

  function Last(slice: Slice, size: nat): int {
    var end := if slice.end < 0 then slice.end + size else slice.end;
    if end >= size then size - 1 else end
  }

  // A slice selects every step-th index from its first to its last, both included, negative ends
  // counting from the back.
  predicate InSlice(slice: Slice, size: nat, n: int) {
    First(slice, size) <= n <= Last(slice, size) && (n - First(slice, size)) % StepOf(slice) == 0
  }

  predicate LabelHolds(lib: RegexLib, key: Option<StringMatch>, value: Option<StringMatch>, l: Label) {
    (key.Some? ==> Holds(lib, key.value, l.key)) && (value.Some? ==> Holds(lib, value.value, l.value))
  }

  predicate AttributeHolds(lib: RegexLib, spec: ForEach, a: Attribute, ty: StatsType, n: nat)
    requires n < |spec.values|
  {
    match a
    case TypeIs(t) => t == ty
    case DomainIs(m) => Holds(lib, m, spec.domain)
    case ZoneIs(m) => Holds(lib, m, spec.zone)
    case BlockIs(m) => Holds(lib, m, spec.block)
    case NameIs(m) => Holds(lib, m, spec.name)
    case Indices(slices) =>
      if !spec.isArray then slices == []
      else exists k :: 0 <= k < |slices| && InSlice(slices[k], |spec.values|, n)
    case LabelIs(key, value) =>
      exists k :: 0 <= k < |spec.values[n].labels| && LabelHolds(lib, key, value, spec.values[n].labels[k])
    case AnyAttribute => true
  }

  predicate FilterHolds(lib: RegexLib, spec: ForEach, f: Filter, ty: StatsType, n: nat)
    requires n < |spec.values|
    decreases f
  {
    var ok := match f.term
      case Match(a) => AttributeHolds(lib, spec, a, ty, n)
      case AnySet(fs) => fs == [] || exists k :: 0 <= k < |fs| && FilterHolds(lib, spec, fs[k], ty, n)
      case AllSet(fs) => forall k :: 0 <= k < |fs| ==> FilterHolds(lib, spec, fs[k], ty, n)
      case NoTerm => true;
    ok != f.negated
  }

  // The element indices below k a filter selects, and the set it denotes.
  ghost function DenotedBelow(lib: RegexLib, spec: ForEach, f: Filter, ty: StatsType, k: nat): (s: set<nat>)
    requires k <= |spec.values|
    ensures s <= AllBelow(k)
    decreases k
  {
    if k == 0 then {}
    else DenotedBelow(lib, spec, f, ty, k - 1) + if FilterHolds(lib, spec, f, ty, k - 1) then {k - 1} else {}
  }

  ghost function Denoted(lib: RegexLib, spec: ForEach, f: Filter, ty: StatsType): (s: set<nat>)
    ensures s <= AllBelow(|spec.values|)
  {
    DenotedBelow(lib, spec, f, ty, |spec.values|)
  }

  lemma {:induction false} DenotedBelowMember(lib: RegexLib, spec: ForEach, f: Filter, ty: StatsType, k: nat, n: nat)
    requires n < k <= |spec.values|
    ensures n in DenotedBelow(lib, spec, f, ty, k) <==> FilterHolds(lib, spec, f, ty, n)
  {
    if n < k - 1 { DenotedBelowMember(lib, spec, f, ty, k - 1, n); }
  }

  lemma DenotedMember(lib: RegexLib, spec: ForEach, f: Filter, ty: StatsType, n: nat)
    requires n < |spec.values|
    ensures n in Denoted(lib, spec, f, ty) <==> FilterHolds(lib, spec, f, ty, n)
  {
    DenotedBelowMember(lib, spec, f, ty, |spec.values|, n);
  }

  lemma DenotedEqual(lib: RegexLib, spec: ForEach, f: Filter, ty: StatsType, s: set<nat>)
    requires s <= AllBelow(|spec.values|)
    requires forall n :: 0 <= n < |spec.values| ==> (n in s <==> FilterHolds(lib, spec, f, ty, n))
    ensures Denoted(lib, spec, f, ty) == s
  {
    forall n: nat | n < |spec.values| ensures n in Denoted(lib, spec, f, ty) <==> n in s {
      DenotedMember(lib, spec, f, ty, n);
    }
  }

  // The set algebra of the denotation: union, intersection, complement, and the empty member list
  // as a wildcard.
  lemma DenotedNegated(lib: RegexLib, spec: ForEach, f: Filter, ty: StatsType)
    ensures Denoted(lib, spec, f.(negated := !f.negated), ty)
         == AllBelow(|spec.values|) - Denoted(lib, spec, f, ty)
  {
    var g := f.(negated := !f.negated);
    forall n | 0 <= n < |spec.values|
      ensures n in AllBelow(|spec.values|) - Denoted(lib, spec, f, ty) <==> FilterHolds(lib, spec, g, ty, n)
    {
      DenotedMember(lib, spec, f, ty, n);
    }
    DenotedEqual(lib, spec, g, ty, AllBelow(|spec.values|) - Denoted(lib, spec, f, ty));
  }

  ghost function UnionUpTo(lib: RegexLib, spec: ForEach, fs: seq<Filter>, ty: StatsType, k: nat): (s: set<nat>)
    requires k <= |fs|
    ensures s <= AllBelow(|spec.values|)
  {
    if k == 0 then {} else UnionUpTo(lib, spec, fs, ty, k - 1) + Denoted(lib, spec, fs[k - 1], ty)
  }

  ghost function IntersectionUpTo(lib: RegexLib, spec: ForEach, fs: seq<Filter>, ty: StatsType, k: nat)
    : (s: set<nat>)
    requires k <= |fs|
    ensures s <= AllBelow(|spec.values|)
  {
    if k == 0 then AllBelow(|spec.values|)
    else IntersectionUpTo(lib, spec, fs, ty, k - 1) * Denoted(lib, spec, fs[k - 1], ty)
  }

  lemma UnionNext(lib: RegexLib, spec: ForEach, fs: seq<Filter>, ty: StatsType, i: nat)
    requires i < |fs|
    ensures UnionUpTo(lib, spec, fs, ty, i + 1) == UnionUpTo(lib, spec, fs, ty, i) + Denoted(lib, spec, fs[i], ty)
  {
  }

  lemma IntersectionNext(lib: RegexLib, spec: ForEach, fs: seq<Filter>, ty: StatsType, i: nat)
    requires i < |fs|
    ensures IntersectionUpTo(lib, spec, fs, ty, i + 1)
         == IntersectionUpTo(lib, spec, fs, ty, i) * Denoted(lib, spec, fs[i], ty)
  {
  }

  lemma {:induction false} UnionMember(lib: RegexLib, spec: ForEach, fs: seq<Filter>, ty: StatsType, k: nat, n: nat)
    requires k <= |fs| && n < |spec.values|
    ensures n in UnionUpTo(lib, spec, fs, ty, k) <==>
      exists j :: 0 <= j < k && FilterHolds(lib, spec, fs[j], ty, n)
  {
    if k > 0 {
      UnionMember(lib, spec, fs, ty, k - 1, n);
      DenotedMember(lib, spec, fs[k - 1], ty, n);
    }
  }

  lemma {:induction false} IntersectionMember(lib: RegexLib, spec: ForEach, fs: seq<Filter>, ty: StatsType,
                                              k: nat, n: nat)
    requires k <= |fs| && n < |spec.values|
    ensures n in IntersectionUpTo(lib, spec, fs, ty, k) <==>
      forall j :: 0 <= j < k ==> FilterHolds(lib, spec, fs[j], ty, n)
  {
    if k > 0 {
      IntersectionMember(lib, spec, fs, ty, k - 1, n);
      DenotedMember(lib, spec, fs[k - 1], ty, n);
    }
  }

  lemma DenotedAny(lib: RegexLib, spec: ForEach, fs: seq<Filter>, ty: StatsType)
    ensures Denoted(lib, spec, Filter(AnySet(fs), false), ty)
         == if fs == [] then AllBelow(|spec.values|) else UnionUpTo(lib, spec, fs, ty, |fs|)
  {
    var s := if fs == [] then AllBelow(|spec.values|) else UnionUpTo(lib, spec, fs, ty, |fs|);
    forall n | 0 <= n < |spec.values|
      ensures n in s <==> FilterHolds(lib, spec, Filter(AnySet(fs), false), ty, n)
    {
      UnionMember(lib, spec, fs, ty, |fs|, n);
    }
    DenotedEqual(lib, spec, Filter(AnySet(fs), false), ty, s);
  }

  lemma DenotedAll(lib: RegexLib, spec: ForEach, fs: seq<Filter>, ty: StatsType)
    ensures Denoted(lib, spec, Filter(AllSet(fs), false), ty) == IntersectionUpTo(lib, spec, fs, ty, |fs|)
  {
    var s := IntersectionUpTo(lib, spec, fs, ty, |fs|);
    forall n | 0 <= n < |spec.values|
      ensures n in s <==> FilterHolds(lib, spec, Filter(AllSet(fs), false), ty, n)
    {
      IntersectionMember(lib, spec, fs, ty, |fs|, n);
    }
    DenotedEqual(lib, spec, Filter(AllSet(fs), false), ty, s);
  }

  // Once everything (nothing) is selected, further members change nothing.
  lemma {:induction false} UnionSaturates(lib: RegexLib, spec: ForEach, fs: seq<Filter>, ty: StatsType, i: nat, k: nat)
    requires i <= k <= |fs| && UnionUpTo(lib, spec, fs, ty, i) == AllBelow(|spec.values|)
    ensures UnionUpTo(lib, spec, fs, ty, k) == AllBelow(|spec.values|)
    decreases k
  {
    if i < k { UnionSaturates(lib, spec, fs, ty, i, k - 1); }
  }

  lemma {:induction false} IntersectionVanishes(lib: RegexLib, spec: ForEach, fs: seq<Filter>, ty: StatsType,
                                                i: nat, k: nat)
    requires i <= k <= |fs| && IntersectionUpTo(lib, spec, fs, ty, i) == {}
    ensures IntersectionUpTo(lib, spec, fs, ty, k) == {}
    decreases k
  {
    if i < k { IntersectionVanishes(lib, spec, fs, ty, i, k - 1); }
  }

  // ---- Evaluation ----

  lemma ModStep(a: int, step: int)
    requires step >= 1 && a % step == 0
    ensures (a + step) % step == 0
    ensures forall b :: a < b < a + step ==> b % step != 0
  {
    var q := a / step;
    Arith.DivModUnique(a + step, q + 1, 0, step);
    forall b | a <= b < a + step ensures b % step == b - a {
      Arith.DivModUnique(b, q, b - a, step);
    }
  }

  ghost function SliceUpTo(slice: Slice, size: nat, end: int): set<nat> {
    set n | n in AllBelow(size) && n < end && InSlice(slice, size, n)
  }

  lemma SliceNext(slice: Slice, size: nat, start: nat, end: nat, step: nat, n: nat)
    requires start <= n <= end < size && step >= 1 && (n - start) % step == 0
    requires start == First(slice, size) && end == Last(slice, size) && step == StepOf(slice)
    ensures (n + step - start) % step == 0
    ensures SliceUpTo(slice, size, n + step) == SliceUpTo(slice, size, n) + {n}
  {
    ModStep(n - start, step);
    forall i | n < i < n + step ensures !InSlice(slice, size, i) {
      assert (i - start) % step != 0;
    }
  }

  lemma SliceEnds(slice: Slice, size: nat)
    ensures SliceUpTo(slice, size, First(slice, size)) == {}
    ensures First(slice, size) > Last(slice, size) ==> SliceUpTo(slice, size, size) == {}
    ensures forall n :: n > Last(slice, size) ==> SliceUpTo(slice, size, n) == SliceUpTo(slice, size, size)
  {
  }

  // The marking loop, with the ends cut to the array.
  method MarkSlice(slice: Slice, start: nat, end: nat, step: nat, valid: BitArray)
    requires valid.Valid() && start <= end < valid.nbits && step == StepOf(slice)
    requires start == First(slice, valid.nbits) && end == Last(slice, valid.nbits)
    modifies valid.words
    ensures valid.Valid()
    ensures valid.Contents() == old(valid.Contents()) + SliceUpTo(slice, valid.nbits, valid.nbits)
  {
    SliceEnds(slice, valid.nbits);
    hide BitArray.Valid, BitArray.Contents, InSlice, SliceUpTo;
    var n := start;
    while n <= end
      invariant start <= n && (n - start) % step == 0
      invariant valid.Valid()
      invariant valid.Contents() == old(valid.Contents()) + SliceUpTo(slice, valid.nbits, n)
    {
      valid.SetBit(n);
      SliceNext(slice, valid.nbits, start, end, step, n);
      n := n + step;
    }
  }

  // Marks every index of one slice.
  method SetSlice(slice: Slice, valid: BitArray)
    requires valid.Valid()
    modifies valid.words
    ensures valid.Valid()
    ensures valid.Contents() == old(valid.Contents()) + SliceUpTo(slice, valid.nbits, valid.nbits)
  {
    SliceEnds(slice, valid.nbits);
    hide BitArray.Valid, BitArray.Contents, SliceUpTo;
    var size := valid.nbits;
    var start := slice.start;
    if start < 0 {
      start := start + size;
      if start < 0 {
        start := 0;
      }
    }
    if start >= size {
      return;
    }
    var end := slice.end;
    if end < 0 {
      end := end + size;
      if end < 0 {
        return;
      }
    }
    if end >= size {
      end := size - 1;
    }
    if start > end {
      return;
    }
    var step := slice.step;
    if step < 1 {
      step := 1;
    }
    MarkSlice(slice, start, end, step, valid);
  }

  ghost function SlicesUpTo(slices: seq<Slice>, size: nat, k: nat): set<nat>
    requires k <= |slices|
  {
    set n | n in AllBelow(size) && exists j :: 0 <= j < k && InSlice(slices[j], size, n)
  }

  method MatchIndices(lib: RegexLib, slices: seq<Slice>, spec: ForEach, ty: StatsType, valid: BitArray)
    requires valid.Valid() && valid.nbits == |spec.values| && valid.Contents() == {}
    modifies valid.words
    ensures valid.Valid()
    ensures valid.Contents() == Denoted(lib, spec, Filter(Match(Indices(slices)), false), ty)
  {
    if !spec.isArray {
      valid.AssignAll(|slices| < 1);
      DenotedEqual(lib, spec, Filter(Match(Indices(slices)), false), ty, valid.Contents());
      return;
    }
    for k := 0 to |slices|
      invariant valid.Valid()
      invariant valid.Contents() == SlicesUpTo(slices, valid.nbits, k)
    {
      SetSlice(slices[k], valid);
      assert SlicesUpTo(slices, valid.nbits, k + 1)
          == SlicesUpTo(slices, valid.nbits, k) + SliceUpTo(slices[k], valid.nbits, valid.nbits);
    }
    DenotedEqual(lib, spec, Filter(Match(Indices(slices)), false), ty,
                 SlicesUpTo(slices, valid.nbits, |slices|));
  }

  // The inner loop: whether one element carries a label that satisfies both matches.
  method HasLabel(lib: RegexLib, key: Option<StringMatch>, value: Option<StringMatch>, labels: seq<Label>)
    returns (found: bool)
    ensures found <==> exists k :: 0 <= k < |labels| && LabelHolds(lib, key, value, labels[k])
  {
    found := false;
    for k := 0 to |labels|
      invariant !found && forall j :: 0 <= j < k ==> !LabelHolds(lib, key, value, labels[j])
    {
      var keyOk := true;
      if key.Some? {
        keyOk := MatchString(lib, key.value, labels[k].key);
      }
      if !keyOk {
        continue;
      }
      var valueOk := true;
      if value.Some? {
        valueOk := MatchString(lib, value.value, labels[k].value);
      }
      if !valueOk {
        continue;
      }
      assert LabelHolds(lib, key, value, labels[k]);
      found := true;
      break;
    }
  }

  method MatchLabel(lib: RegexLib, key: Option<StringMatch>, value: Option<StringMatch>, spec: ForEach,
                    ty: StatsType, valid: BitArray)
    requires valid.Valid() && valid.nbits == |spec.values| && valid.Contents() == {}
    modifies valid.words
    ensures valid.Valid()
    ensures valid.Contents() == Denoted(lib, spec, Filter(Match(LabelIs(key, value)), false), ty)
  {
    ghost var all := Denoted(lib, spec, Filter(Match(LabelIs(key, value)), false), ty);
    hide BitArray.Valid, BitArray.Contents, Denoted, LabelHolds;
    for n := 0 to |spec.values|
      invariant valid.Valid()
      invariant valid.Contents() == all * AllBelow(n)
    {
      var found := HasLabel(lib, key, value, spec.values[n].labels);
      DenotedMember(lib, spec, Filter(Match(LabelIs(key, value)), false), ty, n);
      if found {
        valid.AssignBit(n, true);
      }
    }
    assert all * AllBelow(|spec.values|) == all;
  }

  method MatchAttribute(lib: RegexLib, spec: ForEach, a: Attribute, ty: StatsType, valid: BitArray)
    requires valid.Valid() && valid.nbits == |spec.values| && valid.Contents() == {}
    modifies valid.words
    ensures valid.Valid()
    ensures valid.Contents() == Denoted(lib, spec, Filter(Match(a), false), ty)
  {
    var ok := false;
    match a {
      case TypeIs(t) => ok := t == ty;
      case DomainIs(m) => ok := MatchString(lib, m, spec.domain);
      case ZoneIs(m) => ok := MatchString(lib, m, spec.zone);
      case BlockIs(m) => ok := MatchString(lib, m, spec.block);
      case NameIs(m) => ok := MatchString(lib, m, spec.name);
      case Indices(slices) =>
        MatchIndices(lib, slices, spec, ty, valid);
        return;
      case LabelIs(key, value) =>
        MatchLabel(lib, key, value, spec, ty, valid);
        return;
      case AnyAttribute => ok := true;
    }
    valid.AssignAll(ok);
    DenotedEqual(lib, spec, Filter(Match(a), false), ty, valid.Contents());
  }

  method ApplyMetricFilter(lib: RegexLib, spec: ForEach, filter: Filter, ty: StatsType, valid: BitArray)
    requires valid.Valid() && valid.nbits == |spec.values| && valid.Contents() == {}
    modifies valid.words
    ensures valid.Valid() && valid.Contents() == Denoted(lib, spec, filter, ty)
    decreases filter
  {
    match filter.term {
      case Match(a) => MatchAttribute(lib, spec, a, ty, valid);
      case AnySet(fs) => ApplyAny(lib, spec, fs, ty, valid);
      case AllSet(fs) => ApplyAll(lib, spec, fs, ty, valid);
      case NoTerm =>
        valid.SetAll();
        DenotedEqual(lib, spec, Filter(NoTerm, false), ty, valid.Contents());
    }
    assert valid.Contents() == Denoted(lib, spec, Filter(filter.term, false), ty);
    if filter.negated {
      valid.NegateAll();
      DenotedNegated(lib, spec, Filter(filter.term, false), ty);
    }
  }

  method ApplyAny(lib: RegexLib, spec: ForEach, fs: seq<Filter>, ty: StatsType, valid: BitArray)
    requires valid.Valid() && valid.nbits == |spec.values| && valid.Contents() == {}
    modifies valid.words
    ensures valid.Valid() && valid.Contents() == Denoted(lib, spec, Filter(AnySet(fs), false), ty)
    decreases fs, 2
  {
    DenotedAny(lib, spec, fs, ty);
    if |fs| < 1 {
      valid.SetAll();
      return;
    }
    var v := new BitArray(valid.nbits);
    AddMembers(lib, spec, fs, ty, valid, v);
  }

  // The members evaluated one by one into the scratch array, and joined.
  method AddMembers(lib: RegexLib, spec: ForEach, fs: seq<Filter>, ty: StatsType, valid: BitArray, v: BitArray)
    requires valid.Valid() && v.Valid() && valid.nbits == v.nbits == |spec.values| && v.words != valid.words
    requires valid.Contents() == {} && v.Contents() == {}
    modifies valid.words, v.words
    ensures valid.Valid() && valid.Contents() == UnionUpTo(lib, spec, fs, ty, |fs|)
    decreases fs, 1
  {
    assert UnionUpTo(lib, spec, fs, ty, 0) == {};
    hide *;
    for i := 0 to |fs|
      invariant valid.Valid() && v.Valid() && v.Contents() == {}
      invariant valid.Contents() == UnionUpTo(lib, spec, fs, ty, i)
    {
      var full := AddMember(lib, spec, fs, ty, i, valid, v);
      if full {
        UnionSaturates(lib, spec, fs, ty, i + 1, |fs|);
        return;
      }
    }
  }

  // One turn: unless everything is selected, the scratch array is cleared for the next member.
  method AddMember(lib: RegexLib, spec: ForEach, fs: seq<Filter>, ty: StatsType, i: nat, valid: BitArray, v: BitArray)
    returns (full: bool)
    requires valid.Valid() && v.Valid() && valid.nbits == v.nbits == |spec.values| && v.words != valid.words
    requires i < |fs| && v.Contents() == {} && valid.Contents() == UnionUpTo(lib, spec, fs, ty, i)
    modifies valid.words, v.words
    ensures valid.Valid() && v.Valid() && valid.Contents() == UnionUpTo(lib, spec, fs, ty, i + 1)
    ensures if full then valid.Contents() == AllBelow(|spec.values|) else v.Contents() == {}
    decreases fs, 0
  {
    UnionNext(lib, spec, fs, ty, i);
    hide *;
    ApplyMetricFilter(lib, spec, fs[i], ty, v);
    valid.OrWith(v);
    full := valid.IsAllSet();
    if full {
      return;
    }
    v.ClearAll();
  }

  method ApplyAll(lib: RegexLib, spec: ForEach, fs: seq<Filter>, ty: StatsType, valid: BitArray)
    requires valid.Valid() && valid.nbits == |spec.values| && valid.Contents() == {}
    modifies valid.words
    ensures valid.Valid() && valid.Contents() == Denoted(lib, spec, Filter(AllSet(fs), false), ty)
    decreases fs, 2
  {
    DenotedAll(lib, spec, fs, ty);
    valid.SetAll();
    if |fs| < 1 {
      return;
    }
    var v := new BitArray(valid.nbits);
    KeepMembers(lib, spec, fs, ty, valid, v);
  }

  // The members evaluated one by one into the scratch array, and what is selected cut down to each.
  method KeepMembers(lib: RegexLib, spec: ForEach, fs: seq<Filter>, ty: StatsType, valid: BitArray, v: BitArray)
    requires valid.Valid() && v.Valid() && valid.nbits == v.nbits == |spec.values| && v.words != valid.words
    requires valid.Contents() == AllBelow(|spec.values|) && v.Contents() == {}
    modifies valid.words, v.words
    ensures valid.Valid() && valid.Contents() == IntersectionUpTo(lib, spec, fs, ty, |fs|)
    decreases fs, 1
  {
    assert IntersectionUpTo(lib, spec, fs, ty, 0) == AllBelow(|spec.values|);
    hide *;
    for i := 0 to |fs|
      invariant valid.Valid() && v.Valid() && v.Contents() == {}
      invariant valid.Contents() == IntersectionUpTo(lib, spec, fs, ty, i)
    {
      var empty := KeepMember(lib, spec, fs, ty, i, valid, v);
      if empty {
        IntersectionVanishes(lib, spec, fs, ty, i + 1, |fs|);
        return;
      }
    }
  }

  // One turn: unless nothing is selected any more, the scratch array is cleared for the next member.
  method KeepMember(lib: RegexLib, spec: ForEach, fs: seq<Filter>, ty: StatsType, i: nat, valid: BitArray, v: BitArray)
    returns (empty: bool)
    requires valid.Valid() && v.Valid() && valid.nbits == v.nbits == |spec.values| && v.words != valid.words
    requires i < |fs| && v.Contents() == {} && valid.Contents() == IntersectionUpTo(lib, spec, fs, ty, i)
    modifies valid.words, v.words
    ensures valid.Valid() && v.Valid() && valid.Contents() == IntersectionUpTo(lib, spec, fs, ty, i + 1)
    ensures if empty then valid.Contents() == {} else v.Contents() == {}
    decreases fs, 0
  {
    IntersectionNext(lib, spec, fs, ty, i);
    hide *;
    ApplyMetricFilter(lib, spec, fs[i], ty, v);
    valid.AndWith(v);
    empty := valid.IsAllCleared();
    if empty {
      return;
    }
    v.ClearAll();
  }

  // ---- Reading with filters ----

  datatype Filters = Filters(nonZero: bool, metricFilter: Option<Filter>)

  // The elements a read with the given filters returns.
  ghost function Selected(lib: RegexLib, spec: ForEach, filters: Filters, ty: StatsType): (s: set<nat>)
    ensures s <= AllBelow(|spec.values|)
  {
    set n | n in AllBelow(|spec.values|)
      && (filters.nonZero ==> spec.values[n].u64 != 0)
      && (filters.metricFilter.Some? ==> FilterHolds(lib, spec, filters.metricFilter.value, ty, n))
  }

  ghost function NonZero(spec: ForEach, nonZero: bool, k: nat): set<nat> {
    set n | n in AllBelow(|spec.values|) && n < k && (nonZero ==> spec.values[n].u64 != 0)
  }

  lemma SelectedSplits(lib: RegexLib, spec: ForEach, filters: Filters, ty: StatsType)
    ensures Selected(lib, spec, filters, ty)
         == if filters.metricFilter.None? then NonZero(spec, filters.nonZero, |spec.values|)
            else NonZero(spec, filters.nonZero, |spec.values|) * Denoted(lib, spec, filters.metricFilter.value, ty)
  {
    if filters.metricFilter.Some? {
      forall n | n in AllBelow(|spec.values|)
        ensures n in Denoted(lib, spec, filters.metricFilter.value, ty)
           <==> FilterHolds(lib, spec, filters.metricFilter.value, ty, n)
      {
        DenotedMember(lib, spec, filters.metricFilter.value, ty, n);
      }
    }
  }

  // The first loop: with the non-zero flag only the elements that are not 0, otherwise every element.
  method AssignNonZero(spec: ForEach, nonZero: bool, valid: BitArray)
    requires valid.Valid() && valid.nbits == |spec.values| && valid.Contents() == {}
    modifies valid.words
    ensures valid.Valid() && valid.Contents() == NonZero(spec, nonZero, |spec.values|)
  {
    hide BitArray.Valid, BitArray.Contents;
    for n := 0 to |spec.values|
      invariant valid.Valid() && valid.Contents() == NonZero(spec, nonZero, n)
    {
      valid.AssignBit(n, !nonZero || spec.values[n].u64 != 0);
    }
  }

  method ApplyFilters(lib: RegexLib, spec: ForEach, filters: Filters, ty: StatsType, valid: BitArray)
    requires valid.Valid() && valid.nbits == |spec.values| && valid.Contents() == {}
    modifies valid.words
    ensures valid.Valid() && valid.Contents() == Selected(lib, spec, filters, ty)
  {
    SelectedSplits(lib, spec, filters, ty);
    AssignNonZero(spec, filters.nonZero, valid);
    hide NonZero, Selected, Denoted, FilterHolds;
    var empty := valid.IsAllCleared();
    if empty {
      return;
    }
    if filters.metricFilter.Some? {
      var v := new BitArray(valid.nbits);
      ApplyMetricFilter(lib, spec, filters.metricFilter.value, ty, v);
      valid.AndWith(v);
    }
  }

  // The response lists the elements of a set below a bound: each once, in index order, with its value.
  ghost predicate Lists(reported: seq<(nat, nat)>, spec: ForEach, sel: set<nat>, bound: nat) {
    && (forall k :: 0 <= k < |reported| ==>
          reported[k].0 < bound && reported[k].0 < |spec.values| && reported[k].0 in sel
          && reported[k].1 == spec.values[reported[k].0].u64)
    && (forall j, k :: 0 <= j < k < |reported| ==> reported[j].0 < reported[k].0)
    && (forall i :: i in sel && i < bound ==> exists k :: 0 <= k < |reported| && reported[k].0 == i)
  }

  lemma ListsNone(spec: ForEach, sel: set<nat>)
    ensures Lists([], spec, sel, 0) && (sel == {} ==> Lists([], spec, sel, |spec.values|))
  {
  }

  lemma ListsNext(reported: seq<(nat, nat)>, spec: ForEach, sel: set<nat>, n: nat)
    requires Lists(reported, spec, sel, n) && n < |spec.values|
    ensures n in sel ==> Lists(reported + [(n, spec.values[n].u64)], spec, sel, n + 1)
    ensures n !in sel ==> Lists(reported, spec, sel, n + 1)
  {
    var next := reported + [(n, spec.values[n].u64)];
    assert next[|reported|].0 == n;
    forall i | i in sel && i < n ensures exists k :: 0 <= k < |next| && next[k].0 == i {
      var k :| 0 <= k < |reported| && reported[k].0 == i;
      assert next[k].0 == i;
    }
  }

  // What a read appends to its response.
  method GetMetric(lib: RegexLib, spec: ForEach, filters: Filters, ty: StatsType)
    returns (reported: seq<(nat, nat)>)
    requires |spec.values| > 0
    ensures Lists(reported, spec, Selected(lib, spec, filters, ty), |spec.values|)
  {
    ListsNone(spec, Selected(lib, spec, filters, ty));
    hide *;
    reported := [];
    var valid := new BitArray(|spec.values|);
    ApplyFilters(lib, spec, filters, ty, valid);
    var empty := valid.IsAllCleared();
    if empty {
      return;
    }
    ghost var sel := Selected(lib, spec, filters, ty);
    for n := 0 to |spec.values|
      invariant valid.Valid() && valid.Contents() == sel
      invariant Lists(reported, spec, sel, n)
    {
      ListsNext(reported, spec, sel, n);
      var isSet := valid.IsBitSet(n);
      if !isSet {
        continue;
      }
      reported := reported + [(n, spec.values[n].u64)];
    }
  }
}
