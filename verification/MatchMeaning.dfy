// What a compiled rule matches, against what the user wrote.
module MatchMeaning {
  import opened Basics
  import opened Bits
  import opened FieldVector
  import opened Gmp
  import opened MatchPack
  import opened Rules
  import PrefixMask

  predicate Masked(key: nat, mask: nat, v: nat) { And(v, mask) == And(key, mask) }

  predicate Between(lower: nat, upper: nat, v: nat) { lower <= v <= upper }

  // The user's reading of one match field, for a field value v.
  predicate UserMatches(m: Match, bits: nat, v: nat) {
    match m
    case KeyMask(key, mask) => Masked(key, mask, v)
    case KeyOnly(key) => v == key
    case PrefixOf(key, p) => p <= bits && Shr(v, bits - p) == Shr(key, bits - p)
    case RangeOf(lower, upper) => Between(lower, upper, v)
    case Ignore => true
    case Unset => false
  }

  // The table's reading of a packed key and mask slice.
  predicate TableMatches(ty: MatchType, key: nat, mask: nat, v: nat) {
    if ty == RangeField then Between(key, mask, v) else Masked(key, mask, v)
  }

  ghost predicate SameField(m: Match, spec: FieldSpec) {
    forall v: nat :: v < Pow2(spec.bits) ==>
      (TableMatches(spec.ty, UserKey(m), UserMask(m, spec), v) <==> UserMatches(m, spec.bits, v))
  }

  // The fields the compiler translates faithfully. A range given for a bit-matched field, or a
  // mask given for a range field, is only right when both ends are the all-ones value; an ignored
  // range field and an exact key on an unused field are never right.
  predicate Honoured(m: Match, spec: FieldSpec) {
    var ones := Pow2(spec.bits) - 1;
    match m
    case KeyMask(key, mask) => spec.ty == RangeField ==> key == mask == ones
    case KeyOnly(_) => spec.ty != Unused
    case PrefixOf(key, p) => spec.ty == RangeField ==> p == spec.bits && key == ones
    case RangeOf(lower, upper) => spec.ty == RangeField || lower == upper == ones
    case Ignore => spec.ty != RangeField
    case Unset => false
  }

  ghost predicate IntervalIsMasked(key: nat, mask: nat, bits: nat) {
    forall v: nat :: v < Pow2(bits) ==> (Between(key, mask, v) <==> Masked(key, mask, v))
  }

  // Reading [key, mask] as an interval and as a masked value select the same field values only in
  // the all-ones case.
  lemma IntervalIsMaskedOnlyAtOnes(key: nat, mask: nat, bits: nat)
    requires key < Pow2(bits) && mask < Pow2(bits)
    ensures IntervalIsMasked(key, mask, bits) <==> key == mask == Pow2(bits) - 1
  {
    if IntervalIsMasked(key, mask, bits) {
      assert Masked(key, mask, key) && Between(key, mask, key);
      assert Between(key, mask, mask) && Masked(key, mask, mask);
      AndSelf(mask);
      AndBelow(key, mask);
      AndOnes(mask, bits);
      AndComm(mask, Pow2(bits) - 1);
      assert Masked(key, mask, Pow2(bits) - 1) && Between(key, mask, Pow2(bits) - 1);
    }
    if key == mask == Pow2(bits) - 1 {
      forall v: nat | v < Pow2(bits) ensures Between(key, mask, v) <==> Masked(key, mask, v) {
        AndOnes(v, bits);
        AndOnes(key, bits);
      }
    }
  }

  lemma {:induction false} AndSelf(n: nat)
    ensures And(n, n) == n
  {
    if n > 0 { AndSelf(n / 2); }
  }

  lemma {:induction false} AndComm(a: nat, b: nat)
    ensures And(a, b) == And(b, a)
  {
    if a != 0 && b != 0 { AndComm(a / 2, b / 2); }
  }

  // Field by field: an accepted field matches what the user wrote, for every value, exactly when
  // it is honoured.
  lemma FieldMeaning(m: Match, spec: FieldSpec)
    requires Verdict(m, spec) == Ok
    ensures SameField(m, spec) <==> Honoured(m, spec)
  {
    hide SameField, Honoured, UserKey, UserMask, MaskAllowed, Pow2;
    match m {
      case KeyMask(_, _) => SwappedMeaning(m, spec);
      case KeyOnly(_) => ExactMeaning(m, spec);
      case PrefixOf(_, _) => PrefixMeaning(m, spec);
      case RangeOf(_, _) => SwappedMeaning(m, spec);
      case Ignore => IgnoreMeaning(m, spec);
      case Unset =>
    }
  }

  lemma IgnoreMeaning(m: Match, spec: FieldSpec)
    requires Verdict(m, spec) == Ok && m.Ignore?
    ensures SameField(m, spec) <==> Honoured(m, spec)
  {
    if spec.ty == RangeField {
      Pow2Monotone(1, spec.bits);
      assert !TableMatches(spec.ty, UserKey(m), UserMask(m, spec), 1) && UserMatches(m, spec.bits, 1);
    } else {
      hide Pow2;
      assert forall v: nat :: And(v, 0) == 0;
    }
  }

  // A mask on a range field, or a range on a masked field.
  lemma SwappedMeaning(m: Match, spec: FieldSpec)
    requires Verdict(m, spec) == Ok && (m.KeyMask? || m.RangeOf?)
    ensures SameField(m, spec) <==> Honoured(m, spec)
  {
    var key, mask, bits := UserKey(m), UserMask(m, spec), spec.bits;
    IntervalIsMaskedOnlyAtOnes(key, mask, bits);
    if m.KeyMask? == (spec.ty == RangeField) {
      forall v: nat
        ensures (TableMatches(spec.ty, key, mask, v) <==> UserMatches(m, bits, v))
           <==> (Between(key, mask, v) <==> Masked(key, mask, v))
      {
      }
      assert SameField(m, spec) <==> IntervalIsMasked(key, mask, bits);
    }
  }

  lemma OnesMaskIsExact(key: nat, bits: nat, v: nat)
    requires key < Pow2(bits) && v < Pow2(bits)
    ensures Masked(key, Pow2(bits) - 1, v) <==> v == key
  {
    AndOnes(v, bits);
    AndOnes(key, bits);
  }

  lemma ExactMeaning(m: Match, spec: FieldSpec)
    requires Verdict(m, spec) == Ok && m.KeyOnly?
    ensures SameField(m, spec) <==> Honoured(m, spec)
  {
    if spec.ty == Unused {
      Pow2Monotone(1, spec.bits);
      var other := if m.key == 0 then 1 else 0;
      assert Masked(m.key, 0, other);
      assert TableMatches(spec.ty, UserKey(m), UserMask(m, spec), other) && !UserMatches(m, spec.bits, other);
    } else {
      forall v: nat | v < Pow2(spec.bits)
        ensures TableMatches(spec.ty, UserKey(m), UserMask(m, spec), v) <==> UserMatches(m, spec.bits, v)
      {
        if spec.ty != RangeField { OnesMaskIsExact(m.key, spec.bits, v); }
      }
    }
  }

  lemma PrefixMeaning(m: Match, spec: FieldSpec)
    requires Verdict(m, spec) == Ok && m.PrefixOf?
    ensures SameField(m, spec) <==> Honoured(m, spec)
  {
    var key, mask, p, bits := UserKey(m), UserMask(m, spec), m.prefixLen, spec.bits;
    forall v: nat | v < Pow2(bits)
      ensures Masked(key, mask, v) <==> UserMatches(m, bits, v)
    {
      PrefixMask.MaskedByPrefix(v, key, p, bits);
    }
    if spec.ty == RangeField {
      assert SameField(m, spec) <==> IntervalIsMasked(key, mask, bits) by {
        assert forall v: nat :: v < Pow2(bits) ==> (Masked(key, mask, v) <==> UserMatches(m, bits, v));
        assert forall v: nat :: TableMatches(spec.ty, key, mask, v) == Between(key, mask, v);
      }
      IntervalIsMaskedOnlyAtOnes(key, mask, bits);
      PrefixIsOnes(p, bits);
    }
  }

  lemma PrefixIsOnes(p: nat, bits: nat)
    requires p <= bits
    ensures PrefixMask.Prefix(p, bits) == Pow2(bits) - 1 <==> p == bits
  {
    if p < bits {
      PrefixMask.PrefixBit(p, bits, 0);
      OnesBit(bits, 0);
    }
  }

  // All fields of a vector of values, in the table's reading and in the user's.
  ghost predicate TableAccepts(matches: seq<Match>, specs: seq<FieldSpec>, vals: seq<nat>)
    requires |matches| == |specs| == |vals|
  {
    forall i :: 0 <= i < |vals| ==>
      TableMatches(specs[i].ty, UserKey(matches[i]), UserMask(matches[i], specs[i]), vals[i])
  }

  ghost predicate UserAccepts(matches: seq<Match>, specs: seq<FieldSpec>, vals: seq<nat>)
    requires |matches| == |specs| == |vals|
  {
    forall i :: 0 <= i < |vals| ==> UserMatches(matches[i], specs[i].bits, vals[i])
  }

  ghost predicate AllHonoured(matches: seq<Match>, specs: seq<FieldSpec>)
    requires |matches| == |specs|
  {
    forall i :: 0 <= i < |matches| ==> Honoured(matches[i], specs[i])
  }

  ghost predicate SameMeaning(matches: seq<Match>, specs: seq<FieldSpec>)
    requires |matches| == |specs|
  {
    forall vals :: Fit(vals, Widths(specs)) ==>
      (TableAccepts(matches, specs, vals) <==> UserAccepts(matches, specs, vals))
  }

  lemma FieldReads(m: Match, spec: FieldSpec, v: nat)
    requires Verdict(m, spec) == Ok && Honoured(m, spec) && v < Pow2(spec.bits)
    ensures TableMatches(spec.ty, UserKey(m), UserMask(m, spec), v) <==> UserMatches(m, spec.bits, v)
  {
    FieldMeaning(m, spec);
  }

  lemma KeyMatchesItself(m: Match, spec: FieldSpec)
    requires Verdict(m, spec) == Ok
    ensures TableMatches(spec.ty, UserKey(m), UserMask(m, spec), UserKey(m))
  {
  }

  // Whole rules: over all packets, the compiled rule means what the user wrote exactly when every
  // field is honoured.
  lemma RuleMeaning(matches: seq<Match>, specs: seq<FieldSpec>)
    requires Accepted(matches, specs)
    ensures SameMeaning(matches, specs) <==> AllHonoured(matches, specs)
  {
    if AllHonoured(matches, specs) {
      forall vals | Fit(vals, Widths(specs))
        ensures TableAccepts(matches, specs, vals) <==> UserAccepts(matches, specs, vals)
      {
        forall i | 0 <= i < |vals|
          ensures TableMatches(specs[i].ty, UserKey(matches[i]), UserMask(matches[i], specs[i]), vals[i])
             <==> UserMatches(matches[i], specs[i].bits, vals[i])
        {
          FieldReads(matches[i], specs[i], vals[i]);
        }
      }
    }
    if SameMeaning(matches, specs) {
      forall i | 0 <= i < |matches| ensures Honoured(matches[i], specs[i]) {
        OneFieldHonoured(matches, specs, i);
      }
    }
  }

  lemma OneFieldHonoured(matches: seq<Match>, specs: seq<FieldSpec>, i: nat)
    requires Accepted(matches, specs) && SameMeaning(matches, specs) && i < |matches|
    ensures Honoured(matches[i], specs[i])
  {
    var m, spec, ks := matches[i], specs[i], Keys(matches);
    AcceptedFits(matches, specs);
    forall j | 0 <= j < |ks|
      ensures TableMatches(specs[j].ty, UserKey(matches[j]), UserMask(matches[j], specs[j]), ks[j])
    {
      KeyMatchesItself(matches[j], specs[j]);
    }
    assert TableAccepts(matches, specs, ks);
    assert UserAccepts(matches, specs, ks);
    forall v: nat | v < Pow2(spec.bits)
      ensures TableMatches(spec.ty, UserKey(m), UserMask(m, spec), v) <==> UserMatches(m, spec.bits, v)
    {
      var vals := ks[i := v];
      assert Fit(vals, Widths(specs));
      assert vals[i] == v && forall j :: 0 <= j < |ks| && j != i ==> vals[j] == ks[j];
      assert TableAccepts(matches, specs, vals) <==> UserAccepts(matches, specs, vals);
    }
    FieldMeaning(m, spec);
  }

  // The match on whole keys: with no range fields, comparing a packet's packed key under the packed
  // mask is the field-by-field table match.
  lemma WholeKeyMatch(matches: seq<Match>, specs: seq<FieldSpec>, packet: nat)
    requires Accepted(matches, specs) && packet < Pow2(Total(Widths(specs)))
    requires forall i :: 0 <= i < |specs| ==> specs[i].ty != RangeField
    ensures And(packet, PackedMask(matches, specs)) == And(PackedKey(matches, specs), PackedMask(matches, specs))
       <==> TableAccepts(matches, specs, Fields(packet, Widths(specs)))
  {
    var vals := Fields(packet, Widths(specs));
    AcceptedFits(matches, specs);
    JoinOfFields(packet, Widths(specs));
    MaskedJoin(vals, Keys(matches), Masks(matches, specs), Widths(specs));
  }

  // The match on the exported bytes, read as whole numbers.
  predicate BytesMatch(key: seq<Byte>, mask: seq<Byte>, packet: nat) {
    And(packet, FromBytes(mask)) == And(FromBytes(key), FromBytes(mask))
  }

  ghost predicate BytesMeanTheRule(matches: seq<Match>, specs: seq<FieldSpec>, key: seq<Byte>, mask: seq<Byte>)
    requires |matches| == |specs|
  {
    forall packet: nat :: packet < Pow2(Total(Widths(specs))) ==>
      (BytesMatch(key, mask, packet) <==> UserAccepts(matches, specs, Fields(packet, Widths(specs))))
  }

  // Compilation preserves meaning: over all packets, the exported bytes match exactly the packets
  // whose every field satisfies what the user wrote, if and only if every field is honoured.
  lemma CompiledRuleMatchesUserRule(matches: seq<Match>, specs: seq<FieldSpec>, keyBits: nat,
                                    key: seq<Byte>, mask: seq<Byte>)
    requires |matches| == |specs| && MatchesVerdict(matches, specs, keyBits) == Ok
    requires FromBytes(key) == PackedKey(matches, specs)
    requires FromBytes(mask) == PackedMask(matches, specs)
    requires forall i :: 0 <= i < |specs| ==> specs[i].ty != RangeField
    ensures BytesMeanTheRule(matches, specs, key, mask) <==> AllHonoured(matches, specs)
  {
    FieldsVerdictOk(matches, specs);
    RuleMeaning(matches, specs);
    var widths := Widths(specs);
    if AllHonoured(matches, specs) {
      forall packet: nat | packet < Pow2(Total(widths))
        ensures BytesMatch(key, mask, packet) <==> UserAccepts(matches, specs, Fields(packet, widths))
      {
        WholeKeyMatch(matches, specs, packet);
        JoinOfFields(packet, widths);
      }
    }
    if BytesMeanTheRule(matches, specs, key, mask) {
      forall vals | Fit(vals, widths)
        ensures TableAccepts(matches, specs, vals) <==> UserAccepts(matches, specs, vals)
      {
        JoinBound(vals, widths);
        FieldsOfJoin(vals, widths);
        WholeKeyMatch(matches, specs, Join(vals, widths));
        assert BytesMatch(key, mask, Join(vals, widths)) <==> UserAccepts(matches, specs, vals);
      }
      assert SameMeaning(matches, specs);
    }
  }

  // A range written for a ternary field is accepted and compiled, but not to that range.
  lemma RangeOnTernaryIsNotARange()
    ensures Verdict(RangeOf(1, 3), FieldSpec(Ternary, 2)) == Ok
    ensures UserMatches(RangeOf(1, 3), 2, 2)
    ensures !TableMatches(Ternary, UserKey(RangeOf(1, 3)), UserMask(RangeOf(1, 3), FieldSpec(Ternary, 2)), 2)
  {
    assert Pow2(2) == 4;
    assert And(2, 3) == 2 && And(1, 3) == 1;
  }
}
