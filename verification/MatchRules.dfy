// What the compiler accepts for each type of field, and what it answers otherwise, in terms of the
// values a user writes.
module MatchRules {
  import opened Bits
  import opened Gmp
  import opened MatchPack
  import opened Rules
  import PrefixMask

  // The q lowest bits of the field are not compared, all others are.
  ghost predicate LeadingBits(mask: nat, bits: nat) {
    exists q: nat :: q <= bits && mask == Pow2(bits) - Pow2(q)
  }

  // A one with a zero above it, inside the field.
  ghost predicate HasGap(mask: nat, bits: nat) {
    exists i: nat, j: nat :: i < j < bits && Bit(mask, i) && !Bit(mask, j)
  }

  lemma PrefixValue(p: nat, bits: nat)
    requires p <= bits
    ensures PrefixMask.Prefix(p, bits) == Pow2(bits) - Pow2(bits - p)
  {
    ShlOnes(p, bits - p);
  }

  lemma LeadingBitsArePrefix(mask: nat, bits: nat)
    ensures PrefixMask.IsPrefix(mask, bits) <==> LeadingBits(mask, bits)
  {
    hide Pow2, PrefixMask.Prefix;
    if PrefixMask.IsPrefix(mask, bits) {
      var p: nat :| p <= bits && mask == PrefixMask.Prefix(p, bits);
      PrefixValue(p, bits);
      assert mask == Pow2(bits) - Pow2(bits - p);
    }
    if LeadingBits(mask, bits) {
      var q: nat :| q <= bits && mask == Pow2(bits) - Pow2(q);
      PrefixValue(bits - q, bits);
    }
  }

  // The masks each type takes with a key that fits: a bit field is compared in full or not at all, a
  // constant always in full, a prefix field by its leading bits; a range is a range inside the field,
  // and an unused field is not compared.
  lemma AcceptedMasks(key: nat, mask: nat, bits: nat)
    requires bits >= 1
    ensures var m := KeyMask(key, mask);
      && (Verdict(m, FieldSpec(Bitfield, bits)) == Ok <==> key < Pow2(bits) && (mask == 0 || mask == Pow2(bits) - 1))
      && (Verdict(m, FieldSpec(Constant, bits)) == Ok <==> key < Pow2(bits) && mask == Pow2(bits) - 1)
      && (Verdict(m, FieldSpec(PrefixField, bits)) == Ok <==> key < Pow2(bits) && LeadingBits(mask, bits))
      && (Verdict(m, FieldSpec(RangeField, bits)) == Ok <==> key <= mask < Pow2(bits))
      && (Verdict(m, FieldSpec(Ternary, bits)) == Ok <==> key < Pow2(bits) && mask < Pow2(bits))
      && (Verdict(m, FieldSpec(Unused, bits)) == Ok <==> key < Pow2(bits) && mask == 0)
      && Verdict(m, FieldSpec(Invalid, bits)) != Ok
  {
    hide Pow2, LeadingBits, PrefixMask.IsPrefix;
    LeadingBitsArePrefix(mask, bits);
    LeadingBitsBelow(mask, bits);
    if mask < Pow2(bits) { LowOfSmall(mask, bits); }
  }

  lemma LeadingBitsBelow(mask: nat, bits: nat)
    ensures LeadingBits(mask, bits) ==> mask < Pow2(bits)
  {
  }

  // The status each type gives a mask it does not take, and no other.
  lemma RejectedMasks(key: nat, mask: nat, bits: nat)
    ensures var m := KeyMask(key, mask);
      && (Verdict(m, FieldSpec(Bitfield, bits)) == MatchInvalidBitfieldMask <==> mask != 0 && mask != Pow2(bits) - 1)
      && (Verdict(m, FieldSpec(Constant, bits)) == MatchInvalidConstantMask <==> mask != Pow2(bits) - 1)
      && (Verdict(m, FieldSpec(PrefixField, bits)) == MatchInvalidPrefixMask <==> HasGap(mask, bits))
      && (Verdict(m, FieldSpec(RangeField, bits)) == MatchInvalidRangeMask <==> mask < key)
      && (Verdict(m, FieldSpec(Unused, bits)) == MatchInvalidUnusedMask <==> mask != 0)
      && Verdict(m, FieldSpec(Invalid, bits)) == FieldSpecUnknownType
  {
    hide Pow2, HasGap, PrefixMask.IsPrefix, PrefixMask.ScanTest, Low, Bit;
    PrefixMask.ScanTestExact(mask, bits);
    GapExact(mask, bits);
  }

  lemma GapExact(mask: nat, bits: nat)
    ensures HasGap(mask, bits) <==> !PrefixMask.ScanTest(mask, bits)
  {
    if mask == 0 {
      forall i: nat ensures !Bit(mask, i) { BitOfZero(i); }
    } else {
      var low := Scan1(mask);
      var zero := Scan0(mask, low);
      if zero < bits { assert Bit(mask, low) && !Bit(mask, zero); }
    }
  }

  // What is wrong with the sizes of a mask the type takes: the key is looked at before the mask.
  lemma RejectedSizes(key: nat, mask: nat, spec: FieldSpec)
    requires spec.bits >= 1
    requires Verdict(KeyMask(key, mask), spec) in {Ok, MatchKeyTooBig, MatchMaskTooBig}
    ensures Verdict(KeyMask(key, mask), spec) ==
      if key >= Pow2(spec.bits) then MatchKeyTooBig else if mask >= Pow2(spec.bits) then MatchMaskTooBig else Ok
  {
  }

  // The statuses there are: one for the mask by type, or one for a size.
  lemma VerdictsOfMask(key: nat, mask: nat, spec: FieldSpec)
    ensures Verdict(KeyMask(key, mask), spec) in
      {Ok, MatchKeyTooBig, MatchMaskTooBig}
      + (match spec.ty
         case Bitfield => {MatchInvalidBitfieldMask}
         case Constant => {MatchInvalidConstantMask}
         case PrefixField => {MatchInvalidPrefixMask}
         case RangeField => {MatchInvalidRangeMask}
         case Ternary => {}
         case Unused => {MatchInvalidUnusedMask}
         case Invalid => {FieldSpecUnknownType})
  {
  }

  // Every other way to write a match is answered like a key and a mask: an exact key like the mask of
  // all ones (a one-value range, no mask on an unused field), a range like its ends, a wildcard like no
  // key and no mask, and a prefix like its leading bits (PrefixEncoding). What cannot be written that way
  // is refused.
  lemma OtherEncodings(k: nat, other: nat, spec: FieldSpec)
    ensures Verdict(KeyOnly(k), spec)
         == Verdict(KeyMask(k, if spec.ty == RangeField then k else if spec.ty == Unused then 0
                               else Pow2(spec.bits) - 1), spec)
    ensures other > spec.bits ==> Verdict(PrefixOf(k, other), spec) == MatchMaskTooWide
    ensures Verdict(RangeOf(k, other), spec) == Verdict(KeyMask(k, other), spec)
    ensures Verdict(Ignore, spec) == Verdict(KeyMask(0, 0), spec)
    ensures Verdict(Unset, spec) == MatchInvalidFormat
  {
    hide Pow2, MaskAllowed;
  }

  lemma PrefixEncoding(k: nat, p: nat, mask: nat, spec: FieldSpec)
    requires p <= spec.bits && mask == Pow2(spec.bits) - Pow2(spec.bits - p)
    ensures Verdict(PrefixOf(k, p), spec) == Verdict(KeyMask(k, mask), spec)
  {
    hide Pow2, MaskAllowed, MaskError, PrefixMask.Prefix;
    PrefixValue(p, spec.bits);
    assert UserMask(PrefixOf(k, p), spec) == mask;
  }
}
