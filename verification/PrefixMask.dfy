// Prefix masks: a run of ones at the most significant end of a field.
module PrefixMask {
  import opened Bits
  import opened Gmp

  // The mask built for a prefix of length p: (2^p - 1) << (bits - p).
  function Prefix(p: nat, bits: nat): nat
    requires p <= bits
  {
    Shl(Pow2(p) - 1, bits - p)
  }

  ghost predicate IsPrefix(mask: nat, bits: nat) {
    exists p: nat :: p <= bits && mask == Prefix(p, bits)
  }

  // The scan test of the validator: no zero between the lowest one and the top of the field.
  predicate ScanTest(mask: nat, bits: nat) {
    mask == 0 || Scan0(mask, Scan1(mask)) >= bits
  }

  lemma PrefixBit(p: nat, bits: nat, i: nat)
    requires p <= bits
    ensures Bit(Prefix(p, bits), i) == (bits - p <= i < bits)
    ensures Prefix(p, bits) < Pow2(bits)
  {
    BitShifted(Pow2(p) - 1, bits - p, 0, i);
    BitOfZero(i);
    if i >= bits - p { OnesBit(p, i - (bits - p)); }
    ShlBound(Pow2(p) - 1, p, bits - p);
  }

  // A number below 2^bits whose ones are exactly the positions from t up is the prefix mask.
  lemma OnesFromTop(mask: nat, bits: nat, t: nat)
    requires mask < Pow2(bits) && t <= bits
    requires forall i: nat :: i < bits ==> Bit(mask, i) == (t <= i)
    ensures mask == Prefix(bits - t, bits)
  {
    forall i: nat | i < bits ensures Bit(mask, i) == Bit(Prefix(bits - t, bits), i) {
      PrefixBit(bits - t, bits, i);
    }
    PrefixBit(bits - t, bits, 0);
    Extensional(mask, Prefix(bits - t, bits), bits);
  }

  lemma {:induction false} LowBit(n: nat, k: nat, i: nat)
    requires i < k
    ensures Bit(Low(n, k), i) == Bit(n, i)
  {
    if i > 0 { LowBit(n / 2, k - 1, i - 1); }
  }

  // For masks of any width, the scan test accepts exactly those whose bits inside the field form a
  // prefix mask.
  lemma ScanTestExact(mask: nat, bits: nat)
    ensures ScanTest(mask, bits) <==> IsPrefix(Low(mask, bits), bits)
  {
    var low := Low(mask, bits);
    LowBound(mask, bits);
    forall i: nat | i < bits ensures Bit(low, i) == Bit(mask, i) { LowBit(mask, bits, i); }
    if ScanTest(mask, bits) {
      var t := if mask == 0 then bits else if Scan1(mask) <= bits then Scan1(mask) else bits;
      forall i: nat | i < bits ensures Bit(low, i) == (t <= i) {
        BitOfZero(i);
      }
      OnesFromTop(low, bits, t);
    }
    if IsPrefix(low, bits) && mask != 0 {
      var p: nat :| p <= bits && low == Prefix(p, bits);
      var z := Scan0(mask, Scan1(mask));
      if z < bits {
        PrefixBit(p, bits, z);
        PrefixBit(p, bits, Scan1(mask));
        assert false;
      }
    }
  }

  // Together with the width check, the validator accepts exactly the masks the prefix branch builds.
  lemma ValidatorExact(mask: nat, bits: nat)
    requires bits >= 1
    ensures ScanTest(mask, bits) && SizeInBase2(mask) <= bits <==> IsPrefix(mask, bits)
  {
    SizeFits(mask, bits);
    ScanTestExact(mask, bits);
    if mask < Pow2(bits) {
      LowOfSmall(mask, bits);
    }
    if IsPrefix(mask, bits) {
      var p: nat :| p <= bits && mask == Prefix(p, bits);
      PrefixBit(p, bits, 0);
    }
  }

  // Masking with a prefix mask keeps exactly the top p bits of a field value.
  lemma MaskedByPrefix(v: nat, k: nat, p: nat, bits: nat)
    requires p <= bits && v < Pow2(bits) && k < Pow2(bits)
    ensures And(v, Prefix(p, bits)) == And(k, Prefix(p, bits)) <==> Shr(v, bits - p) == Shr(k, bits - p)
  {
    var s := bits - p;
    AndPrefix(v, p, bits);
    AndPrefix(k, p, bits);
    Unsplit(Shr(v, s), 0, s);
    Unsplit(Shr(k, s), 0, s);
  }

  lemma AndPrefix(v: nat, p: nat, bits: nat)
    requires p <= bits && v < Pow2(bits)
    ensures And(v, Prefix(p, bits)) == Shl(Shr(v, bits - p), bits - p)
  {
    var s := bits - p;
    hide And, Shl, Shr, Low, Pow2;
    assert And(Low(v, s), 0) == 0 by { AndBelow(Low(v, s), 0); }
    Split(v, s);
    LowBound(v, s);
    AndShifted(Shr(v, s), Low(v, s), Pow2(p) - 1, 0, s);
    ShrBound(v, p, s);
    AndOnes(Shr(v, s), p);
  }
}
