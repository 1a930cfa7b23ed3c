// Bit-level reading of natural numbers: the multi-precision integers of the rule compiler and the
// 64-bit words of the filter engine's bit arrays are both read through the functions below.
module Bits {

  function Pow2(k: nat): (p: nat)
    ensures p >= 1
  {
    if k == 0 then 1 else 2 * Pow2(k - 1)
  }

  // Bit i of n, counted from the least significant end.
  predicate Bit(n: nat, i: nat) {
    if i == 0 then n % 2 == 1 else Bit(n / 2, i - 1)
  }

  function And(a: nat, b: nat): nat {
    if a == 0 || b == 0 then 0
    else 2 * And(a / 2, b / 2) + if a % 2 == 1 && b % 2 == 1 then 1 else 0
  }

  function Or(a: nat, b: nat): nat {
    if a == 0 then b else if b == 0 then a
    else 2 * Or(a / 2, b / 2) + if a % 2 == 1 || b % 2 == 1 then 1 else 0
  }

  function Xor(a: nat, b: nat): nat {
    if a == 0 then b else if b == 0 then a
    else 2 * Xor(a / 2, b / 2) + if a % 2 != b % 2 then 1 else 0
  }

  lemma {:induction false} Pow2Add(a: nat, b: nat)
    ensures Pow2(a + b) == Pow2(a) * Pow2(b)
  {
    if a > 0 {
      Pow2Add(a - 1, b);
      assert Pow2(a + b) == 2 * (Pow2(a - 1) * Pow2(b)) == (2 * Pow2(a - 1)) * Pow2(b);
    }
  }

  lemma {:induction false} Pow2Monotone(a: nat, b: nat)
    requires a <= b
    ensures Pow2(a) <= Pow2(b)
    ensures a < b ==> 2 * Pow2(a) <= Pow2(b)
    decreases b
  {
    if a < b { Pow2Monotone(a, b - 1); }
  }

  lemma {:induction false} BitOfZero(i: nat)
    ensures !Bit(0, i)
  {
    if i > 0 { BitOfZero(i - 1); }
  }

  lemma {:induction false} BitBound(n: nat, k: nat, i: nat)
    requires n < Pow2(k) && k <= i
    ensures !Bit(n, i)
    decreases k
  {
    if k == 0 { BitOfZero(i); } else { BitBound(n / 2, k - 1, i - 1); }
  }

  // Two numbers that agree on every bit are equal.
  lemma {:induction false} Extensional(a: nat, b: nat, k: nat)
    requires a < Pow2(k) && b < Pow2(k)
    requires forall i: nat :: i < k ==> Bit(a, i) == Bit(b, i)
    ensures a == b
  {
    if k > 0 {
      assert Bit(a, 0) == Bit(b, 0);
      forall i: nat | i < k - 1 ensures Bit(a / 2, i) == Bit(b / 2, i) {
        assert Bit(a, i + 1) == Bit(b, i + 1);
      }
      Extensional(a / 2, b / 2, k - 1);
    }
  }

  lemma {:induction false} AndBit(a: nat, b: nat, i: nat)
    ensures Bit(And(a, b), i) == (Bit(a, i) && Bit(b, i))
  {
    if a == 0 || b == 0 {
      BitOfZero(i);
    } else if i > 0 {
      AndBit(a / 2, b / 2, i - 1);
    }
  }

  lemma {:induction false} OrBit(a: nat, b: nat, i: nat)
    ensures Bit(Or(a, b), i) == (Bit(a, i) || Bit(b, i))
  {
    if a == 0 || b == 0 {
      BitOfZero(i);
    } else if i > 0 {
      OrBit(a / 2, b / 2, i - 1);
    }
  }

  lemma {:induction false} XorBit(a: nat, b: nat, i: nat)
    ensures Bit(Xor(a, b), i) == (Bit(a, i) != Bit(b, i))
  {
    if a == 0 || b == 0 {
      BitOfZero(i);
    } else if i > 0 {
      XorBit(a / 2, b / 2, i - 1);
    }
  }

  lemma {:induction false} OpBounds(a: nat, b: nat, k: nat)
    requires a < Pow2(k) && b < Pow2(k)
    ensures And(a, b) < Pow2(k) && Or(a, b) < Pow2(k) && Xor(a, b) < Pow2(k)
  {
    if k > 0 { OpBounds(a / 2, b / 2, k - 1); }
  }

  lemma {:induction false} AndBelow(a: nat, b: nat)
    ensures And(a, b) <= a && And(a, b) <= b
  {
    if a != 0 && b != 0 { AndBelow(a / 2, b / 2); }
  }

  lemma {:induction false} PowBit(p: nat, i: nat)
    ensures Bit(Pow2(p), i) == (i == p)
  {
    if i == 0 {
    } else if p == 0 {
      BitOfZero(i - 1);
    } else {
      PowBit(p - 1, i - 1);
    }
  }

  // Halving a complement complements the half, and the low bit flips.
  lemma HalveComplement(p: nat, n: nat)
    requires n < 2 * p
    ensures (2 * p - 1 - n) / 2 == p - 1 - n / 2
    ensures (2 * p - 1 - n) % 2 != n % 2
  {
  }

  // Complement within k bits.
  lemma {:induction false} NotBit(n: nat, k: nat, i: nat)
    requires n < Pow2(k) && i < k
    ensures Bit(Pow2(k) - 1 - n, i) == !Bit(n, i)
    decreases k
  {
    HalveComplement(Pow2(k - 1), n);
    if i > 0 { NotBit(n / 2, k - 1, i - 1); }
  }

  // Masking out one bit.
  lemma AndNotBit(x: nat, p: nat, k: nat, i: nat)
    requires p < k && i < k
    ensures Pow2(p) < Pow2(k)
    ensures Bit(And(x, Pow2(k) - 1 - Pow2(p)), i) == (i != p && Bit(x, i))
  {
    Pow2Monotone(p, k);
    AndBit(x, Pow2(k) - 1 - Pow2(p), i);
    NotBit(Pow2(p), k, i);
    PowBit(p, i);
  }

  lemma OnesBit(k: nat, i: nat)
    ensures Bit(Pow2(k) - 1, i) == (i < k)
  {
    if i < k {
      BitOfZero(i);
      NotBit(0, k, i);
    } else {
      BitBound(Pow2(k) - 1, k, i);
    }
  }

  lemma AndOnes(n: nat, k: nat)
    requires n < Pow2(k)
    ensures And(n, Pow2(k) - 1) == n
  {
    OpBounds(n, Pow2(k) - 1, k);
    forall i: nat | i < k ensures Bit(And(n, Pow2(k) - 1), i) == Bit(n, i) {
      AndBit(n, Pow2(k) - 1, i);
      OnesBit(k, i);
    }
    Extensional(And(n, Pow2(k) - 1), n, k);
  }

  // Shift left, shift right and the k lowest bits. Stated by doubling and halving so that every
  // proof about them stays linear; ShlIsMul gives the familiar reading.
  function Shl(n: nat, k: nat): nat {
    if k == 0 then n else 2 * Shl(n, k - 1)
  }

  function Shr(n: nat, k: nat): nat {
    if k == 0 then n else Shr(n / 2, k - 1)
  }

  function Low(n: nat, k: nat): nat {
    if k == 0 then 0 else 2 * Low(n / 2, k - 1) + n % 2
  }

  lemma MulDouble(q: int, p: int)
    ensures q * (2 * p) == 2 * (q * p)
  {
  }

  lemma {:induction false} ShlIsMul(n: nat, k: nat)
    ensures Shl(n, k) == n * Pow2(k)
  {
    if k > 0 {
      ShlIsMul(n, k - 1);
      MulDouble(n, Pow2(k - 1));
    }
  }

  lemma {:induction false} LowBound(n: nat, k: nat)
    ensures Low(n, k) < Pow2(k)
  {
    if k > 0 { LowBound(n / 2, k - 1); }
  }

  lemma {:induction false} LowOfSmall(n: nat, k: nat)
    requires n < Pow2(k)
    ensures Low(n, k) == n && Shr(n, k) == 0
  {
    if k > 0 { LowOfSmall(n / 2, k - 1); }
  }

  lemma {:induction false} ShlAdd(n: nat, a: nat, b: nat)
    ensures Shl(Shl(n, a), b) == Shl(n, a + b)
  {
    if b > 0 { ShlAdd(n, a, b - 1); }
  }

  lemma {:induction false} ShrAdd(n: nat, a: nat, b: nat)
    ensures Shr(Shr(n, a), b) == Shr(n, a + b)
  {
    if a > 0 { ShrAdd(n / 2, a - 1, b); }
  }

  lemma {:induction false} ShlBound(n: nat, a: nat, b: nat)
    requires n < Pow2(a)
    ensures Shl(n, b) + Pow2(b) <= Pow2(a + b)
  {
    if b > 0 { ShlBound(n, a, b - 1); }
  }

  lemma {:induction false} ShlOnes(a: nat, b: nat)
    ensures Shl(Pow2(a) - 1, b) + (Pow2(b) - 1) == Pow2(a + b) - 1
  {
    if b > 0 { ShlOnes(a, b - 1); }
  }

  lemma {:induction false} ShrBound(n: nat, a: nat, b: nat)
    requires n < Pow2(a + b)
    ensures Shr(n, b) < Pow2(a)
    decreases b
  {
    if b > 0 { ShrBound(n / 2, a, b - 1); }
  }

  // A number is its high part above its low part, and the two parts are unique.
  lemma {:induction false} Split(n: nat, k: nat)
    ensures n == Shl(Shr(n, k), k) + Low(n, k)
  {
    if k > 0 { Split(n / 2, k - 1); }
  }

  lemma {:induction false} Unsplit(hi: nat, lo: nat, k: nat)
    requires lo < Pow2(k)
    ensures Shr(Shl(hi, k) + lo, k) == hi
    ensures Low(Shl(hi, k) + lo, k) == lo
  {
    if k > 0 { Unsplit(hi, lo / 2, k - 1); }
  }

  lemma AndOfZero()
    ensures And(0, 0) == 0
  {
  }

  // Halving a value shifted in halves its low part.
  lemma HalveShifted(h: nat, l: nat, k: nat)
    requires k > 0
    ensures (Shl(h, k) + l) / 2 == Shl(h, k - 1) + l / 2 && (Shl(h, k) + l) % 2 == l % 2
  {
    assert Shl(h, k) == 2 * Shl(h, k - 1);
  }

  lemma {:induction false} AndUnfold(a: nat, b: nat)
    ensures And(a, b) == 2 * And(a / 2, b / 2) + if a % 2 == 1 && b % 2 == 1 then 1 else 0
  {
  }

  // Bitwise AND works on the high and the low part separately.
  lemma {:induction false} AndShifted(h1: nat, l1: nat, h2: nat, l2: nat, k: nat)
    requires l1 < Pow2(k) && l2 < Pow2(k)
    ensures And(Shl(h1, k) + l1, Shl(h2, k) + l2) == Shl(And(h1, h2), k) + And(l1, l2)
  {
    hide And;
    AndOfZero();
    if k > 0 {
      AndShifted(h1, l1 / 2, h2, l2 / 2, k - 1);
      HalveShifted(h1, l1, k);
      HalveShifted(h2, l2, k);
      AndUnfold(Shl(h1, k) + l1, Shl(h2, k) + l2);
      AndUnfold(l1, l2);
    }
  }

  // Or-ing a value into freshly shifted-in zeros is addition.
  lemma {:induction false} OrShifted(hi: nat, lo: nat, k: nat)
    requires lo < Pow2(k)
    ensures Or(Shl(hi, k), lo) == Shl(hi, k) + lo
  {
    if k > 0 && lo > 0 && Shl(hi, k) > 0 {
      OrShifted(hi, lo / 2, k - 1);
    }
  }

  lemma {:induction false} BitShifted(hi: nat, k: nat, lo: nat, i: nat)
    requires lo < Pow2(k)
    ensures Bit(Shl(hi, k) + lo, i) == if i < k then Bit(lo, i) else Bit(hi, i - k)
    decreases k
  {
    if k > 0 {
      HalveShifted(hi, lo, k);
      if i > 0 { BitShifted(hi, k - 1, lo / 2, i - 1); }
    }
  }
}
