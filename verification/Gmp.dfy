// The GMP operations the rule compiler calls, over naturals: bit counting and scanning, and the
// big-endian byte export.
module Gmp {
  import opened Basics
  import opened Bits

  // mpz_sizeinbase(n, 2): one digit for 0.
  function SizeInBase2(n: nat): (k: nat)
    ensures k >= 1
  {
    if n < 2 then 1 else 1 + SizeInBase2(n / 2)
  }

  // mpz_scan1(n, 0): position of the lowest one bit.
  function Scan1(n: nat): (p: nat)
    requires n > 0
    ensures Bit(n, p) && forall i: nat :: i < p ==> !Bit(n, i)
    ensures Shl(Shr(n, p), p) == n
  {
    if n % 2 == 1 then 0
    else
      var q := Scan1(n / 2);
      assert forall i: nat :: 0 < i ==> Bit(n, i) == Bit(n / 2, i - 1);
      q + 1
  }

  // The number of consecutive ones at the least significant end.
  function TrailingOnes(n: nat): (k: nat)
    ensures !Bit(n, k) && forall i: nat :: i < k ==> Bit(n, i)
  {
    if n % 2 == 0 then 0
    else
      var q := TrailingOnes(n / 2);
      assert forall i: nat :: 0 < i ==> Bit(n, i) == Bit(n / 2, i - 1);
      q + 1
  }

  // mpz_scan0(n, start): position of the lowest zero bit at or above start.
  function Scan0(n: nat, start: nat): (p: nat)
    ensures p >= start && !Bit(n, p) && forall i: nat :: start <= i < p ==> Bit(n, i)
  {
    var q := TrailingOnes(Shr(n, start));
    BitShr(n, start);
    start + q
  }

  lemma {:induction false} BitShr(n: nat, k: nat)
    ensures forall i: nat :: i >= k ==> Bit(n, i) == Bit(Shr(n, k), i - k)
  {
    if k > 0 {
      BitShr(n / 2, k - 1);
      forall i: nat | i >= k ensures Bit(n, i) == Bit(Shr(n, k), i - k) {
        assert Bit(n, i) == Bit(n / 2, i - 1);
        assert i - k == (i - 1) - (k - 1);
      }
    }
  }

  // The width tests of the compiler compare a digit count with a field width.
  lemma {:induction false} SizeFits(n: nat, k: nat)
    ensures SizeInBase2(n) <= k <==> k >= 1 && n < Pow2(k)
  {
    if k == 0 {
    } else if n < 2 {
      Pow2Monotone(1, k);
    } else if k == 1 {
    } else {
      SizeFits(n / 2, k - 1);
    }
  }

  // mpz_export with most significant byte first; nothing is written for 0.
  function Export(n: nat): seq<Byte> {
    if n == 0 then [] else Export(n / 256) + [n % 256]
  }

  // The number a big-endian byte string stands for.
  function FromBytes(s: seq<Byte>): nat {
    if s == [] then 0 else 256 * FromBytes(s[..|s| - 1]) + s[|s| - 1]
  }

  function ByteCount(bits: nat): nat { (bits + 7) / 8 }

  lemma {:induction false} ExportLength(n: nat)
    ensures n == 0 ==> |Export(n)| == 0
    ensures n > 0 ==> |Export(n)| == ByteCount(SizeInBase2(n))
  {
    if n > 0 {
      ExportBounds(n);
      SizeFits(n, 8 * |Export(n)|);
      SizeFits(n, 8 * (|Export(n)| - 1));
    }
  }

  lemma {:induction false} ExportBounds(n: nat)
    requires n > 0
    ensures |Export(n)| >= 1
    ensures n < Pow2(8 * |Export(n)|)
    ensures |Export(n)| > 1 ==> Pow2(8 * (|Export(n)| - 1)) <= n
  {
    assert Pow2(8) == 256;
    if n >= 256 {
      ExportBounds(n / 256);
      var k := |Export(n / 256)|;
      assert |Export(n)| == k + 1;
      Pow2Add(8, 8 * k);
      assert 8 + 8 * k == 8 * (k + 1);
      if k > 1 {
        Pow2Add(8, 8 * (k - 1));
        assert 8 + 8 * (k - 1) == 8 * k;
      }
    } else {
      assert Export(n / 256) == [];
    }
  }

  lemma {:induction false} FromExport(n: nat)
    ensures FromBytes(Export(n)) == n
  {
    if n > 0 {
      FromExport(n / 256);
      assert Export(n)[..|Export(n)| - 1] == Export(n / 256);
    }
  }

  lemma {:induction false} LeadingZeros(z: seq<Byte>, s: seq<Byte>)
    requires forall i :: 0 <= i < |z| ==> z[i] == 0
    ensures FromBytes(z + s) == FromBytes(s)
    decreases |z| + |s|
  {
    if s == [] {
      assert z + s == z;
      if z != [] {
        LeadingZeros(z[..|z| - 1], s);
        assert z[..|z| - 1] + s == z[..|z| - 1];
      }
    } else {
      assert (z + s)[..|z + s| - 1] == z + s[..|s| - 1];
      LeadingZeros(z, s[..|s| - 1]);
    }
  }

  // Byte strings of one length are equal when they stand for the same number.
  lemma {:induction false} FromBytesInjective(s: seq<Byte>, t: seq<Byte>)
    requires |s| == |t| && FromBytes(s) == FromBytes(t)
    ensures s == t
  {
    if s != [] {
      var a, b := s[..|s| - 1], t[..|t| - 1];
      assert FromBytes(a) == FromBytes(b) && s[|s| - 1] == t[|t| - 1];
      FromBytesInjective(a, b);
      assert s == a + [s[|s| - 1]] && t == b + [t[|t| - 1]];
    }
  }

  // Right-aligned export into a zeroed buffer, as done for keys, masks and parameters.
  method ExportRightAligned(n: nat, buf: array<Byte>)
    requires ByteCount(SizeInBase2(n)) <= buf.Length
    requires forall i :: 0 <= i < buf.Length ==> buf[i] == 0
    modifies buf
    ensures FromBytes(buf[..]) == n
  {
    ExportLength(n);
    FromExport(n);
    hide FromBytes, Export, SizeInBase2, ByteCount;
    var pad, bytes := buf.Length - ByteCount(SizeInBase2(n)), Export(n);
    forall i | 0 <= i < |bytes| {
      buf[pad + i] := bytes[i];
    }
    ghost var z := buf.Length - |bytes|;
    forall j | z <= j < buf.Length ensures buf[j] == bytes[j - z] {
      assert buf[pad + (j - z)] == bytes[j - z];
    }
    assert buf[..] == buf[..z] + bytes;
    LeadingZeros(buf[..z], bytes);
  }
}
