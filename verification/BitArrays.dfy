// The multi-word bit array of the statistics filter engine, as a set of positions below its size.
module BitArrays {
  import opened Bits

  const NBITS_PER_WORD: nat := 64

  // The number of valid bits in the topmost word.
  function UpperBits(nbits: nat): nat {
    if nbits % NBITS_PER_WORD > 0 then nbits % NBITS_PER_WORD else NBITS_PER_WORD
  }

  // The number of valid bits of word w.
  function WordBits(nbits: nat, nwords: nat, w: nat): nat {
    if w + 1 == nwords then UpperBits(nbits) else NBITS_PER_WORD
  }

  function FullMask(): nat { Pow2(NBITS_PER_WORD) - 1 }

  function Complement(word: nat): nat
    requires word < Pow2(NBITS_PER_WORD)
  {
    FullMask() - word
  }

  // The positions 0 to n - 1.
  ghost function AllBelow(n: nat): (s: set<nat>)
    ensures forall i: nat :: i in s <==> i < n
  {
    if n == 0 then {} else AllBelow(n - 1) + {n - 1}
  }

  // Position i of an array of words.
  predicate BitAt(words: seq<nat>, i: nat)
    requires i / NBITS_PER_WORD < |words|
  {
    Bit(words[i / NBITS_PER_WORD], i % NBITS_PER_WORD)
  }

  // The words of an array of nbits bits: no bit at or above nbits is set.
  ghost predicate WellFormed(words: seq<nat>, nbits: nat) {
    nbits > 0 && |words| == (nbits + NBITS_PER_WORD - 1) / NBITS_PER_WORD
    && forall w :: 0 <= w < |words| ==> words[w] < Pow2(WordBits(nbits, |words|, w))
  }

  // The set positions below k.
  ghost function PositionsBelow(words: seq<nat>, k: nat): (s: set<nat>)
    requires k <= NBITS_PER_WORD * |words|
    ensures s <= AllBelow(k)
  {
    if k == 0 then {}
    else PositionsBelow(words, k - 1) + if BitAt(words, k - 1) then {k - 1} else {}
  }

  lemma {:induction false} PositionsMember(words: seq<nat>, k: nat)
    requires k <= NBITS_PER_WORD * |words|
    ensures forall i: nat :: i < k ==> (i in PositionsBelow(words, k) <==> BitAt(words, i))
  {
    if k > 0 { PositionsMember(words, k - 1); }
  }

  ghost function Positions(words: seq<nat>, nbits: nat): (s: set<nat>)
    requires WellFormed(words, nbits)
    ensures s <= AllBelow(nbits)
  {
    PositionsBelow(words, nbits)
  }

  // A set of positions is known by its members.
  lemma PositionsEqual(words: seq<nat>, nbits: nat, s: set<nat>)
    requires WellFormed(words, nbits)
    requires forall i: nat :: i < nbits ==> (i in s <==> BitAt(words, i))
    requires s <= AllBelow(nbits)
    ensures Positions(words, nbits) == s
  {
    PositionsMember(words, nbits);
  }

  lemma PositionSplits(nbits: nat, nwords: nat, i: nat)
    requires nbits > 0 && nwords == (nbits + NBITS_PER_WORD - 1) / NBITS_PER_WORD
    ensures i < nbits <==>
      i / NBITS_PER_WORD < nwords && i % NBITS_PER_WORD < WordBits(nbits, nwords, i / NBITS_PER_WORD)
  {
  }

  lemma SplitPosition(w: nat, p: nat)
    requires p < NBITS_PER_WORD
    ensures (NBITS_PER_WORD * w + p) / NBITS_PER_WORD == w
    ensures (NBITS_PER_WORD * w + p) % NBITS_PER_WORD == p
  {
  }

  lemma WordWidth(nbits: nat, nwords: nat, w: nat)
    ensures WordBits(nbits, nwords, w) <= NBITS_PER_WORD
    ensures Pow2(WordBits(nbits, nwords, w)) <= Pow2(NBITS_PER_WORD)
  {
    Pow2Monotone(WordBits(nbits, nwords, w), NBITS_PER_WORD);
  }

  // Two well-formed word lists with the same positions are the same words.
  lemma SamePositions(a: seq<nat>, b: seq<nat>, nbits: nat)
    requires WellFormed(a, nbits) && WellFormed(b, nbits) && Positions(a, nbits) == Positions(b, nbits)
    ensures a == b
  {
    forall w | 0 <= w < |a| ensures a[w] == b[w] {
      var k := WordBits(nbits, |a|, w);
      WordWidth(nbits, |a|, w);
      forall p: nat | p < k ensures Bit(a[w], p) == Bit(b[w], p) {
        SameBit(a, b, nbits, w, p);
      }
      Extensional(a[w], b[w], k);
    }
  }

  // Valid bit p of word w is a position below nbits.
  lemma PositionOf(nbits: nat, nwords: nat, w: nat, p: nat)
    requires nbits > 0 && nwords == (nbits + NBITS_PER_WORD - 1) / NBITS_PER_WORD
    requires w < nwords && p < WordBits(nbits, nwords, w)
    ensures NBITS_PER_WORD * w + p < nbits
    ensures (NBITS_PER_WORD * w + p) / NBITS_PER_WORD == w
    ensures (NBITS_PER_WORD * w + p) % NBITS_PER_WORD == p
  {
    SplitPosition(w, p);
    PositionSplits(nbits, nwords, NBITS_PER_WORD * w + p);
  }

  lemma SameBit(a: seq<nat>, b: seq<nat>, nbits: nat, w: nat, p: nat)
    requires WellFormed(a, nbits) && WellFormed(b, nbits) && Positions(a, nbits) == Positions(b, nbits)
    requires w < |a| && p < WordBits(nbits, |a|, w)
    ensures Bit(a[w], p) == Bit(b[w], p)
  {
    PositionOf(nbits, |a|, w, p);
    PositionsMember(a, nbits);
    PositionsMember(b, nbits);
    hide Bit, Positions, WordBits, WellFormed;
    var i := NBITS_PER_WORD * w + p;
    assert i in Positions(a, nbits) <==> BitAt(a, i);
    assert i in Positions(b, nbits) <==> BitAt(b, i);
  }

  // The word list with every valid bit set, and the one with none.
  function FullWords(nbits: nat): (s: seq<nat>)
    requires nbits > 0
  {
    var n := (nbits + NBITS_PER_WORD - 1) / NBITS_PER_WORD;
    seq(n, w requires 0 <= w < n => Pow2(WordBits(nbits, n, w)) - 1)
  }

  lemma FullWordsBit(nbits: nat, i: nat)
    requires i < nbits
    ensures i / NBITS_PER_WORD < |FullWords(nbits)| && BitAt(FullWords(nbits), i)
  {
    hide Pow2, Bit;
    var n := |FullWords(nbits)|;
    PositionSplits(nbits, n, i);
    OnesBit(WordBits(nbits, n, i / NBITS_PER_WORD), i % NBITS_PER_WORD);
  }

  lemma FullWordsPositions(nbits: nat)
    requires nbits > 0
    ensures WellFormed(FullWords(nbits), nbits)
    ensures Positions(FullWords(nbits), nbits) == AllBelow(nbits)
  {
    hide Pow2, Bit, WordBits;
    forall i: nat | i < nbits ensures i / NBITS_PER_WORD < |FullWords(nbits)| && BitAt(FullWords(nbits), i) {
      FullWordsBit(nbits, i);
    }
    PositionsEqual(FullWords(nbits), nbits, AllBelow(nbits));
  }

  lemma FullWordsAt(nbits: nat, w: nat)
    requires nbits > 0 && w < |FullWords(nbits)|
    ensures FullWords(nbits)[w] == if w + 1 < |FullWords(nbits)| then FullMask() else Pow2(UpperBits(nbits)) - 1
  {
    hide Pow2, UpperBits;
  }

  lemma FullWordsAre(s: seq<nat>, nbits: nat)
    requires nbits > 0 && |s| == (nbits + NBITS_PER_WORD - 1) / NBITS_PER_WORD
    requires forall k :: 0 <= k < |s| - 1 ==> s[k] == FullMask()
    requires s[|s| - 1] == Pow2(UpperBits(nbits)) - 1
    ensures WellFormed(s, nbits) && Positions(s, nbits) == AllBelow(nbits)
  {
    var full := FullWords(nbits);
    assert |full| == |s|;
    hide *;
    forall k | 0 <= k < |s| ensures s[k] == full[k] { FullWordsAt(nbits, k); }
    assert s == full;
    FullWordsPositions(nbits);
  }

  lemma FullWordsUnique(s: seq<nat>, nbits: nat)
    requires WellFormed(s, nbits)
    ensures |FullWords(nbits)| == |s|
    ensures Positions(s, nbits) == AllBelow(nbits) <==>
      forall k :: 0 <= k < |s| ==> s[k] == FullWords(nbits)[k]
  {
    FullWordsPositions(nbits);
    if Positions(s, nbits) == AllBelow(nbits) {
      SamePositions(s, FullWords(nbits), nbits);
    }
    if forall k :: 0 <= k < |s| ==> s[k] == FullWords(nbits)[k] {
      assert s == FullWords(nbits);
    }
  }

  // The test word by word: all bits of the lower words, and those of the upper mask in the last.
  lemma AllSetWords(s: seq<nat>, nbits: nat)
    requires WellFormed(s, nbits)
    ensures |s| > 0
    ensures Positions(s, nbits) == AllBelow(nbits) <==>
      (forall k :: 0 <= k < |s| - 1 ==> s[k] == FullMask()) && s[|s| - 1] == Pow2(UpperBits(nbits)) - 1
  {
    assert |s| > 0;
    hide *;
    FullWordsUnique(s, nbits);
    forall k | 0 <= k < |s|
      ensures FullWords(nbits)[k] == if k + 1 < |s| then FullMask() else Pow2(UpperBits(nbits)) - 1
    {
      FullWordsAt(nbits, k);
    }
  }

  lemma ZeroWordsPositions(s: seq<nat>, nbits: nat)
    requires nbits > 0 && |s| == (nbits + NBITS_PER_WORD - 1) / NBITS_PER_WORD
    requires forall w :: 0 <= w < |s| ==> s[w] == 0
    ensures WellFormed(s, nbits) && Positions(s, nbits) == {}
  {
    forall i: nat | i < nbits ensures !BitAt(s, i) {
      PositionSplits(nbits, |s|, i);
      BitOfZero(i % NBITS_PER_WORD);
    }
    PositionsEqual(s, nbits, {});
  }

  // One word replaced: only the positions of that word can change.
  lemma WordReplaced(s: seq<nat>, t: seq<nat>, nbits: nat, pos: nat, on: bool)
    requires WellFormed(s, nbits) && pos < nbits
    requires pos / NBITS_PER_WORD < |s|
    requires |t| == |s|
    requires t == s[pos / NBITS_PER_WORD := t[pos / NBITS_PER_WORD]]
    requires t[pos / NBITS_PER_WORD] < Pow2(WordBits(nbits, |s|, pos / NBITS_PER_WORD))
    requires forall p: nat :: p < NBITS_PER_WORD ==>
      (Bit(t[pos / NBITS_PER_WORD], p) <==>
        if p == pos % NBITS_PER_WORD then on else Bit(s[pos / NBITS_PER_WORD], p))
    ensures WellFormed(t, nbits)
    ensures Positions(t, nbits) == if on then Positions(s, nbits) + {pos} else Positions(s, nbits) - {pos}
  {
    forall i: nat | i < nbits
      ensures BitAt(t, i) <==> if i == pos then on else BitAt(s, i)
    {
      PositionSplits(nbits, |s|, i);
    }
    PositionsMember(s, nbits);
    PositionsEqual(t, nbits, if on then Positions(s, nbits) + {pos} else Positions(s, nbits) - {pos});
  }

  // Words combined one by one by an operation that acts on each bit.
  lemma WordsCombined(a: seq<nat>, b: seq<nat>, t: seq<nat>, nbits: nat, f: (bool, bool) -> bool, r: set<nat>)
    requires WellFormed(a, nbits) && WellFormed(b, nbits) && |t| == |a|
    requires forall w :: 0 <= w < |t| ==> t[w] < Pow2(WordBits(nbits, |t|, w))
    requires forall w, p: nat :: 0 <= w < |t| && p < WordBits(nbits, |t|, w) ==>
      (Bit(t[w], p) <==> f(Bit(a[w], p), Bit(b[w], p)))
    requires r <= AllBelow(nbits)
    requires forall i: nat :: i < nbits ==> (i in r <==> f(i in Positions(a, nbits), i in Positions(b, nbits)))
    ensures WellFormed(t, nbits) && Positions(t, nbits) == r
  {
    PositionsMember(a, nbits);
    PositionsMember(b, nbits);
    forall i: nat | i < nbits ensures i in r <==> BitAt(t, i) {
      PositionSplits(nbits, |t|, i);
    }
    PositionsEqual(t, nbits, r);
  }

  class BitArray {
    const nbits: nat
    const words: array<nat>
    const upperMask: nat

    ghost predicate Valid()
      reads words
    {
      WellFormed(words[..], nbits) && upperMask == Pow2(UpperBits(nbits)) - 1
    }

    // The positions that are set.
    ghost function Contents(): (s: set<nat>)
      reads words
      requires Valid()
      ensures s <= AllBelow(nbits)
    {
      Positions(words[..], nbits)
    }

    constructor (nbits: nat)
      requires nbits > 0
      ensures Valid() && fresh(words) && this.nbits == nbits && Contents() == {}
    {
      var nwords := if nbits > NBITS_PER_WORD then (nbits + NBITS_PER_WORD - 1) / NBITS_PER_WORD else 1;
      var rem := nbits % NBITS_PER_WORD;
      ShlIsMul(1, rem);
      this.nbits := nbits;
      words := new nat[nwords](_ => 0);
      upperMask := if rem > 0 then Shl(1, rem) - 1 else FullMask();
      new;
      ZeroWordsPositions(words[..], nbits);
    }

    constructor Copy(src: BitArray)
      requires src.Valid()
      ensures Valid() && fresh(words) && nbits == src.nbits && Contents() == src.Contents()
    {
      nbits := src.nbits;
      upperMask := src.upperMask;
      var w := new nat[src.words.Length](_ => 0);
      words := w;
      new;
      for i := 0 to src.words.Length
        invariant words[..i] == src.words[..i]
        invariant fresh(words) && words != src.words
        invariant src.words[..] == old(src.words[..])
      {
        words[i] := src.words[i];
      }
      assert words[..] == src.words[..];
    }

    method IsBitSet(pos: nat) returns (r: bool)
      requires Valid()
      ensures r <==> pos in Contents()
    {
      if pos < nbits {
        var w, p := pos / NBITS_PER_WORD, pos % NBITS_PER_WORD;
        PositionSplits(nbits, words.Length, pos);
        AndPowBit(words[w], p);
        PositionsMember(words[..], nbits);
        assert BitAt(words[..], pos) == Bit(words[w], p);
        return And(words[w], Shl(1, p)) != 0;
      }
      return false;
    }

    method CountAllSet() returns (count: nat)
      requires Valid()
      ensures count == |Contents()|
    {
      count := 0;
      ghost var all := Contents();
      hide BitArray.Valid, BitArray.Contents, AllBelow;
      CountNone(all);
      for pos := 0 to nbits
        invariant count == |all * AllBelow(pos)|
      {
        var isSet := IsBitSet(pos);
        CountOne(all, pos);
        if isSet {
          count := count + 1;
        }
      }
      assert all * AllBelow(nbits) == all;
    }

    method CountAllCleared() returns (count: nat)
      requires Valid()
      ensures count == |AllBelow(nbits) - Contents()|
    {
      count := CountAllSet();
      AllBelowSize(nbits);
      SubsetSize(Contents(), AllBelow(nbits));
      count := nbits - count;
    }

    lemma AllSetMeans()
      requires Valid()
      ensures words.Length > 0
      ensures Contents() == AllBelow(nbits) <==>
        (forall k :: 0 <= k < words.Length - 1 ==> words[k] == FullMask()) && words[words.Length - 1] == upperMask
    {
      hide AllBelow, FullMask;
      AllSetWords(words[..], nbits);
      assert forall k :: 0 <= k < words.Length ==> words[..][k] == words[k];
    }

    method IsAllSet() returns (r: bool)
      requires Valid()
      ensures r <==> Contents() == AllBelow(nbits)
    {
      hide *;
      AllSetMeans();
      for w := 0 to words.Length - 1
        invariant forall k :: 0 <= k < w ==> words[k] == FullMask()
      {
        if words[w] != FullMask() {
          return false;
        }
      }
      return words[words.Length - 1] == upperMask;
    }

    method IsAllCleared() returns (r: bool)
      requires Valid()
      ensures r <==> Contents() == {}
    {
      ghost var zero: seq<nat> := seq(words.Length, _ => 0);
      ZeroWordsPositions(zero, nbits);
      if Contents() == {} { SamePositions(words[..], zero, nbits); }
      for w := 0 to words.Length
        invariant forall k :: 0 <= k < w ==> words[k] == 0
      {
        if words[w] != 0 {
          assert words[..][w] != zero[w];
          return false;
        }
      }
      assert words[..] == zero;
      return true;
    }

    method SetBit(pos: nat)
      requires Valid()
      modifies words
      ensures Valid()
      ensures Contents() == if pos < nbits then old(Contents()) + {pos} else old(Contents())
    {
      if pos < nbits {
        var w, p := pos / NBITS_PER_WORD, pos % NBITS_PER_WORD;
        PositionSplits(nbits, words.Length, pos);
        ghost var before := words[..];
        OrPow(words[w], p, WordBits(nbits, words.Length, w));
        words[w] := Or(words[w], Shl(1, p));
        WordReplaced(before, words[..], nbits, pos, true);
      }
    }

    method SetAll()
      requires Valid()
      modifies words
      ensures Valid() && Contents() == AllBelow(nbits)
    {
      var last := words.Length - 1;
      for w := 0 to last
        invariant forall k :: 0 <= k < w ==> words[k] == FullMask()
      {
        words[w] := FullMask();
      }
      words[last] := upperMask;
      FullWordsAre(words[..], nbits);
    }

    method ClearBit(pos: nat)
      requires Valid()
      modifies words
      ensures Valid()
      ensures Contents() == old(Contents()) - {pos}
    {
      if pos < nbits {
        var w, p := pos / NBITS_PER_WORD, pos % NBITS_PER_WORD;
        PositionSplits(nbits, words.Length, pos);
        ghost var before := words[..];
        WordWidth(nbits, words.Length, w);
        AndNotPow(words[w], p, WordBits(nbits, words.Length, w));
        words[w] := And(words[w], Complement(Shl(1, p)));
        WordReplaced(before, words[..], nbits, pos, false);
      }
    }

    method ClearAll()
      requires Valid()
      modifies words
      ensures Valid() && Contents() == {}
    {
      for w := 0 to words.Length
        invariant forall k :: 0 <= k < w ==> words[k] == 0
      {
        words[w] := 0;
      }
      ZeroWordsPositions(words[..], nbits);
    }

    method NegateBit(pos: nat)
      requires Valid()
      modifies words
      ensures Valid()
      ensures Contents() == if pos < nbits && pos !in old(Contents()) then old(Contents()) + {pos}
                            else old(Contents()) - {pos}
    {
      if pos < nbits {
        var w, p := pos / NBITS_PER_WORD, pos % NBITS_PER_WORD;
        PositionSplits(nbits, words.Length, pos);
        ghost var before := words[..];
        XorPow(words[w], p, WordBits(nbits, words.Length, w));
        PositionsMember(before, nbits);
        words[w] := Xor(words[w], Shl(1, p));
        WordReplaced(before, words[..], nbits, pos, !BitAt(before, pos));
      }
    }

    method NegateAll()
      requires Valid()
      modifies words
      ensures Valid() && Contents() == AllBelow(nbits) - old(Contents())
    {
      hide Pow2, Bit, Xor, FullWords, FullMask;
      ghost var before := words[..];
      ghost var full := FullWords(nbits);
      FullWordsPositions(nbits);
      var last := words.Length - 1;
      for w := 0 to last
        invariant forall k :: 0 <= k < w ==> words[k] == Xor(before[k], full[k])
        invariant forall k :: w <= k < words.Length ==> words[k] == before[k]
      {
        FullWordsAt(nbits, w);
        words[w] := Xor(words[w], FullMask());
      }
      FullWordsAt(nbits, last);
      words[last] := Xor(words[last], upperMask);
      XorWords(before, full, words[..], nbits);
      WordsCombined(before, full, words[..], nbits, (x, y) => x != y, AllBelow(nbits) - Positions(before, nbits));
    }

    method AssignBit(pos: nat, value: bool)
      requires Valid()
      modifies words
      ensures Valid()
      ensures Contents() == if value && pos < nbits then old(Contents()) + {pos} else old(Contents()) - {pos}
    {
      if value { SetBit(pos); } else { ClearBit(pos); }
    }

    method AssignAll(value: bool)
      requires Valid()
      modifies words
      ensures Valid() && Contents() == if value then AllBelow(nbits) else {}
    {
      if value { SetAll(); } else { ClearAll(); }
    }

    // Also with itself.
    method AndWith(rhs: BitArray)
      requires Valid() && rhs.Valid() && rhs.nbits == nbits
      modifies words
      ensures Valid() && Contents() == old(Contents()) * old(rhs.Contents())
    {
      ghost var before, other := words[..], rhs.words[..];
      for w := 0 to words.Length
        invariant forall k :: 0 <= k < w ==> words[k] == And(before[k], other[k])
        invariant forall k :: w <= k < words.Length ==> words[k] == before[k]
        invariant forall k :: w <= k < words.Length ==> rhs.words[k] == other[k]
      {
        words[w] := And(words[w], rhs.words[w]);
      }
      AndWords(before, other, words[..], nbits);
      WordsCombined(before, other, words[..], nbits, (x, y) => x && y,
                    Positions(before, nbits) * Positions(other, nbits));
    }

    method OrWith(rhs: BitArray)
      requires Valid() && rhs.Valid() && rhs.nbits == nbits
      modifies words
      ensures Valid() && Contents() == old(Contents()) + old(rhs.Contents())
    {
      ghost var before, other := words[..], rhs.words[..];
      for w := 0 to words.Length
        invariant forall k :: 0 <= k < w ==> words[k] == Or(before[k], other[k])
        invariant forall k :: w <= k < words.Length ==> words[k] == before[k]
        invariant forall k :: w <= k < words.Length ==> rhs.words[k] == other[k]
      {
        words[w] := Or(words[w], rhs.words[w]);
      }
      OrWords(before, other, words[..], nbits);
      WordsCombined(before, other, words[..], nbits, (x, y) => x || y,
                    Positions(before, nbits) + Positions(other, nbits));
    }
  }

  // ---- Word-level facts ----

  lemma AndPowBit(x: nat, p: nat)
    ensures And(x, Shl(1, p)) != 0 <==> Bit(x, p)
  {
    ShlIsMul(1, p);
    var a := And(x, Pow2(p));
    AndBit(x, Pow2(p), p);
    PowBit(p, p);
    BitOfZero(p);
    if a != 0 {
      AndBelow(x, Pow2(p));
      forall i: nat | i < p + 1 && !Bit(x, p) ensures Bit(a, i) == Bit(0, i) {
        AndBit(x, Pow2(p), i);
        PowBit(p, i);
        BitOfZero(i);
      }
      if !Bit(x, p) { Extensional(a, 0, p + 1); }
    }
  }

  lemma PowBelow(p: nat, k: nat)
    requires p < k
    ensures Shl(1, p) == Pow2(p) < Pow2(k)
  {
    ShlIsMul(1, p);
    Pow2Monotone(p, k);
  }

  lemma OrPow(x: nat, p: nat, k: nat)
    requires x < Pow2(k) && p < k
    ensures Or(x, Shl(1, p)) < Pow2(k)
    ensures forall i: nat :: Bit(Or(x, Shl(1, p)), i) == (i == p || Bit(x, i))
  {
    PowBelow(p, k);
    OpBounds(x, Pow2(p), k);
    forall i: nat ensures Bit(Or(x, Shl(1, p)), i) == (i == p || Bit(x, i)) {
      OrBit(x, Pow2(p), i);
      PowBit(p, i);
    }
  }

  lemma XorPow(x: nat, p: nat, k: nat)
    requires x < Pow2(k) && p < k
    ensures Xor(x, Shl(1, p)) < Pow2(k)
    ensures forall i: nat :: Bit(Xor(x, Shl(1, p)), i) == if i == p then !Bit(x, i) else Bit(x, i)
  {
    PowBelow(p, k);
    OpBounds(x, Pow2(p), k);
    forall i: nat
      ensures Bit(Xor(x, Shl(1, p)), i) == if i == p then !Bit(x, i) else Bit(x, i)
    {
      XorBit(x, Pow2(p), i);
      PowBit(p, i);
    }
  }

  lemma AndNotPow(x: nat, p: nat, k: nat)
    requires x < Pow2(k) && p < k <= NBITS_PER_WORD
    ensures Shl(1, p) < Pow2(NBITS_PER_WORD)
    ensures And(x, Complement(Shl(1, p))) < Pow2(k)
    ensures forall i: nat :: i < NBITS_PER_WORD ==>
      Bit(And(x, Complement(Shl(1, p))), i) == (i != p && Bit(x, i))
  {
    hide Pow2, Bit, And, Shl;
    PowBelow(p, NBITS_PER_WORD);
    AndBelow(x, Complement(Shl(1, p)));
    forall i: nat | i < NBITS_PER_WORD
      ensures Bit(And(x, Complement(Shl(1, p))), i) == (i != p && Bit(x, i))
    {
      AndNotBit(x, p, NBITS_PER_WORD, i);
    }
  }

  lemma AndWords(a: seq<nat>, b: seq<nat>, t: seq<nat>, nbits: nat)
    requires WellFormed(a, nbits) && WellFormed(b, nbits) && |t| == |a|
    requires forall w :: 0 <= w < |t| ==> t[w] == And(a[w], b[w])
    ensures forall w :: 0 <= w < |t| ==> t[w] < Pow2(WordBits(nbits, |t|, w))
    ensures forall w, p: nat :: 0 <= w < |t| ==> Bit(t[w], p) == (Bit(a[w], p) && Bit(b[w], p))
  {
    forall w | 0 <= w < |t| ensures t[w] < Pow2(WordBits(nbits, |t|, w)) {
      OpBounds(a[w], b[w], WordBits(nbits, |t|, w));
    }
    forall w, p: nat | 0 <= w < |t| ensures Bit(t[w], p) == (Bit(a[w], p) && Bit(b[w], p)) {
      AndBit(a[w], b[w], p);
    }
  }

  lemma OrWords(a: seq<nat>, b: seq<nat>, t: seq<nat>, nbits: nat)
    requires WellFormed(a, nbits) && WellFormed(b, nbits) && |t| == |a|
    requires forall w :: 0 <= w < |t| ==> t[w] == Or(a[w], b[w])
    ensures forall w :: 0 <= w < |t| ==> t[w] < Pow2(WordBits(nbits, |t|, w))
    ensures forall w, p: nat :: 0 <= w < |t| ==> Bit(t[w], p) == (Bit(a[w], p) || Bit(b[w], p))
  {
    forall w | 0 <= w < |t| ensures t[w] < Pow2(WordBits(nbits, |t|, w)) {
      OpBounds(a[w], b[w], WordBits(nbits, |t|, w));
    }
    forall w, p: nat | 0 <= w < |t| ensures Bit(t[w], p) == (Bit(a[w], p) || Bit(b[w], p)) {
      OrBit(a[w], b[w], p);
    }
  }

  lemma XorWords(a: seq<nat>, b: seq<nat>, t: seq<nat>, nbits: nat)
    requires WellFormed(a, nbits) && WellFormed(b, nbits) && |t| == |a|
    requires forall w :: 0 <= w < |t| ==> t[w] == Xor(a[w], b[w])
    ensures forall w :: 0 <= w < |t| ==> t[w] < Pow2(WordBits(nbits, |t|, w))
    ensures forall w, p: nat :: 0 <= w < |t| ==> Bit(t[w], p) == (Bit(a[w], p) != Bit(b[w], p))
  {
    forall w | 0 <= w < |t| ensures t[w] < Pow2(WordBits(nbits, |t|, w)) {
      OpBounds(a[w], b[w], WordBits(nbits, |t|, w));
    }
    forall w, p: nat | 0 <= w < |t| ensures Bit(t[w], p) == (Bit(a[w], p) != Bit(b[w], p)) {
      XorBit(a[w], b[w], p);
    }
  }

  lemma {:induction false} AllBelowSize(n: nat)
    ensures |AllBelow(n)| == n
  {
    if n > 0 { AllBelowSize(n - 1); }
  }

  lemma CountNone(s: set<nat>)
    ensures |s * AllBelow(0)| == 0
  {
  }

  lemma CountOne(s: set<nat>, pos: nat)
    ensures |s * AllBelow(pos + 1)| == |s * AllBelow(pos)| + if pos in s then 1 else 0
  {
    if pos in s {
      assert s * AllBelow(pos + 1) == s * AllBelow(pos) + {pos};
    } else {
      assert s * AllBelow(pos + 1) == s * AllBelow(pos);
    }
  }

  lemma SubsetSize(a: set<nat>, b: set<nat>)
    requires a <= b
    ensures |b - a| == |b| - |a|
  {
    assert b == a + (b - a);
  }
}
