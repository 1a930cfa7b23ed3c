// Compiling the match fields of a rule into one key and one mask.
module MatchPack {
  import opened Basics
  import opened Bits
  import opened FieldVector
  import opened Gmp
  import opened Rules
  import Packs
  import PrefixMask

  // The key and mask a match stands for; a prefix longer than the field has none.
  function UserKey(m: Match): nat {
    match m
    case KeyMask(key, _) => key
    case KeyOnly(key) => key
    case PrefixOf(key, _) => key
    case RangeOf(lower, _) => lower
    case _ => 0
  }

  function UserMask(m: Match, spec: FieldSpec): nat {
    match m
    case KeyMask(_, mask) => mask
    case KeyOnly(key) =>
      if spec.ty == RangeField then key
      else if spec.ty == Unused then 0
      else Pow2(spec.bits) - 1
    case PrefixOf(_, p) => if p <= spec.bits then PrefixMask.Prefix(p, spec.bits) else 0
    case RangeOf(_, upper) => upper
    case _ => 0
  }

  // The masks a field type admits.
  ghost predicate MaskAllowed(ty: MatchType, key: nat, mask: nat, bits: nat) {
    match ty
    case Invalid => false
    case Bitfield => mask == 0 || mask == Pow2(bits) - 1
    case Constant => mask == Pow2(bits) - 1
    case PrefixField => PrefixMask.IsPrefix(Low(mask, bits), bits)
    case RangeField => key <= mask
    case Ternary => true
    case Unused => mask == 0
  }

  function MaskError(ty: MatchType): Status {
    match ty
    case Bitfield => MatchInvalidBitfieldMask
    case Constant => MatchInvalidConstantMask
    case PrefixField => MatchInvalidPrefixMask
    case RangeField => MatchInvalidRangeMask
    case Unused => MatchInvalidUnusedMask
    case _ => FieldSpecUnknownType
  }

  // What the compiler answers for one field, first failing test first.
  ghost function Verdict(m: Match, spec: FieldSpec): Status {
    var key, mask := UserKey(m), UserMask(m, spec);
    if m.Unset? then MatchInvalidFormat
    else if m.PrefixOf? && m.prefixLen > spec.bits then MatchMaskTooWide
    else if spec.ty == Invalid then FieldSpecUnknownType
    else if !MaskAllowed(spec.ty, key, mask, spec.bits) then MaskError(spec.ty)
    else if spec.bits == 0 || key >= Pow2(spec.bits) then MatchKeyTooBig
    else if mask >= Pow2(spec.bits) then MatchMaskTooBig
    else Ok
  }

  // The encoding the user chose: key, and mask where the encoding has one.
  method UserEncoding(m: Match, bits: nat) returns (rc: Status, key: nat, mask: nat, hasMask: bool)
    ensures rc == if m.Unset? then MatchInvalidFormat
                  else if m.PrefixOf? && m.prefixLen > bits then MatchMaskTooWide else Ok
    ensures rc == Ok ==> key == UserKey(m) && hasMask == !m.KeyOnly?
    ensures rc == Ok && hasMask ==> forall ty :: mask == UserMask(m, FieldSpec(ty, bits))
  {
    rc, key, mask, hasMask := Ok, 0, 0, true;
    match m {
      case KeyMask(k, mk) =>
        key, mask := k, mk;
      case KeyOnly(k) =>
        key, hasMask := k, false;
      case PrefixOf(k, prefixLen) =>
        key := k;
        if prefixLen > bits {
          rc := MatchMaskTooWide;
        } else {
          ShlIsMul(1, prefixLen);
          mask := Shl(1, prefixLen) - 1;
          mask := Shl(mask, bits - prefixLen);
        }
      case RangeOf(lower, upper) =>
        key, mask := lower, upper;
      case Ignore =>
        key, mask := 0, 0;
      case Unset =>
        rc := MatchInvalidFormat;
    }
  }

  // The validation of a mask against the field type.
  method ValidateMask(ty: MatchType, key: nat, mask: nat, bits: nat) returns (rc: Status)
    ensures rc == if MaskAllowed(ty, key, mask, bits) then Ok else MaskError(ty)
  {
    var ones := Shl(1, bits) - 1;
    ShlIsMul(1, bits);
    rc := Ok;
    match ty {
      case Bitfield =>
        if !(mask == 0 || mask == ones) { rc := MatchInvalidBitfieldMask; }
      case Constant =>
        if !(mask == ones) { rc := MatchInvalidConstantMask; }
      case PrefixField =>
        PrefixMask.ScanTestExact(mask, bits);
        if !(mask == 0) {
          var lowestOne := Scan1(mask);
          if Scan0(mask, lowestOne) < bits { rc := MatchInvalidPrefixMask; }
        }
      case RangeField =>
        if mask < key { rc := MatchInvalidRangeMask; }
      case Ternary =>
      case Unused =>
        if !(mask == 0) { rc := MatchInvalidUnusedMask; }
      case Invalid =>
        rc := FieldSpecUnknownType;
    }
  }

  method PackPartialKeyMask(m: Match, spec: FieldSpec) returns (rc: Status, keyPart: nat, maskPart: nat)
    ensures rc == Verdict(m, spec)
    ensures rc == Ok ==> keyPart == UserKey(m) && maskPart == UserMask(m, spec)
  {
    var hasMask;
    rc, keyPart, maskPart, hasMask := UserEncoding(m, spec.bits);
    if rc != Ok {
      return;
    }

    ShlIsMul(1, spec.bits);
    var maskDefault: nat := 0;
    match spec.ty {
      case Bitfield => maskDefault := Shl(1, spec.bits) - 1;
      case Constant => maskDefault := Shl(1, spec.bits) - 1;
      case PrefixField => maskDefault := Shl(1, spec.bits) - 1;
      case RangeField => maskDefault := keyPart;
      case Ternary => maskDefault := Shl(1, spec.bits) - 1;
      case Unused => maskDefault := 0;
      case Invalid => return FieldSpecUnknownType, keyPart, maskPart;
    }
    if !hasMask {
      maskPart := maskDefault;
    }
    assert spec == FieldSpec(spec.ty, spec.bits) && maskPart == UserMask(m, spec);

    rc := ValidateMask(spec.ty, keyPart, maskPart, spec.bits);
    if rc != Ok {
      return;
    }
    SizeFits(keyPart, spec.bits);
    if SizeInBase2(keyPart) > spec.bits {
      return MatchKeyTooBig, keyPart, maskPart;
    }
    SizeFits(maskPart, spec.bits);
    if SizeInBase2(maskPart) > spec.bits {
      return MatchMaskTooBig, keyPart, maskPart;
    }
  }

  function Keys(matches: seq<Match>): (ks: seq<nat>)
    ensures |ks| == |matches|
    ensures forall i :: 0 <= i < |ks| ==> ks[i] == UserKey(matches[i])
  {
    seq(|matches|, i requires 0 <= i < |matches| => UserKey(matches[i]))
  }

  function Masks(matches: seq<Match>, specs: seq<FieldSpec>): (ms: seq<nat>)
    requires |matches| == |specs|
    ensures |ms| == |matches|
    ensures forall i :: 0 <= i < |ms| ==> ms[i] == UserMask(matches[i], specs[i])
  {
    seq(|matches|, i requires 0 <= i < |matches| => UserMask(matches[i], specs[i]))
  }

  // The first field error, or Ok.
  ghost function FieldsVerdict(matches: seq<Match>, specs: seq<FieldSpec>): Status
    requires |matches| == |specs|
  {
    if matches == [] then Ok
    else
      var n := |matches| - 1;
      var before := FieldsVerdict(matches[..n], specs[..n]);
      if before == Ok then Verdict(matches[n], specs[n]) else before
  }

  ghost predicate Accepted(matches: seq<Match>, specs: seq<FieldSpec>) {
    |matches| == |specs| && forall i :: 0 <= i < |matches| ==> Verdict(matches[i], specs[i]) == Ok
  }

  lemma {:induction false} FieldsVerdictOk(matches: seq<Match>, specs: seq<FieldSpec>)
    requires |matches| == |specs|
    ensures FieldsVerdict(matches, specs) == Ok <==> Accepted(matches, specs)
  {
    if matches != [] {
      var n := |matches| - 1;
      FieldsVerdictOk(matches[..n], specs[..n]);
      if Accepted(matches[..n], specs[..n]) {
        forall i | 0 <= i < n ensures Verdict(matches[i], specs[i]) == Ok {
          assert matches[..n][i] == matches[i] && specs[..n][i] == specs[i];
        }
      }
    }
  }

  lemma VerdictNext(matches: seq<Match>, specs: seq<FieldSpec>, i: nat)
    requires |matches| == |specs| && i < |matches| && FieldsVerdict(matches[..i], specs[..i]) == Ok
    ensures FieldsVerdict(matches[..i + 1], specs[..i + 1]) == Verdict(matches[i], specs[i])
  {
    assert matches[..i + 1][..i] == matches[..i] && specs[..i + 1][..i] == specs[..i];
  }

  // The error reported is the one of the first failing field: those after it do not matter.
  lemma {:induction false} FieldsVerdictStops(matches: seq<Match>, specs: seq<FieldSpec>, i: nat)
    requires |matches| == |specs| && i <= |matches|
    requires FieldsVerdict(matches[..i], specs[..i]) != Ok
    ensures FieldsVerdict(matches, specs) == FieldsVerdict(matches[..i], specs[..i])
  {
    if i == |matches| {
      assert matches[..i] == matches && specs[..i] == specs;
    } else {
      var n := |matches| - 1;
      assert matches[..n][..i] == matches[..i] && specs[..n][..i] == specs[..i];
      FieldsVerdictStops(matches[..n], specs[..n], i);
    }
  }

  // Errors found later, on whole vectors or on the field list, are none of a field's.
  lemma {:induction false} FieldCodes(matches: seq<Match>, specs: seq<FieldSpec>)
    requires |matches| == |specs|
    ensures FieldsVerdict(matches, specs) !in {PackKeyTooBig, PackMaskTooBig, PackParamsTooBig, InfoTooManyMatches}
  {
    if matches != [] { FieldCodes(matches[..|matches| - 1], specs[..|matches| - 1]); }
  }

  // The packed key and mask of accepted fields.
  function PackedKey(matches: seq<Match>, specs: seq<FieldSpec>): nat
    requires |matches| == |specs|
  {
    Join(Keys(matches), Widths(specs))
  }

  function PackedMask(matches: seq<Match>, specs: seq<FieldSpec>): nat
    requires |matches| == |specs|
  {
    Join(Masks(matches, specs), Widths(specs))
  }

  lemma AcceptedFits(matches: seq<Match>, specs: seq<FieldSpec>)
    requires Accepted(matches, specs)
    ensures Fit(Keys(matches), Widths(specs)) && Fit(Masks(matches, specs), Widths(specs))
  {
  }

  ghost function MatchesVerdict(matches: seq<Match>, specs: seq<FieldSpec>, keyBits: nat): Status
    requires |matches| == |specs|
  {
    if FieldsVerdict(matches, specs) != Ok then FieldsVerdict(matches, specs)
    else if keyBits == 0 || PackedKey(matches, specs) >= Pow2(keyBits) then PackKeyTooBig
    else if PackedMask(matches, specs) >= Pow2(keyBits) then PackMaskTooBig
    else Ok
  }

  lemma MatchesCodes(matches: seq<Match>, specs: seq<FieldSpec>, keyBits: nat)
    requires |matches| == |specs|
    ensures if Accepted(matches, specs)
            then MatchesVerdict(matches, specs, keyBits) in {Ok, PackKeyTooBig, PackMaskTooBig}
            else MatchesVerdict(matches, specs, keyBits) == FieldsVerdict(matches, specs)
                 && FieldsVerdict(matches, specs) != Ok
  {
    FieldsVerdictOk(matches, specs);
  }

  // The size test before each export, and the export.
  method ExportPart(n: nat, bits: nat, buf: array<Byte>) returns (fits: bool)
    requires buf.Length == ByteCount(bits) && forall i :: 0 <= i < buf.Length ==> buf[i] == 0
    modifies buf
    ensures fits <==> bits > 0 && n < Pow2(bits)
    ensures fits ==> FromBytes(buf[..]) == n
  {
    SizeFits(n, bits);
    if SizeInBase2(n) > bits {
      return false;
    }
    ExportRightAligned(n, buf);
    return true;
  }

  // One more accepted field packed; the whole list when there is no more.
  lemma PackNext(matches: seq<Match>, specs: seq<FieldSpec>, i: nat)
    requires |matches| == |specs| && i < |matches| && Verdict(matches[i], specs[i]) == Ok
    ensures Or(Shl(PackedKey(matches[..i], specs[..i]), specs[i].bits), UserKey(matches[i]))
         == PackedKey(matches[..i + 1], specs[..i + 1])
    ensures Or(Shl(PackedMask(matches[..i], specs[..i]), specs[i].bits), UserMask(matches[i], specs[i]))
         == PackedMask(matches[..i + 1], specs[..i + 1])
  {
    hide Join;
    var ks, ms, ws := Keys(matches), Masks(matches, specs), Widths(specs);
    SlicedLists(matches, specs, i);
    SlicedLists(matches, specs, i + 1);
    JoinNext(ks, ws, i);
    JoinNext(ms, ws, i);
  }

  lemma SlicedLists(matches: seq<Match>, specs: seq<FieldSpec>, i: nat)
    requires |matches| == |specs| && i <= |matches|
    ensures Keys(matches[..i]) == Keys(matches)[..i] && Widths(specs[..i]) == Widths(specs)[..i]
    ensures Masks(matches[..i], specs[..i]) == Masks(matches, specs)[..i]
  {
  }

  // The packing loop over all fields.
  method PackFields(specs: seq<FieldSpec>, matches: seq<Match>) returns (rc: Status, key: nat, mask: nat)
    requires |specs| == |matches|
    ensures rc == FieldsVerdict(matches, specs)
    ensures rc == Ok ==> key == PackedKey(matches, specs) && mask == PackedMask(matches, specs)
  {
    assert matches[..|matches|] == matches && specs[..|matches|] == specs;
    key, mask := 0, 0;
    for i := 0 to |matches|
      invariant FieldsVerdict(matches[..i], specs[..i]) == Ok
      invariant key == PackedKey(matches[..i], specs[..i]) && mask == PackedMask(matches[..i], specs[..i])
    {
      hide *;
      var fieldRc, keyPart, maskPart := PackPartialKeyMask(matches[i], specs[i]);
      VerdictNext(matches, specs, i);
      if fieldRc != Ok {
        FieldsVerdictStops(matches, specs, i + 1);
        return fieldRc, key, mask;
      }
      PackNext(matches, specs, i);
      key := Or(Shl(key, specs[i].bits), keyPart);
      mask := Or(Shl(mask, specs[i].bits), maskPart);
    }
    return Ok, key, mask;
  }

  // A failed size test frees both buffers, but the fields keep pointing at them.
  method PackMatches(specs: seq<FieldSpec>, keyBits: nat, matches: seq<Match>, pack: Packs.Pack)
    returns (rc: Status)
    requires |specs| == |matches|
    modifies pack`key, pack`mask, pack`buffers
    ensures rc == MatchesVerdict(matches, specs, keyBits) != PackParamsTooBig
    ensures rc in {Ok, PackKeyTooBig, PackMaskTooBig} ==>
      && pack.key != null && pack.mask != null && fresh(pack.key) && fresh(pack.mask) && pack.key != pack.mask
      && fresh(pack.key.bytes) && fresh(pack.mask.bytes)
      && pack.buffers == old(pack.buffers) + [pack.key, pack.mask]
      && pack.key.frees == pack.mask.frees == if rc == Ok then 0 else 1
    ensures rc !in {Ok, PackKeyTooBig, PackMaskTooBig} ==>
      pack.key == old(pack.key) && pack.mask == old(pack.mask) && pack.buffers == old(pack.buffers)
    ensures rc == Ok ==>
      && pack.key.bytes.Length == pack.mask.bytes.Length == ByteCount(keyBits)
      && FromBytes(pack.key.bytes[..]) == PackedKey(matches, specs)
      && FromBytes(pack.mask.bytes[..]) == PackedMask(matches, specs)
  {
    var fieldsRc, key, mask := PackFields(specs, matches);
    if fieldsRc != Ok {
      FieldCodes(matches, specs);
      return fieldsRc;
    }
    var len := ByteCount(keyBits);
    pack.key := new Packs.Buffer(len);
    pack.mask := new Packs.Buffer(len);
    pack.buffers := pack.buffers + [pack.key, pack.mask];

    var fits := ExportPart(key, keyBits, pack.key.bytes);
    if !fits {
      FreeParts(pack);
      return PackKeyTooBig;
    }
    fits := ExportPart(mask, keyBits, pack.mask.bytes);
    if !fits {
      FreeParts(pack);
      return PackMaskTooBig;
    }
    return Ok;
  }

  method FreeParts(pack: Packs.Pack)
    requires pack.key != null ==> pack.key != pack.mask
    modifies pack.key, pack.mask
    ensures pack.key != null ==> pack.key.frees == old(pack.key.frees) + 1
    ensures pack.mask != null ==> pack.mask.frees == old(pack.mask.frees) + 1
  {
    if pack.key != null {
      pack.key.Free();
    }
    if pack.mask != null {
      pack.mask.Free();
    }
  }

  // A table whose key is as wide as its fields accepts a rule exactly when it accepts every field.
  lemma WideEnoughKey(matches: seq<Match>, specs: seq<FieldSpec>, keyBits: nat)
    requires |matches| == |specs| && keyBits >= 1 && keyBits >= Total(Widths(specs))
    ensures MatchesVerdict(matches, specs, keyBits) == Ok <==> Accepted(matches, specs)
  {
    FieldsVerdictOk(matches, specs);
    if Accepted(matches, specs) {
      AcceptedFits(matches, specs);
      JoinBound(Keys(matches), Widths(specs));
      JoinBound(Masks(matches, specs), Widths(specs));
      Pow2Monotone(Total(Widths(specs)), keyBits);
    }
  }

  // ---- All match lists of a table ----

  // No match list is accepted for a table with a field of no type or of width 0.
  predicate Usable(specs: seq<FieldSpec>) {
    forall i :: 0 <= i < |specs| ==> specs[i].ty != Invalid && specs[i].bits > 0
  }

  // The exact keys that pack to a given number: every number of the widths' total is reached.
  function MatchesOf(packed: nat, specs: seq<FieldSpec>): (matches: seq<Match>)
    ensures |matches| == |specs|
  {
    var keys := Fields(packed, Widths(specs));
    seq(|specs|, i requires 0 <= i < |specs| => KeyOnly(keys[i]))
  }

  // Every field type accepts an exact key that fits.
  lemma ExactKeyAccepted(key: nat, spec: FieldSpec)
    requires spec.ty != Invalid && spec.bits > 0 && key < Pow2(spec.bits)
    ensures Verdict(KeyOnly(key), spec) == Ok
  {
    var ones := Pow2(spec.bits) - 1;
    LowOfSmall(ones, spec.bits);
    assert PrefixMask.Prefix(spec.bits, spec.bits) == ones;
  }

  lemma EveryKeyIsPacked(packed: nat, specs: seq<FieldSpec>)
    requires Usable(specs) && packed < Pow2(Total(Widths(specs)))
    ensures Accepted(MatchesOf(packed, specs), specs) && PackedKey(MatchesOf(packed, specs), specs) == packed
    ensures FieldsVerdict(MatchesOf(packed, specs), specs) == Ok
  {
    var keys, matches := Fields(packed, Widths(specs)), MatchesOf(packed, specs);
    JoinOfFields(packed, Widths(specs));
    assert Keys(matches) == keys;
    hide Fields, Total, Join, Verdict;
    forall i | 0 <= i < |specs| ensures Verdict(matches[i], specs[i]) == Ok {
      ExactKeyAccepted(keys[i], specs[i]);
    }
    FieldsVerdictOk(matches, specs);
  }

  ghost predicate KeysAlwaysFit(specs: seq<FieldSpec>, keyBits: nat) {
    forall matches :: |matches| == |specs| ==>
      MatchesVerdict(matches, specs, keyBits) !in {PackKeyTooBig, PackMaskTooBig}
  }

  // No match list ends in an error on the whole key or mask exactly when the key covers the fields.
  lemma KeysFitExact(specs: seq<FieldSpec>, keyBits: nat)
    ensures KeysAlwaysFit(specs, keyBits)
       <==> !Usable(specs) || (keyBits >= 1 && keyBits >= Total(Widths(specs)))
  {
    var total := Total(Widths(specs));
    hide Total, Fields, Join, FieldsVerdict, Verdict, PackedKey, PackedMask;
    if Usable(specs) && !(keyBits >= 1 && keyBits >= total) {
      var packed := if keyBits == 0 then 0 else Pow2(keyBits);
      if keyBits > 0 { Pow2Monotone(keyBits + 1, total); }
      EveryKeyIsPacked(packed, specs);
      assert MatchesVerdict(MatchesOf(packed, specs), specs, keyBits) == PackKeyTooBig;
    } else {
      forall matches | |matches| == |specs|
        ensures MatchesVerdict(matches, specs, keyBits) !in {PackKeyTooBig, PackMaskTooBig}
      {
        FieldCodes(matches, specs);
        FieldsVerdictOk(matches, specs);
        AcceptedUsable(matches, specs);
        if Usable(specs) { WideEnoughKey(matches, specs, keyBits); }
      }
    }
  }

  lemma AcceptedUsable(matches: seq<Match>, specs: seq<FieldSpec>)
    ensures Accepted(matches, specs) ==> Usable(specs)
  {
    if Accepted(matches, specs) {
      forall i | 0 <= i < |specs| ensures specs[i].ty != Invalid && specs[i].bits > 0 {
        assert Verdict(matches[i], specs[i]) == Ok;
      }
    }
  }

  // Slicing the packed bytes by the field widths gives back every field's key and mask.
  lemma SlicesAreTheFields(matches: seq<Match>, specs: seq<FieldSpec>, keyBits: nat,
                           key: seq<Byte>, mask: seq<Byte>)
    requires |matches| == |specs| && MatchesVerdict(matches, specs, keyBits) == Ok
    requires FromBytes(key) == PackedKey(matches, specs)
    requires FromBytes(mask) == PackedMask(matches, specs)
    ensures Fields(FromBytes(key), Widths(specs)) == Keys(matches)
    ensures Fields(FromBytes(mask), Widths(specs)) == Masks(matches, specs)
  {
    FieldsVerdictOk(matches, specs);
    AcceptedFits(matches, specs);
    FieldsOfJoin(Keys(matches), Widths(specs));
    FieldsOfJoin(Masks(matches, specs), Widths(specs));
  }
}
