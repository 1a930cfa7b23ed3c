// Compiling action parameters into the low bits of a vector sized for the table's longest action.
module ParamPack {
  import opened Basics
  import opened Bits
  import opened FieldVector
  import opened Gmp
  import opened Rules
  import Packs

  function ParamValue(p: Param): nat {
    match p
    case ParamUi(ui) => ui
    case ParamMpz(mpz) => mpz
    case ParamUnset => 0
  }

  ghost function ParamVerdict(p: Param, spec: ParamSpec): Status {
    if p.ParamUnset? then ParamInvalidFormat
    else if spec.bits == 0 || ParamValue(p) >= Pow2(spec.bits) then ParamTooBig
    else Ok
  }

  // Either way of writing a number is accepted exactly when it fits; only an unset one has no format.
  lemma ParamStatuses(v: nat, spec: ParamSpec)
    requires spec.bits >= 1
    ensures ParamVerdict(ParamUi(v), spec) == ParamVerdict(ParamMpz(v), spec)
    ensures ParamVerdict(ParamMpz(v), spec) == if v < Pow2(spec.bits) then Ok else ParamTooBig
    ensures ParamVerdict(ParamUnset, spec) == ParamInvalidFormat
  {
  }

  method PackPartialParam(p: Param, spec: ParamSpec) returns (rc: Status, part: nat)
    ensures rc == ParamVerdict(p, spec)
    ensures rc == Ok ==> part == ParamValue(p)
  {
    part := 0;
    match p {
      case ParamUi(ui) => part := ui;
      case ParamMpz(mpz) => part := mpz;
      case ParamUnset => return ParamInvalidFormat, part;
    }
    SizeFits(part, spec.bits);
    if SizeInBase2(part) > spec.bits {
      return ParamTooBig, part;
    }
    return Ok, part;
  }

  function ParamWidths(specs: seq<ParamSpec>): (ws: seq<nat>)
    ensures |ws| == |specs| && forall i :: 0 <= i < |ws| ==> ws[i] == specs[i].bits
  {
    seq(|specs|, i requires 0 <= i < |specs| => specs[i].bits)
  }

  function ParamValues(params: seq<Param>): (vs: seq<nat>)
    ensures |vs| == |params| && forall i :: 0 <= i < |vs| ==> vs[i] == ParamValue(params[i])
  {
    seq(|params|, i requires 0 <= i < |params| => ParamValue(params[i]))
  }

  // The first parameter error, or Ok.
  ghost function ParamsFirst(params: seq<Param>, specs: seq<ParamSpec>): Status
    requires |params| == |specs|
  {
    if params == [] then Ok
    else
      var n := |params| - 1;
      var before := ParamsFirst(params[..n], specs[..n]);
      if before == Ok then ParamVerdict(params[n], specs[n]) else before
  }

  function PackedParams(params: seq<Param>, specs: seq<ParamSpec>): nat
    requires |params| == |specs|
  {
    Join(ParamValues(params), ParamWidths(specs))
  }

  ghost predicate ParamsAccepted(params: seq<Param>, specs: seq<ParamSpec>) {
    |params| == |specs| && forall i :: 0 <= i < |params| ==> ParamVerdict(params[i], specs[i]) == Ok
  }

  lemma {:induction false} ParamsFirstOk(params: seq<Param>, specs: seq<ParamSpec>)
    requires |params| == |specs|
    ensures ParamsFirst(params, specs) == Ok <==> ParamsAccepted(params, specs)
  {
    if params != [] {
      var n := |params| - 1;
      ParamsFirstOk(params[..n], specs[..n]);
      if ParamsAccepted(params[..n], specs[..n]) {
        forall i | 0 <= i < n ensures ParamVerdict(params[i], specs[i]) == Ok {
          assert params[..n][i] == params[i] && specs[..n][i] == specs[i];
        }
      }
    }
  }

  lemma {:induction false} ParamsFirstStops(params: seq<Param>, specs: seq<ParamSpec>, i: nat)
    requires |params| == |specs| && i <= |params|
    requires ParamsFirst(params[..i], specs[..i]) != Ok
    ensures ParamsFirst(params, specs) == ParamsFirst(params[..i], specs[..i])
  {
    if i == |params| {
      assert params[..i] == params && specs[..i] == specs;
    } else {
      var n := |params| - 1;
      assert params[..n][..i] == params[..i] && specs[..n][..i] == specs[..i];
      ParamsFirstStops(params[..n], specs[..n], i);
    }
  }

  // An action without parameter bits is answered before its parameters are looked at.
  ghost function ParamsVerdict(params: seq<Param>, specs: seq<ParamSpec>, actionBits: nat): Status
    requires |params| == |specs|
  {
    if actionBits == 0 then Ok
    else if ParamsFirst(params, specs) != Ok then ParamsFirst(params, specs)
    else if PackedParams(params, specs) >= Pow2(actionBits) then PackParamsTooBig
    else Ok
  }

  // The bytes of the parameter vector, in 32-bit arithmetic.
  function ParamBytes(tableBits: nat): nat { (tableBits + 7) % TWO_TO_THE_32 / 8 }

  // The export of the parameters stays inside the vector allocated for the table.
  ghost predicate StaysInside(params: seq<Param>, specs: seq<ParamSpec>, tableBits: nat, actionBits: nat)
    requires |params| == |specs|
  {
    actionBits > 0 && ParamsVerdict(params, specs, actionBits) == Ok ==>
      ByteCount(SizeInBase2(PackedParams(params, specs))) <= ParamBytes(tableBits)
  }

  // A table response with room for the action's parameters is enough.
  lemma RoomIsEnough(params: seq<Param>, specs: seq<ParamSpec>, tableBits: nat, actionBits: nat)
    requires |params| == |specs| && actionBits <= tableBits && tableBits + 7 < TWO_TO_THE_32
    ensures StaysInside(params, specs, tableBits, actionBits)
  {
    SizeFits(PackedParams(params, specs), actionBits);
  }

  // The packing loop over all parameters.
  method PackAll(specs: seq<ParamSpec>, params: seq<Param>) returns (rc: Status, all: nat)
    requires |specs| == |params|
    ensures rc == ParamsFirst(params, specs)
    ensures rc == Ok ==> all == PackedParams(params, specs)
  {
    all := 0;
    ghost var vs, ws := ParamValues(params), ParamWidths(specs);
    for i := 0 to |params|
      invariant ParamsFirst(params[..i], specs[..i]) == Ok
      invariant all == Join(vs[..i], ws[..i])
    {
      var partRc, part := PackPartialParam(params[i], specs[i]);
      assert params[..i + 1][..i] == params[..i] && specs[..i + 1][..i] == specs[..i];
      if partRc != Ok {
        ParamsFirstStops(params, specs, i + 1);
        return partRc, all;
      }
      JoinNext(vs, ws, i);
      all := Or(Shl(all, specs[i].bits), part);
    }
    assert params[..|params|] == params && specs[..|params|] == specs;
    assert vs[..|params|] == vs && ws[..|params|] == ws;
    return Ok, all;
  }

  // A failed size test frees the vector, but the field keeps pointing at it.
  method PackParams(specs: seq<ParamSpec>, tableBits: nat, actionBits: nat, params: seq<Param>, pack: Packs.Pack)
    returns (rc: Status)
    requires |specs| == |params| && StaysInside(params, specs, tableBits, actionBits)
    modifies pack`params, pack`paramsLen, pack`buffers
    ensures rc == ParamsVerdict(params, specs, actionBits) && rc !in {PackKeyTooBig, PackMaskTooBig}
    ensures rc in {Ok, PackParamsTooBig} ==>
      && pack.params != null && fresh(pack.params) && fresh(pack.params.bytes)
      && pack.buffers == old(pack.buffers) + [pack.params]
      && pack.params.frees == if rc == Ok then 0 else 1
    ensures rc !in {Ok, PackParamsTooBig} ==>
      pack.params == old(pack.params) && pack.buffers == old(pack.buffers)
    ensures rc == Ok && actionBits == 0 ==> pack.paramsLen == 0 && pack.params.bytes[..] == [0]
    ensures rc == Ok && actionBits > 0 ==>
      && pack.paramsLen == pack.params.bytes.Length == ParamBytes(tableBits)
      && FromBytes(pack.params.bytes[..]) == PackedParams(params, specs)
  {
    if actionBits == 0 {
      pack.params := new Packs.Buffer(1);
      pack.buffers := pack.buffers + [pack.params];
      pack.paramsLen := 0;
      return Ok;
    }

    var allRc, all := PackAll(specs, params);
    if allRc != Ok {
      ParamsFirstCodes(params, specs);
      return allRc;
    }
    pack.params := new Packs.Buffer(ParamBytes(tableBits));
    pack.buffers := pack.buffers + [pack.params];
    pack.paramsLen := ParamBytes(tableBits);
    SizeFits(all, actionBits);
    if SizeInBase2(all) > actionBits {
      pack.params.Free();
      return PackParamsTooBig;
    }
    ExportRightAligned(all, pack.params.bytes);
    return Ok;
  }

  lemma ParamsFit(params: seq<Param>, specs: seq<ParamSpec>)
    requires ParamsAccepted(params, specs)
    ensures Fit(ParamValues(params), ParamWidths(specs))
  {
  }

  // When the action's bit count is the sum of its parameter widths, the vector never overflows it:
  // packing succeeds exactly when every parameter fits its own width.
  lemma ParamsNeverTooBig(params: seq<Param>, specs: seq<ParamSpec>)
    requires |params| == |specs| && Total(ParamWidths(specs)) > 0
    ensures ParamsVerdict(params, specs, Total(ParamWidths(specs))) == Ok <==> ParamsAccepted(params, specs)
    ensures ParamsVerdict(params, specs, Total(ParamWidths(specs))) != PackParamsTooBig
  {
    ParamsFirstOk(params, specs);
    if ParamsAccepted(params, specs) {
      ParamsFit(params, specs);
      JoinBound(ParamValues(params), ParamWidths(specs));
    }
    ParamsFirstCodes(params, specs);
  }

  // An action's bit count that takes every parameter list whose parameters fit, and packs it.
  ghost predicate TakesEveryFit(specs: seq<ParamSpec>, actionBits: nat) {
    actionBits > 0
    && forall params :: ParamsAccepted(params, specs) ==> ParamsVerdict(params, specs, actionBits) == Ok
  }

  // The bit count kept for an action is a 16-bit sum of its parameter widths. It serves exactly when
  // the sum does not overflow.
  lemma WidthSumExact(specs: seq<ParamSpec>)
    requires specs != [] && ParamsUsable(specs)
    ensures TakesEveryFit(specs, Total(ParamWidths(specs)) % TWO_TO_THE_16)
       <==> Total(ParamWidths(specs)) < TWO_TO_THE_16
  {
    var total := Total(ParamWidths(specs));
    var sum := total % TWO_TO_THE_16;
    hide Total;
    if total < TWO_TO_THE_16 {
      TotalPositive(ParamWidths(specs));
      forall params | ParamsAccepted(params, specs) ensures ParamsVerdict(params, specs, total) == Ok {
        ParamsNeverTooBig(params, specs);
      }
    } else if sum > 0 {
      Pow2Monotone(sum + 1, total);
      EveryNumberIsPacked(Pow2(sum), specs);
      assert ParamsVerdict(ParamsOf(Pow2(sum), specs), specs, sum) == PackParamsTooBig;
    }
  }

  // ---- All parameter lists of an action ----

  // No parameter list is accepted for an action with a parameter of width 0.
  predicate ParamsUsable(specs: seq<ParamSpec>) { forall i :: 0 <= i < |specs| ==> specs[i].bits > 0 }

  // The parameters that pack to a given number: every number of the widths' total is reached.
  function ParamsOf(packed: nat, specs: seq<ParamSpec>): (params: seq<Param>)
    ensures |params| == |specs|
  {
    var vals := Fields(packed, ParamWidths(specs));
    seq(|specs|, i requires 0 <= i < |specs| => ParamMpz(vals[i]))
  }

  lemma EveryNumberIsPacked(packed: nat, specs: seq<ParamSpec>)
    requires ParamsUsable(specs) && packed < Pow2(Total(ParamWidths(specs)))
    ensures ParamsAccepted(ParamsOf(packed, specs), specs) && PackedParams(ParamsOf(packed, specs), specs) == packed
    ensures ParamsFirst(ParamsOf(packed, specs), specs) == Ok
  {
    JoinOfFields(packed, ParamWidths(specs));
    assert ParamValues(ParamsOf(packed, specs)) == Fields(packed, ParamWidths(specs));
    hide Fields, Total, Join;
    ParamsFirstOk(ParamsOf(packed, specs), specs);
  }

  ghost predicate ParamsAlwaysFit(specs: seq<ParamSpec>, actionBits: nat) {
    forall params :: |params| == |specs| ==> ParamsVerdict(params, specs, actionBits) != PackParamsTooBig
  }

  // The vector never overflows exactly when the action's bit count covers the parameter widths.
  lemma ParamsFitExact(specs: seq<ParamSpec>, actionBits: nat)
    ensures ParamsAlwaysFit(specs, actionBits)
       <==> actionBits == 0 || !ParamsUsable(specs) || actionBits >= Total(ParamWidths(specs))
  {
    var total := Total(ParamWidths(specs));
    hide Total, Fields, Join, ParamsFirst;
    if ParamsUsable(specs) && 0 < actionBits < total {
      Pow2Monotone(actionBits + 1, total);
      EveryNumberIsPacked(Pow2(actionBits), specs);
      assert ParamsVerdict(ParamsOf(Pow2(actionBits), specs), specs, actionBits) == PackParamsTooBig;
    } else {
      forall params | |params| == |specs| ensures ParamsVerdict(params, specs, actionBits) != PackParamsTooBig {
        ParamsFirstOk(params, specs);
        ParamsFirstCodes(params, specs);
        if actionBits > 0 && ParamsAccepted(params, specs) {
          PackedBelow(params, specs, actionBits);
        }
      }
    }
  }

  // Accepted parameters stay below the sum of their widths, and below every bit count that covers it.
  lemma PackedBelow(params: seq<Param>, specs: seq<ParamSpec>, actionBits: nat)
    requires ParamsAccepted(params, specs)
    ensures ParamsUsable(specs) && PackedParams(params, specs) < Pow2(Total(ParamWidths(specs)))
    ensures actionBits >= Total(ParamWidths(specs)) ==> PackedParams(params, specs) < Pow2(actionBits)
  {
    ParamsFit(params, specs);
    JoinBound(ParamValues(params), ParamWidths(specs));
    if actionBits >= Total(ParamWidths(specs)) { Pow2Monotone(Total(ParamWidths(specs)), actionBits); }
  }

  // The bytes the largest number takes that an action's parameters can pack to.
  function LargestBytes(specs: seq<ParamSpec>, actionBits: nat): nat {
    var total := Total(ParamWidths(specs));
    var most := if actionBits < total then actionBits else total;
    ByteCount(if most == 0 then 1 else most)
  }

  ghost predicate AlwaysInside(specs: seq<ParamSpec>, tableBits: nat, actionBits: nat) {
    forall params :: |params| == |specs| ==> StaysInside(params, specs, tableBits, actionBits)
  }

  // The export stays inside the vector for every parameter list exactly when the vector takes the
  // largest number.
  lemma InsideExact(specs: seq<ParamSpec>, tableBits: nat, actionBits: nat)
    ensures AlwaysInside(specs, tableBits, actionBits)
       <==> actionBits == 0 || !ParamsUsable(specs) || LargestBytes(specs, actionBits) <= ParamBytes(tableBits)
  {
    var total := Total(ParamWidths(specs));
    var most := if actionBits < total then actionBits else total;
    hide Total, Fields, Join, ParamsFirst, ParamBytes;
    if actionBits > 0 && ParamsUsable(specs) && LargestBytes(specs, actionBits) > ParamBytes(tableBits) {
      var largest := ParamsOf(Pow2(most) - 1, specs);
      Pow2Monotone(most, total);
      Pow2Monotone(most, actionBits);
      EveryNumberIsPacked(Pow2(most) - 1, specs);
      SizeOfOnes(most);
      assert !StaysInside(largest, specs, tableBits, actionBits);
    } else if actionBits > 0 {
      forall params | |params| == |specs| ensures StaysInside(params, specs, tableBits, actionBits) {
        ParamsFirstOk(params, specs);
        if ParamsVerdict(params, specs, actionBits) == Ok {
          PackedBelow(params, specs, actionBits);
          SizeFits(PackedParams(params, specs), if most == 0 then 1 else most);
        }
      }
    }
  }

  lemma SizeOfOnes(k: nat)
    ensures SizeInBase2(Pow2(k) - 1) == if k == 0 then 1 else k
  {
    SizeFits(Pow2(k) - 1, k);
    if k > 0 { SizeFits(Pow2(k) - 1, k - 1); }
  }

  // With the sum of the widths as the action's bit count: exactly when the table response takes at
  // least as many bytes as the action's parameters.
  lemma RoomExact(specs: seq<ParamSpec>, tableBits: nat)
    requires specs != [] && ParamsUsable(specs) && tableBits + 7 < TWO_TO_THE_32
    ensures AlwaysInside(specs, tableBits, Total(ParamWidths(specs)))
       <==> ByteCount(Total(ParamWidths(specs))) <= ByteCount(tableBits)
  {
    TotalPositive(ParamWidths(specs));
    InsideExact(specs, tableBits, Total(ParamWidths(specs)));
  }

  // A sum of exactly 65536 counts as no parameters: any list, even an unset one, is answered with
  // success and an empty vector.
  lemma SumWrapsToNothing(specs: seq<ParamSpec>, params: seq<Param>)
    requires specs == [ParamSpec(32768), ParamSpec(32768)] && params == [ParamUnset, ParamUnset]
    ensures ParamsVerdict(params, specs, Total(ParamWidths(specs)) % TWO_TO_THE_16) == Ok
    ensures !ParamsAccepted(params, specs)
  {
    var ws := ParamWidths(specs);
    assert ws[..1] == [32768] && ws[..1][..0] == [];
    assert Total(ws[..1]) == 32768 && Total(ws) == TWO_TO_THE_16;
  }

  lemma {:induction false} ParamsFirstCodes(params: seq<Param>, specs: seq<ParamSpec>)
    requires |params| == |specs|
    ensures ParamsFirst(params, specs) in {Ok, ParamInvalidFormat, ParamTooBig}
  {
    if params != [] { ParamsFirstCodes(params[..|params| - 1], specs[..|params| - 1]); }
  }

  lemma ParamsCodes(params: seq<Param>, specs: seq<ParamSpec>, actionBits: nat)
    requires |params| == |specs|
    ensures ParamsVerdict(params, specs, actionBits) in {Ok, ParamInvalidFormat, ParamTooBig, PackParamsTooBig}
  {
    ParamsFirstCodes(params, specs);
  }

  // Packed parameters round-trip: the low bits slice back into the parameter values, and all bits
  // above the action's own are zero.
  lemma ParamsRoundTrip(params: seq<Param>, specs: seq<ParamSpec>, bytes: seq<Byte>)
    requires ParamsAccepted(params, specs)
    requires FromBytes(bytes) == PackedParams(params, specs)
    ensures Fields(FromBytes(bytes), ParamWidths(specs)) == ParamValues(params)
    ensures forall i: nat :: i >= Total(ParamWidths(specs)) ==> !Bit(FromBytes(bytes), i)
  {
    ParamsFit(params, specs);
    FieldsOfJoin(ParamValues(params), ParamWidths(specs));
    JoinBound(ParamValues(params), ParamWidths(specs));
    forall i: nat | i >= Total(ParamWidths(specs)) ensures !Bit(FromBytes(bytes), i) {
      BitBound(FromBytes(bytes), Total(ParamWidths(specs)), i);
    }
  }

  // Different parameter values never share a byte vector.
  lemma ParamsInjective(a: seq<Param>, b: seq<Param>, specs: seq<ParamSpec>, s: seq<Byte>, t: seq<Byte>)
    requires ParamsAccepted(a, specs) && ParamsAccepted(b, specs) && |s| == |t|
    requires FromBytes(s) == PackedParams(a, specs) && FromBytes(t) == PackedParams(b, specs)
    ensures s == t <==> ParamValues(a) == ParamValues(b)
  {
    ParamsRoundTrip(a, specs, s);
    ParamsRoundTrip(b, specs, t);
    if ParamValues(a) == ParamValues(b) {
      FromBytesInjective(s, t);
    }
  }
}
