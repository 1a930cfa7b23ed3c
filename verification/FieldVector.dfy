// A key is a list of field values packed from most to least significant. Join is the packed number,
// Fields reads the values back.
module FieldVector {
  import opened Bits

  function Total(widths: seq<nat>): nat {
    if widths == [] then 0 else Total(widths[..|widths| - 1]) + widths[|widths| - 1]
  }

  function Join(vals: seq<nat>, widths: seq<nat>): nat
    requires |vals| == |widths|
  {
    if vals == [] then 0
    else
      var n := |vals| - 1;
      Shl(Join(vals[..n], widths[..n]), widths[n]) + vals[n]
  }

  function Fields(packed: nat, widths: seq<nat>): (vals: seq<nat>)
    ensures |vals| == |widths|
    decreases |widths|
  {
    if widths == [] then []
    else
      var n := |widths| - 1;
      Fields(Shr(packed, widths[n]), widths[..n]) + [Low(packed, widths[n])]
  }

  ghost predicate Fit(vals: seq<nat>, widths: seq<nat>) {
    |vals| == |widths| && forall i :: 0 <= i < |vals| ==> vals[i] < Pow2(widths[i])
  }

  lemma {:induction false} JoinBound(vals: seq<nat>, widths: seq<nat>)
    requires Fit(vals, widths)
    ensures Join(vals, widths) < Pow2(Total(widths))
  {
    if vals != [] {
      var n := |vals| - 1;
      JoinBound(vals[..n], widths[..n]);
      ShlBound(Join(vals[..n], widths[..n]), Total(widths[..n]), widths[n]);
    }
  }

  // One turn of a packing loop: shift what has been packed, then put the next value in.
  lemma JoinNext(vals: seq<nat>, widths: seq<nat>, i: nat)
    requires |vals| == |widths| && i < |vals| && vals[i] < Pow2(widths[i])
    ensures Or(Shl(Join(vals[..i], widths[..i]), widths[i]), vals[i]) == Join(vals[..i + 1], widths[..i + 1])
  {
    OrShifted(Join(vals[..i], widths[..i]), vals[i], widths[i]);
    assert vals[..i + 1][..i] == vals[..i] && widths[..i + 1][..i] == widths[..i];
  }

  lemma {:induction false} FieldsOfJoin(vals: seq<nat>, widths: seq<nat>)
    requires Fit(vals, widths)
    ensures Fields(Join(vals, widths), widths) == vals
  {
    hide Shl, Shr, Low, Pow2;
    if vals != [] {
      var n := |vals| - 1;
      FieldsOfJoin(vals[..n], widths[..n]);
      Unsplit(Join(vals[..n], widths[..n]), vals[n], widths[n]);
      assert vals == vals[..n] + [vals[n]];
    }
  }

  lemma JoinAppend(vals: seq<nat>, v: nat, widths: seq<nat>, w: nat)
    requires |vals| == |widths|
    ensures Join(vals + [v], widths + [w]) == Shl(Join(vals, widths), w) + v
  {
    assert (vals + [v])[..|vals|] == vals && (widths + [w])[..|widths|] == widths;
  }

  lemma {:induction false} JoinOfFields(packed: nat, widths: seq<nat>)
    requires packed < Pow2(Total(widths))
    ensures Fit(Fields(packed, widths), widths)
    ensures Join(Fields(packed, widths), widths) == packed
    decreases |widths|
  {
    assert Pow2(Total([])) == 1 && Join([], []) == 0;
    hide Shr, Shl, Low, Pow2, Join;
    if widths != [] {
      var n := |widths| - 1;
      var w := widths[n];
      assert widths == widths[..n] + [w];
      ShrBound(packed, Total(widths[..n]), w);
      JoinOfFields(Shr(packed, w), widths[..n]);
      LowBound(packed, w);
      Split(packed, w);
      JoinAppend(Fields(Shr(packed, w), widths[..n]), Low(packed, w), widths[..n], w);
    }
  }

  lemma TotalPositive(widths: seq<nat>)
    requires widths != [] && widths[|widths| - 1] > 0
    ensures Total(widths) > 0
  {
  }

  lemma JoinInjective(a: seq<nat>, b: seq<nat>, widths: seq<nat>)
    requires Fit(a, widths) && Fit(b, widths)
    ensures Join(a, widths) == Join(b, widths) <==> a == b
  {
    FieldsOfJoin(a, widths);
    FieldsOfJoin(b, widths);
  }

  // Field j occupies the widths[j] bits above all the fields that follow it.
  lemma {:induction false} FieldAt(vals: seq<nat>, widths: seq<nat>, j: nat)
    requires Fit(vals, widths) && j < |vals|
    ensures Low(Shr(Join(vals, widths), Total(widths[j + 1..])), widths[j]) == vals[j]
  {
    var n := |vals| - 1;
    var packed := Join(vals, widths);
    Unsplit(Join(vals[..n], widths[..n]), vals[n], widths[n]);
    if j < n {
      FieldAt(vals[..n], widths[..n], j);
      var rest := widths[j + 1..];
      assert rest[..|rest| - 1] == widths[..n][j + 1..];
      ShrAdd(packed, widths[n], Total(widths[..n][j + 1..]));
    }
  }

  function AndAll(a: seq<nat>, b: seq<nat>): (r: seq<nat>)
    requires |a| == |b|
    ensures |r| == |a| && forall i :: 0 <= i < |a| ==> r[i] == And(a[i], b[i])
  {
    if a == [] then [] else AndAll(a[..|a| - 1], b[..|a| - 1]) + [And(a[|a| - 1], b[|a| - 1])]
  }

  lemma AndAllFits(a: seq<nat>, b: seq<nat>, widths: seq<nat>)
    requires Fit(a, widths) && Fit(b, widths)
    ensures Fit(AndAll(a, b), widths)
  {
    forall i | 0 <= i < |a| ensures AndAll(a, b)[i] < Pow2(widths[i]) {
      OpBounds(a[i], b[i], widths[i]);
    }
  }

  // Bitwise AND of packed keys is the packing of the field-wise ANDs.
  lemma {:induction false} AndJoin(a: seq<nat>, b: seq<nat>, widths: seq<nat>)
    requires Fit(a, widths) && Fit(b, widths)
    ensures And(Join(a, widths), Join(b, widths)) == Join(AndAll(a, b), widths)
  {
    AndOfZero();
    hide Total, And, Shl, Pow2;
    if a != [] {
      var n := |a| - 1;
      AndJoin(a[..n], b[..n], widths[..n]);
      AndShifted(Join(a[..n], widths[..n]), a[n], Join(b[..n], widths[..n]), b[n], widths[n]);
      assert AndAll(a, b)[..n] == AndAll(a[..n], b[..n]);
    }
  }

  // Masked comparison of whole keys is the conjunction of the masked field comparisons.
  lemma MaskedJoin(p: seq<nat>, k: seq<nat>, m: seq<nat>, widths: seq<nat>)
    requires Fit(p, widths) && Fit(k, widths) && Fit(m, widths)
    ensures And(Join(p, widths), Join(m, widths)) == And(Join(k, widths), Join(m, widths))
       <==> forall i :: 0 <= i < |p| ==> And(p[i], m[i]) == And(k[i], m[i])
  {
    AndJoin(p, m, widths);
    AndJoin(k, m, widths);
    AndAllFits(p, m, widths);
    AndAllFits(k, m, widths);
    JoinInjective(AndAll(p, m), AndAll(k, m), widths);
    if AndAll(p, m) == AndAll(k, m) {
      forall i | 0 <= i < |p| ensures And(p[i], m[i]) == And(k[i], m[i]) {
        assert AndAll(p, m)[i] == AndAll(k, m)[i];
      }
    }
  }
}
