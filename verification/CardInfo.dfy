// Card information: a response payload of key, length, value fields, and its parser.
module CardInfo {
  import opened Basics

  const CARD_SN: Byte := 0x21
  const MAC_ADDRESS0: Byte := 0x22
  const MAC_ADDRESS3: Byte := 0x25
  const CARD_REV: Byte := 0x26
  const CARD_NAME: Byte := 0x27
  const SAT_VERSION: Byte := 0x28
  const TOTAL_POWER_AVAIL: Byte := 0x29
  const FAN_PRESENCE: Byte := 0x2a
  const CONFIG_MODE: Byte := 0x2b
  const NEW_MAC_SCHEME: Byte := 0x4b
  const CAGE_TYPE_00: Byte := 0x50
  const CAGE_TYPE_03: Byte := 0x53

  const LEGACY_MAC_LENGTH: nat := 18
  const MAC_SCHEME_LENGTH: nat := 8

  // Strings are kept as positions in the payload. A legacy MAC is the position of its text; macs and
  // cages hold one entry per index and their valid masks as sets of indices.
  datatype Info = Info(
    serialNumber: Option<nat>, revision: Option<nat>, name: Option<nat>, scVersion: Option<nat>,
    totalPower: nat, fanPresence: Byte, configMode: Byte,
    macs: map<nat, nat>, macValid: set<nat>, macCount: nat, macBase: seq<Byte>,
    cages: map<nat, Byte>, cageValid: set<nat>)

  const EMPTY := Info(None, None, None, None, 0, 0, 0, map[], {}, 0, [0, 0, 0, 0, 0, 0], map[], {})

  datatype Field = Field(key: Byte, value: seq<Byte>)

  predicate WellFormed(f: Field) { |f.value| < 256 }

  function Encode(fields: seq<Field>): seq<Byte>
    requires forall f :: f in fields ==> WellFormed(f)
  {
    if fields == [] then []
    else Encode(fields[..|fields| - 1]) + EncodeOne(fields[|fields| - 1])
  }

  function EncodeOne(f: Field): seq<Byte>
    requires WellFormed(f)
  {
    [f.key, |f.value|] + f.value
  }

  // ---- What one field, and a list of fields, contributes ----

  function Watts(code: Byte, before: nat): nat {
    match code
    case 0 => 75
    case 1 => 150
    case 2 => 225
    case 4 => 300
    case _ => before
  }

  // The effect of a field whose value starts at position at of the payload.
  function Apply(info: Info, f: Field, at: nat): Info {
    if f.key == CARD_SN then info.(serialNumber := Some(at))
    else if f.key == CARD_REV then info.(revision := Some(at))
    else if f.key == CARD_NAME then info.(name := Some(at))
    else if f.key == SAT_VERSION then info.(scVersion := Some(at))
    else if f.key == TOTAL_POWER_AVAIL && |f.value| == 1 then
      info.(totalPower := Watts(f.value[0], info.totalPower))
    else if f.key == FAN_PRESENCE && |f.value| == 1 then info.(fanPresence := f.value[0])
    else if f.key == CONFIG_MODE && |f.value| == 1 then info.(configMode := f.value[0])
    else if MAC_ADDRESS0 <= f.key <= MAC_ADDRESS3 && |f.value| == LEGACY_MAC_LENGTH then
      var n := f.key - MAC_ADDRESS0;
      info.(macs := info.macs[n := at], macValid := info.macValid + {n})
    else if f.key == NEW_MAC_SCHEME && |f.value| == MAC_SCHEME_LENGTH then
      info.(macCount := f.value[0], macBase := f.value[2..])
    else if CAGE_TYPE_00 <= f.key <= CAGE_TYPE_03 && |f.value| == 1 then
      var n := f.key - CAGE_TYPE_00;
      info.(cages := info.cages[n := f.value[0]], cageValid := info.cageValid + {n})
    else info
  }

  function Fold(fields: seq<Field>): Info
    requires forall f :: f in fields ==> WellFormed(f)
  {
    if fields == [] then EMPTY
    else
      var n := |fields| - 1;
      Apply(Fold(fields[..n]), fields[n], |Encode(fields[..n])| + 2)
  }

  // ---- The parser ----

  // A field's parts, byte by byte from where it starts.
  lemma FieldBytes(payload: seq<Byte>, len: nat, f: Field)
    requires WellFormed(f) && len + 2 + |f.value| <= |payload|
    requires payload[len..len + 2 + |f.value|] == EncodeOne(f)
    ensures payload[len] == f.key && payload[len + 1] == |f.value|
    ensures forall i :: 0 <= i < |f.value| ==> payload[len + 2 + i] == f.value[i]
    ensures payload[len + 2..len + 2 + |f.value|] == f.value
    ensures |f.value| == MAC_SCHEME_LENGTH ==> payload[len + 4..len + 10] == f.value[2..]
  {
    var slice := payload[len..len + 2 + |f.value|];
    forall i | 0 <= i < |f.value| ensures payload[len + 2 + i] == f.value[i] {
      assert slice[2 + i] == payload[len + (2 + i)];
    }
    assert slice[0] == payload[len] && slice[1] == payload[len + 1];
  }

  // One field at position len of the payload; returns the number of bytes it takes up.
  method ParseField(payload: array<Byte>, len: nat, info: Info, ghost f: Field)
    returns (size: nat, next: Info)
    requires WellFormed(f) && len + 2 + |f.value| <= payload.Length
    requires payload[len..len + 2 + |f.value|] == EncodeOne(f)
    ensures size == 2 + |f.value| && next == Apply(info, f, len + 2)
    ensures f.key == payload[len] && |f.value| == payload[len + 1]
    ensures f.value == payload[len + 2..len + 2 + payload[len + 1]]
  {
    next := info;
    FieldBytes(payload[..], len, f);
    var key, length, value := payload[len], payload[len + 1], len + 2;
    assert key == f.key && length == |f.value|;
    assert length > 0 ==> payload[value] == f.value[0];
    hide EncodeOne;
    if key == CARD_SN {
      next := next.(serialNumber := Some(value));
    } else if key == CARD_REV {
      next := next.(revision := Some(value));
    } else if key == CARD_NAME {
      next := next.(name := Some(value));
    } else if key == SAT_VERSION {
      next := next.(scVersion := Some(value));
    } else if key == TOTAL_POWER_AVAIL {
      if length == 1 {
        match payload[value] {
          case 0 => next := next.(totalPower := 75);
          case 1 => next := next.(totalPower := 150);
          case 2 => next := next.(totalPower := 225);
          case 4 => next := next.(totalPower := 300);
          case _ =>
        }
      }
    } else if key == FAN_PRESENCE {
      if length == 1 {
        next := next.(fanPresence := payload[value]);
      }
    } else if key == CONFIG_MODE {
      if length == 1 {
        next := next.(configMode := payload[value]);
      }
    } else if MAC_ADDRESS0 <= key <= MAC_ADDRESS3 {
      if length == LEGACY_MAC_LENGTH {
        var n := key - MAC_ADDRESS0;
        next := next.(macs := next.macs[n := value], macValid := next.macValid + {n});
      }
    } else if key == NEW_MAC_SCHEME {
      if length == MAC_SCHEME_LENGTH {
        next := next.(macCount := payload[value], macBase := payload[value + 2..value + 8]);
      }
    } else if CAGE_TYPE_00 <= key <= CAGE_TYPE_03 {
      if length == 1 {
        var n := key - CAGE_TYPE_00;
        next := next.(cages := next.cages[n := payload[value]], cageValid := next.cageValid + {n});
      }
    }
    size := 2 + length;
  }

  lemma {:induction false} EncodePrefix(fields: seq<Field>, k: nat)
    requires k <= |fields| && forall f :: f in fields ==> WellFormed(f)
    ensures Encode(fields[..k]) <= Encode(fields)
    decreases |fields|
  {
    if k < |fields| {
      var init := fields[..|fields| - 1];
      EncodePrefix(init, k);
      assert init[..k] == fields[..k];
    } else {
      assert fields[..k] == fields;
    }
  }

  // Field k sits right behind the encoding of the fields before it.
  lemma FieldAt(fields: seq<Field>, k: nat)
    requires k < |fields| && forall f :: f in fields ==> WellFormed(f)
    ensures var at := |Encode(fields[..k])|;
      && Encode(fields[..k + 1]) == Encode(fields[..k]) + EncodeOne(fields[k])
      && at + 2 + |fields[k].value| == |Encode(fields[..k + 1])| <= |Encode(fields)|
      && Encode(fields)[at..at + 2 + |fields[k].value|] == EncodeOne(fields[k])
  {
    assert fields[..k + 1][..k] == fields[..k];
    EncodePrefix(fields, k + 1);
    var at, e := |Encode(fields[..k])|, EncodeOne(fields[k]);
    assert Encode(fields)[at..at + |e|] == Encode(fields[..k + 1])[at..at + |e|] == e;
  }

  lemma SubSlice(s: seq<Byte>, length: nat, from: nat, to: nat)
    requires from <= to <= length <= |s|
    ensures s[..length][from..to] == s[from..to]
  {
  }

  // The result with one more field.
  lemma FoldNext(fields: seq<Field>, k: nat)
    requires k < |fields| && forall f :: f in fields ==> WellFormed(f)
    ensures Fold(fields[..k + 1]) == Apply(Fold(fields[..k]), fields[k], |Encode(fields[..k])| + 2)
  {
    hide Apply, Encode, WellFormed;
    assert fields[..k + 1][..k] == fields[..k];
  }

  // The loop stands behind the first k fields with their fold.
  ghost predicate Reached(payload: seq<Byte>, length: nat, fields: seq<Field>, k: nat, len: nat, info: Info) {
    && (forall f :: f in fields ==> WellFormed(f)) && k <= |fields|
    && length <= |payload| && payload[..length] == Encode(fields)
    && len == |Encode(fields[..k])| && info == Fold(fields[..k])
  }

  lemma ReachedNone(payload: seq<Byte>, length: nat, fields: seq<Field>)
    requires forall f :: f in fields ==> WellFormed(f)
    requires length <= |payload| && payload[..length] == Encode(fields)
    ensures Reached(payload, length, fields, 0, 0, EMPTY)
  {
    assert fields[..0] == [];
  }

  // There is a next field exactly while the payload has not ended.
  lemma ReachedField(payload: seq<Byte>, length: nat, fields: seq<Field>, k: nat, len: nat, info: Info)
    requires Reached(payload, length, fields, k, len, info)
    ensures if k == |fields| then len == length && info == Fold(fields) else
      && len < length && len + 2 + |fields[k].value| <= length && WellFormed(fields[k])
      && payload[len..len + 2 + |fields[k].value|] == EncodeOne(fields[k])
      && Reached(payload, length, fields, k + 1, len + 2 + |fields[k].value|, Apply(info, fields[k], len + 2))
  {
    hide Apply, EncodeOne, Encode, Fold;
    if k == |fields| {
      assert fields[..k] == fields;
    } else {
      FieldAt(fields, k);
      FoldNext(fields, k);
      SubSlice(payload, length, len, len + 2 + |fields[k].value|);
    }
  }

  // The parse loop over the encoding of any list of well-formed fields: it visits exactly those
  // fields, one per turn, ends exactly at the payload's length and yields their fold, so for each
  // key the last field wins. The payload buffer may be padded to whole words.
  method Parse(payload: array<Byte>, length: nat, ghost fields: seq<Field>) returns (info: Info, ghost visited: nat)
    requires forall f :: f in fields ==> WellFormed(f)
    requires length <= payload.Length && payload[..length] == Encode(fields)
    ensures info == Fold(fields) && visited == |fields|
  {
    info := EMPTY;
    visited := 0;
    var len := 0;
    ReachedNone(payload[..], length, fields);
    hide *;
    while len < length
      invariant visited <= |fields| && Reached(payload[..], length, fields, visited, len, info)
      decreases length - len
    {
      ReachedField(payload[..], length, fields, visited, len, info);
      var size;
      size, info := ParseField(payload, len, info, fields[visited]);
      len := len + size;
      visited := visited + 1;
    }
    ReachedField(payload[..], length, fields, visited, len, info);
  }

  // ---- What the result says about the fields ----

  predicate IsMac(f: Field, n: nat) { f.key == MAC_ADDRESS0 + n && |f.value| == LEGACY_MAC_LENGTH }

  predicate IsCage(f: Field, n: nat) { f.key == CAGE_TYPE_00 + n && |f.value| == 1 }

  // What one field does to the valid bits, to the type of cage n, and to the name.
  lemma ApplyCage(info: Info, f: Field, at: nat, n: nat)
    requires n < 4
    ensures var after := Apply(info, f, at).cages;
      if IsCage(f, n) then n in after && after[n] == f.value[0]
      else (n in after <==> n in info.cages) && (n in after ==> after[n] == info.cages[n])
  {
  }

  lemma ApplyValid(info: Info, f: Field, at: nat, n: nat)
    requires n < 4
    ensures n in Apply(info, f, at).macValid <==> n in info.macValid || IsMac(f, n)
    ensures n in Apply(info, f, at).cageValid <==> n in info.cageValid || IsCage(f, n)
  {
  }

  lemma ApplyName(info: Info, f: Field, at: nat)
    ensures Apply(info, f, at).name == if f.key == CARD_NAME then Some(at) else info.name
  {
  }

  // A MAC or cage is marked valid exactly when the payload has a field with its key and the required
  // length.
  lemma {:induction false} ValidIffPresent(fields: seq<Field>, n: nat)
    requires n < 4 && forall f :: f in fields ==> WellFormed(f)
    ensures n in Fold(fields).macValid <==> exists i :: 0 <= i < |fields| && IsMac(fields[i], n)
    ensures n in Fold(fields).cageValid <==> exists i :: 0 <= i < |fields| && IsCage(fields[i], n)
  {
    hide Apply, Encode, WellFormed;
    if fields != [] {
      var k := |fields| - 1;
      var before := Fold(fields[..k]);
      ValidIffPresent(fields[..k], n);
      assert forall i :: 0 <= i < k ==> fields[..k][i] == fields[i];
      ApplyValid(before, fields[k], |Encode(fields[..k])| + 2, n);
    }
  }

  // Last one wins: with no later field for cage n, the cage has the type of field k.
  lemma {:induction false} LastCageWins(fields: seq<Field>, n: nat, k: nat)
    requires n < 4 && k < |fields| && forall f :: f in fields ==> WellFormed(f)
    requires IsCage(fields[k], n) && forall j :: k < j < |fields| ==> !IsCage(fields[j], n)
    ensures n in Fold(fields).cages && Fold(fields).cages[n] == fields[k].value[0]
  {
    hide Apply, Encode;
    var last := |fields| - 1;
    ApplyCage(Fold(fields[..last]), fields[last], |Encode(fields[..last])| + 2, n);
    if k < last {
      LastCageWins(fields[..last], n, k);
    }
  }

  // The same for strings: the name is the value of the last name field, in place.
  lemma {:induction false} LastNameWins(fields: seq<Field>, k: nat)
    requires k < |fields| && forall f :: f in fields ==> WellFormed(f)
    requires fields[k].key == CARD_NAME && forall j :: k < j < |fields| ==> fields[j].key != CARD_NAME
    ensures Fold(fields).name == Some(|Encode(fields[..k])| + 2)
  {
    hide Apply, Encode, WellFormed;
    var last := |fields| - 1;
    ApplyName(Fold(fields[..last]), fields[last], |Encode(fields[..last])| + 2);
    if k < last {
      LastNameWins(fields[..last], k);
      assert fields[..last][..k] == fields[..k];
    }
  }

  // The C string a position stands for: the bytes up to the first zero.
  function CString(bytes: seq<Byte>): seq<Byte> {
    if bytes == [] || bytes[0] == 0 then [] else [bytes[0]] + CString(bytes[1..])
  }

  lemma {:induction false} CStringInside(value: seq<Byte>, rest: seq<Byte>)
    requires 0 in value
    ensures CString(value + rest) == CString(value)
  {
    if value[0] != 0 {
      CStringInside(value[1..], rest);
      assert (value + rest)[1..] == value[1..] + rest;
    }
  }

  lemma PrefixText(value: seq<Byte>, tail: seq<Byte>)
    requires 0 in value && value <= tail
    ensures CString(tail) == CString(value)
  {
    assert tail == value + tail[|value|..];
    hide CString;
    CStringInside(value, tail[|value|..]);
  }

  lemma ValueAt(fields: seq<Field>, k: nat)
    requires k < |fields| && forall f :: f in fields ==> WellFormed(f)
    ensures var at := |Encode(fields[..k])| + 2;
      at <= |Encode(fields)| && fields[k].value <= Encode(fields)[at..]
  {
    FieldAt(fields, k);
    var all, at, v := Encode(fields), |Encode(fields[..k])| + 2, fields[k].value;
    assert v == EncodeOne(fields[k])[2..];
    assert all[at..at + |v|] == all[at - 2..at + |v|][2..];
    assert all[at..][..|v|] == all[at..at + |v|];
  }

  // The text read at the name's position is the zero-terminated text the last name field carries.
  lemma NameText(fields: seq<Field>, k: nat)
    requires k < |fields| && forall f :: f in fields ==> WellFormed(f)
    requires fields[k].key == CARD_NAME && forall j :: k < j < |fields| ==> fields[j].key != CARD_NAME
    requires 0 in fields[k].value
    ensures var at := Fold(fields).name;
      at.Some? && at.value <= |Encode(fields)| && CString(Encode(fields)[at.value..]) == CString(fields[k].value)
  {
    hide Encode, EncodeOne, Fold, CString, WellFormed;
    LastNameWins(fields, k);
    ValueAt(fields, k);
    PrefixText(fields[k].value, Encode(fields)[|Encode(fields[..k])| + 2..]);
  }
}
