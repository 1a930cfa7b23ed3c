// Which field of the payload decides each part of the card information.
module CardFields {
  import opened Basics
  import opened CardInfo

  // A field with a given key, and one with a required length as well.
  function Keyed(key: nat): Field -> bool { (f: Field) => f.key == key }

  function Sized(key: nat, length: nat): Field -> bool { (f: Field) => f.key == key && |f.value| == length }

  // A power field with a code that stands for a wattage.
  function PowerCode(): Field -> bool { (f: Field) => f.key == 0x29 && |f.value| == 1 && f.value[0] in {0, 1, 2, 4} }

  // The last field of a kind.
  function LastField(fields: seq<Field>, kind: Field -> bool): (k: Option<nat>)
    ensures k == None <==> forall i :: 0 <= i < |fields| ==> !kind(fields[i])
    ensures k.Some? ==>
      k.value < |fields| && kind(fields[k.value]) && forall j :: k.value < j < |fields| ==> !kind(fields[j])
  {
    if fields == [] then None
    else if kind(fields[|fields| - 1]) then Some(|fields| - 1)
    else LastField(fields[..|fields| - 1], kind)
  }

  // Where its value starts in the payload, and the value.
  function LastPosition(fields: seq<Field>, kind: Field -> bool): Option<nat>
    requires forall f :: f in fields ==> WellFormed(f)
  {
    match LastField(fields, kind)
    case None => None
    case Some(k) => Some(|Encode(fields[..k])| + 2)
  }

  function LastValue(fields: seq<Field>, kind: Field -> bool): Option<seq<Byte>> {
    match LastField(fields, kind)
    case None => None
    case Some(k) => Some(fields[k].value)
  }

  lemma LastNext(fields: seq<Field>, kind: Field -> bool)
    requires fields != [] && forall f :: f in fields ==> WellFormed(f)
    ensures var n := |fields| - 1;
      && LastPosition(fields, kind)
         == (if kind(fields[n]) then Some(|Encode(fields[..n])| + 2) else LastPosition(fields[..n], kind))
      && LastValue(fields, kind) == if kind(fields[n]) then Some(fields[n].value) else LastValue(fields[..n], kind)
  {
    var n := |fields| - 1;
    hide Encode, WellFormed;
    if !kind(fields[n]) && LastField(fields, kind).Some? {
      var k := LastField(fields, kind).value;
      assert fields[..n][..k] == fields[..k];
    }
  }

  function OptionAt<T>(m: map<nat, T>, n: nat): Option<T> { if n in m then Some(m[n]) else None }

  function ByteOf(value: Option<seq<Byte>>): nat {
    if value.Some? && |value.value| == 1 then value.value[0] else 0
  }

  function WattsOf(value: Option<seq<Byte>>): nat {
    if value.None? then 0
    else if value.value == [0] then 75
    else if value.value == [1] then 150
    else if value.value == [2] then 225
    else 300
  }

  lemma NoFields(kind: Field -> bool)
    ensures Fold([]) == EMPTY && LastPosition([], kind) == None && LastValue([], kind) == None
  {
  }

  // ---- The four texts ----

  lemma ApplyTexts(info: Info, f: Field, at: nat)
    ensures var after := Apply(info, f, at);
      && after.serialNumber == (if Keyed(0x21)(f) then Some(at) else info.serialNumber)
      && after.revision == (if Keyed(0x26)(f) then Some(at) else info.revision)
      && after.name == (if Keyed(0x27)(f) then Some(at) else info.name)
      && after.scVersion == if Keyed(0x28)(f) then Some(at) else info.scVersion
  {
  }

  // The serial number, the revision, the name and the controller version are the values of the last
  // fields with their keys, kept as positions.
  lemma {:induction false} Texts(fields: seq<Field>)
    requires forall f :: f in fields ==> WellFormed(f)
    ensures var info := Fold(fields);
      && info.serialNumber == LastPosition(fields, Keyed(0x21))
      && info.revision == LastPosition(fields, Keyed(0x26))
      && info.name == LastPosition(fields, Keyed(0x27))
      && info.scVersion == LastPosition(fields, Keyed(0x28))
  {
    hide LastPosition, LastValue, Encode, WellFormed, Apply, Keyed;
    if fields == [] {
      NoFields(Keyed(0x21));
      NoFields(Keyed(0x26));
      NoFields(Keyed(0x27));
      NoFields(Keyed(0x28));
    } else {
      var n := |fields| - 1;
      Texts(fields[..n]);
      ApplyTexts(Fold(fields[..n]), fields[n], |Encode(fields[..n])| + 2);
      LastNext(fields, Keyed(0x21));
      LastNext(fields, Keyed(0x26));
      LastNext(fields, Keyed(0x27));
      LastNext(fields, Keyed(0x28));
    }
  }

  // ---- The single bytes ----

  lemma ApplySettings(info: Info, f: Field, at: nat)
    ensures var after := Apply(info, f, at);
      && after.fanPresence == (if Sized(0x2a, 1)(f) then ByteOf(Some(f.value)) else info.fanPresence)
      && after.configMode == (if Sized(0x2b, 1)(f) then ByteOf(Some(f.value)) else info.configMode)
      && after.totalPower == if PowerCode()(f) then WattsOf(Some(f.value)) else info.totalPower
  {
  }

  // The last one-byte fields give fan presence and configuration mode, 0 without one; the last power
  // field with a known code gives the wattage.
  lemma {:induction false} Settings(fields: seq<Field>)
    requires forall f :: f in fields ==> WellFormed(f)
    ensures var info := Fold(fields);
      && info.fanPresence == ByteOf(LastValue(fields, Sized(0x2a, 1)))
      && info.configMode == ByteOf(LastValue(fields, Sized(0x2b, 1)))
      && info.totalPower == WattsOf(LastValue(fields, PowerCode()))
  {
    hide LastPosition, LastValue, Encode, WellFormed, Apply, Sized, PowerCode;
    if fields == [] {
      NoFields(Sized(0x2a, 1));
      NoFields(Sized(0x2b, 1));
      NoFields(PowerCode());
    } else {
      var n := |fields| - 1;
      Settings(fields[..n]);
      ApplySettings(Fold(fields[..n]), fields[n], |Encode(fields[..n])| + 2);
      LastNext(fields, Sized(0x2a, 1));
      LastNext(fields, Sized(0x2b, 1));
      LastNext(fields, PowerCode());
    }
  }

  // ---- Addresses and cages ----

  lemma ApplyBlock(info: Info, f: Field, at: nat)
    ensures var after := Apply(info, f, at);
      if Sized(0x4b, 8)(f) then after.macCount == f.value[0] && after.macBase == f.value[2..8]
      else after.macCount == info.macCount && after.macBase == info.macBase
  {
  }

  // The last 8-byte address block gives the number of addresses and the base address.
  lemma {:induction false} AddressBlock(fields: seq<Field>)
    requires forall f :: f in fields ==> WellFormed(f)
    ensures var info := Fold(fields);
      match LastValue(fields, Sized(0x4b, 8))
      case None => info.macCount == 0 && info.macBase == [0, 0, 0, 0, 0, 0]
      case Some(v) => |v| == 8 && info.macCount == v[0] && info.macBase == v[2..8]
  {
    hide LastPosition, LastValue, Encode, WellFormed, Apply;
    if fields == [] {
      NoFields(Sized(0x4b, 8));
    } else {
      var n := |fields| - 1;
      AddressBlock(fields[..n]);
      ApplyBlock(Fold(fields[..n]), fields[n], |Encode(fields[..n])| + 2);
      LastNext(fields, Sized(0x4b, 8));
    }
  }

  lemma ApplyNumbered(info: Info, f: Field, at: nat, n: nat)
    ensures var after := Apply(info, f, at);
      && OptionAt(after.macs, n) == (if n < 4 && Sized(0x22 + n, 18)(f) then Some(at) else OptionAt(info.macs, n))
      && OptionAt(after.cages, n)
         == (if n < 4 && Sized(0x50 + n, 1)(f) then Some(ByteOf(Some(f.value))) else OptionAt(info.cages, n))
      && (info.macValid == info.macs.Keys ==> after.macValid == after.macs.Keys)
      && (info.cageValid == info.cages.Keys ==> after.cageValid == after.cages.Keys)
  {
  }

  // The last 18-byte field of each of the four legacy addresses gives its text, the last one-byte field
  // of each of the four cages its type, and exactly those that have one are marked valid.
  lemma {:induction false} Numbered(fields: seq<Field>, n: nat)
    requires forall f :: f in fields ==> WellFormed(f)
    ensures var info, cage := Fold(fields), LastValue(fields, Sized(0x50 + n, 1));
      && OptionAt(info.macs, n) == (if n < 4 then LastPosition(fields, Sized(0x22 + n, 18)) else None)
      && OptionAt(info.cages, n) == (if n < 4 && cage.Some? then Some(ByteOf(cage)) else None)
      && info.macValid == info.macs.Keys && info.cageValid == info.cages.Keys
  {
    hide LastPosition, LastValue, Encode, WellFormed, Apply, Sized, ByteOf, OptionAt;
    if fields == [] {
      NoFields(Sized(0x22 + n, 18));
      NoFields(Sized(0x50 + n, 1));
      NoneEmpty(n);
    } else {
      var k := |fields| - 1;
      Numbered(fields[..k], n);
      ApplyNumbered(Fold(fields[..k]), fields[k], |Encode(fields[..k])| + 2, n);
      LastNext(fields, Sized(0x22 + n, 18));
      LastNext(fields, Sized(0x50 + n, 1));
    }
  }

  lemma NoneEmpty(n: nat)
    ensures OptionAt(EMPTY.macs, n) == None && OptionAt(EMPTY.cages, n) == None
  {
  }
}
