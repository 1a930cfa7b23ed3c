// The hardware format string of a table ("16b:32p:8u"), which lists the key fields from least to
// most significant, and its parser.
module FormatString {
  import opened Basics
  import opened FieldVector
  import opened MatchPack
  import opened Rules
  import Bits

  // ---- One field: sscanf(field, "%u%c") and the type letter ----

  predicate IsSpace(c: char) { c in [' ', '\t', '\n', '\r', 11 as char, 12 as char] }

  predicate IsDigit(c: char) { '0' <= c <= '9' }

  function SkipSpaces(s: string): string {
    if s != [] && IsSpace(s[0]) then SkipSpaces(s[1..]) else s
  }

  function CountDigits(s: string): (n: nat)
    ensures n <= |s| && (forall i :: 0 <= i < n ==> IsDigit(s[i]))
    ensures n < |s| ==> !IsDigit(s[n])
  {
    if s != [] && IsDigit(s[0]) then 1 + CountDigits(s[1..]) else 0
  }

  function DecimalValue(s: string): nat
    requires forall i :: 0 <= i < |s| ==> IsDigit(s[i])
  {
    if s == [] then 0
    else
      var last := s[|s| - 1];
      assert IsDigit(last);
      10 * DecimalValue(s[..|s| - 1]) + (last as int - '0' as int)
  }

  // The library converts through an unsigned long that saturates, negates after the conversion,
  // and truncates to the 32-bit destination.
  function ScannedUnsigned(negative: bool, v: nat): nat {
    var wide :=
      if v >= TWO_TO_THE_64 then TWO_TO_THE_64 - 1
      else if negative then (TWO_TO_THE_64 - v) % TWO_TO_THE_64
      else v;
    wide % TWO_TO_THE_32
  }

  function TypeOf(c: char): MatchType {
    match c
    case 'b' => Bitfield
    case 'c' => Constant
    case 'p' => PrefixField
    case 'r' => RangeField
    case 't' => Ternary
    case 'u' => Unused
    case _ => Invalid
  }

  function FieldOf(text: string): FieldSpec {
    var s := SkipSpaces(text);
    if s != [] && (s[0] == '-' || s[0] == '+') then FieldOfDigits(s[0] == '-', s[1..])
    else FieldOfDigits(false, s)
  }

  // Both conversions must succeed, and the letter must be known.
  function FieldOfDigits(negative: bool, digits: string): FieldSpec {
    var n := CountDigits(digits);
    if n == 0 || n == |digits| || TypeOf(digits[n]) == Invalid then FieldSpec(Invalid, 0)
    else FieldSpec(TypeOf(digits[n]), ScannedUnsigned(negative, DecimalValue(digits[..n])) % TWO_TO_THE_16)
  }

  predicate NeedsPriority(spec: FieldSpec) { spec.ty in {PrefixField, RangeField, Ternary} }

  // ---- Splitting at the separators ----

  function Seps(s: string): nat {
    if s == [] then 0 else (if s[0] == ':' then 1 else 0) + Seps(s[1..])
  }

  function Cut(s: string): (k: nat)
    ensures k <= |s| && (forall i :: 0 <= i < k ==> s[i] != ':') && (k < |s| ==> s[k] == ':')
  {
    if s == [] || s[0] == ':' then 0 else 1 + Cut(s[1..])
  }

  function Pieces(s: string): (ps: seq<string>)
    ensures |ps| >= 1
  {
    var k := Cut(s);
    if k == |s| then [s] else [s[..k]] + Pieces(s[k + 1..])
  }

  lemma {:induction false} SepsSkip(s: string, k: nat)
    requires k <= |s| && forall i :: 0 <= i < k ==> s[i] != ':'
    ensures Seps(s) == Seps(s[k..])
  {
    if k > 0 {
      SepsSkip(s[1..], k - 1);
      assert s[1..][k - 1..] == s[k..];
    } else {
      assert s[0..] == s;
    }
  }

  // Pass 1 counts exactly the pieces that pass 2 takes off.
  lemma {:induction false} PiecesCount(s: string)
    ensures |Pieces(s)| == Seps(s) + 1
    decreases |s|
  {
    var k := Cut(s);
    SepsSkip(s, k);
    if k < |s| {
      PiecesCount(s[k + 1..]);
      assert s[k..][1..] == s[k + 1..];
    }
  }

  // strsep: the text up to the next separator, and the cursor behind it.
  method StrSep(cursor: Option<string>) returns (field: Option<string>, next: Option<string>)
    ensures cursor == None ==> field == None && next == None
    ensures cursor.Some? ==> field == Some(Pieces(cursor.value)[0])
    ensures cursor.Some? && |Pieces(cursor.value)| == 1 ==> next == None
    ensures cursor.Some? && |Pieces(cursor.value)| > 1 ==>
      next.Some? && Pieces(next.value) == Pieces(cursor.value)[1..]
  {
    if cursor == None {
      return None, None;
    }
    var s := cursor.value;
    var k := Cut(s);
    assert Pieces(s) == if k == |s| then [s] else [s[..k]] + Pieces(s[k + 1..]);
    hide Pieces, Cut;
    if k == |s| {
      return Some(s), None;
    }
    return Some(s[..k]), Some(s[k + 1..]);
  }

  // ---- The parser ----

  // The number of fields pass 1 arrives at in its 16-bit counter.
  function FieldCount(fmt: string): nat {
    if fmt == [] then 0 else (1 + Seps(fmt)) % TWO_TO_THE_16
  }

  method CountFields(fmt: string) returns (numMatches: nat)
    ensures numMatches == FieldCount(fmt)
  {
    if fmt == [] {
      return 0;
    }
    numMatches := 1;
    assert fmt[0..] == fmt;
    for i := 0 to |fmt|
      invariant Seps(fmt[i..]) <= Seps(fmt)
      invariant numMatches == (1 + Seps(fmt) - Seps(fmt[i..])) % TWO_TO_THE_16
    {
      assert fmt[i..][1..] == fmt[i + 1..];
      if fmt[i] == ':' {
        numMatches := (numMatches + 1) % TWO_TO_THE_16;
      }
    }
  }

  // The parsed fields, in the order of the format string.
  function FieldsOf(pieces: seq<string>): (fs: seq<FieldSpec>)
    ensures |fs| == |pieces| && forall i :: 0 <= i < |fs| ==> fs[i] == FieldOf(pieces[i])
  {
    seq(|pieces|, i requires 0 <= i < |pieces| => FieldOf(pieces[i]))
  }

  predicate AnyPriority(fs: seq<FieldSpec>) { exists i :: 0 <= i < |fs| && NeedsPriority(fs[i]) }

  function Reversed(specs: seq<FieldSpec>): (r: seq<FieldSpec>)
    ensures |r| == |specs| && forall i :: 0 <= i < |r| ==> r[i] == specs[|specs| - 1 - i]
  {
    seq(|specs|, i requires 0 <= i < |specs| => specs[|specs| - 1 - i])
  }

  method GetMatches(fmt: string, matches: array<FieldSpec>)
    returns (rc: Status, numMatches: nat, priorityRequired: bool)
    modifies matches
    ensures numMatches == FieldCount(fmt) <= |Pieces(fmt)|
    ensures rc == if numMatches > matches.Length then InfoTooManyMatches else Ok
    ensures rc != Ok ==> matches[..] == old(matches[..])
    ensures rc == Ok ==> forall k :: 0 <= k < numMatches ==>
      matches[k] == FieldsOf(Pieces(fmt))[numMatches - 1 - k]
    ensures forall k :: numMatches <= k < matches.Length ==> matches[k] == old(matches[k])
    ensures rc == Ok ==> (priorityRequired <==> AnyPriority(FieldsOf(Pieces(fmt))[..numMatches]))
  {
    priorityRequired := false;
    PiecesCount(fmt);
    numMatches := CountFields(fmt);
    if numMatches > matches.Length {
      return InfoTooManyMatches, numMatches, priorityRequired;
    }
    ghost var fields := FieldsOf(Pieces(fmt));
    priorityRequired := ParseFields(fmt, numMatches, matches, FieldOf);
    assert forall j :: 0 <= j < numMatches ==> fields[..numMatches][j] == FieldOf(Pieces(fmt)[j]);
    return Ok, numMatches, priorityRequired;
  }

  lemma NextPiece(pieces: seq<string>, i: nat)
    requires i < |pieces|
    ensures pieces[i..][0] == pieces[i] && pieces[i..][1..] == pieces[i + 1..]
  {
  }

  // Pass 2 after i of n fields: they stand at the end of the first n entries, last one first.
  ghost predicate FieldsRead(was: seq<FieldSpec>, now: seq<FieldSpec>, pieces: seq<string>, scan: string -> FieldSpec,
      n: nat, i: nat, priority: bool)
  {
    && i <= n <= |pieces| && n <= |was| == |now|
    && (forall k :: n - i <= k < n ==> now[k] == scan(pieces[n - 1 - k]))
    && (forall k :: n <= k < |now| ==> now[k] == was[k])
    && (priority <==> exists j :: 0 <= j < i && NeedsPriority(scan(pieces[j])))
  }

  lemma FieldsReadNext(was: seq<FieldSpec>, now: seq<FieldSpec>, pieces: seq<string>, scan: string -> FieldSpec,
      n: nat, i: nat, priority: bool)
    requires i < n && FieldsRead(was, now, pieces, scan, n, i, priority)
    ensures n <= |now| && i < |pieces|
    ensures FieldsRead(was, now[n - 1 - i := scan(pieces[i])], pieces, scan, n, i + 1,
                       priority || NeedsPriority(scan(pieces[i])))
  {
  }

  // Pass 2, for the field scanner in use.
  method ParseFields(fmt: string, numMatches: nat, matches: array<FieldSpec>, scan: string -> FieldSpec)
    returns (priorityRequired: bool)
    requires numMatches <= matches.Length && numMatches <= |Pieces(fmt)|
    modifies matches
    ensures forall k :: 0 <= k < numMatches ==> matches[k] == scan(Pieces(fmt)[numMatches - 1 - k])
    ensures forall k :: numMatches <= k < matches.Length ==> matches[k] == old(matches[k])
    ensures priorityRequired <==> exists j :: 0 <= j < numMatches && NeedsPriority(scan(Pieces(fmt)[j]))
  {
    priorityRequired := false;
    ghost var pieces := Pieces(fmt);
    var cursor := Some(fmt);
    assert pieces[0..] == pieces;
    for i := 0 to numMatches
      invariant i < |pieces| ==> cursor.Some? && Pieces(cursor.value) == pieces[i..]
      invariant FieldsRead(old(matches[..]), matches[..], pieces, scan, numMatches, i, priorityRequired)
    {
      hide *;
      FieldsReadNext(old(matches[..]), matches[..], pieces, scan, numMatches, i, priorityRequired);
      NextPiece(pieces, i);
      var fieldFmt;
      fieldFmt, cursor := StrSep(cursor);
      if fieldFmt == None {
        // The parser's answer to running out of fields.
        assert false;
      } else {
        var spec := scan(fieldFmt.value);
        matches[numMatches - 1 - i] := spec;
        if NeedsPriority(spec) {
          priorityRequired := true;
        }
      }
    }
  }

  // ---- The printer ----

  function Decimal(n: nat): string {
    if n < 10 then [('0' as nat + n) as char] else Decimal(n / 10) + [('0' as nat + n % 10) as char]
  }

  function Letter(ty: MatchType): char {
    match ty
    case Bitfield => 'b'
    case Constant => 'c'
    case PrefixField => 'p'
    case RangeField => 'r'
    case Ternary => 't'
    case Unused => 'u'
    case Invalid => '?'
  }

  function Text(spec: FieldSpec): string { Decimal(spec.bits) + [Letter(spec.ty)] }

  function Render(specs: seq<FieldSpec>): string {
    if specs == [] then ""
    else if |specs| == 1 then Text(specs[0])
    else Text(specs[0]) + ":" + Render(specs[1..])
  }

  predicate WellFormed(specs: seq<FieldSpec>) {
    forall i :: 0 <= i < |specs| ==> specs[i].ty != Invalid && specs[i].bits < TWO_TO_THE_16
  }

  lemma {:induction false} DecimalDigits(n: nat)
    ensures Decimal(n) != [] && forall i :: 0 <= i < |Decimal(n)| ==> IsDigit(Decimal(n)[i])
    ensures DecimalValue(Decimal(n)) == n
  {
    if n >= 10 {
      DecimalDigits(n / 10);
      assert Decimal(n)[..|Decimal(n)| - 1] == Decimal(n / 10);
    } else {
      assert Decimal(n)[..0] == [];
    }
  }

  lemma {:induction false} CountDigitsOf(d: string, c: char)
    requires (forall i :: 0 <= i < |d| ==> IsDigit(d[i])) && !IsDigit(c)
    ensures CountDigits(d + [c]) == |d|
  {
    if d != [] {
      CountDigitsOf(d[1..], c);
      assert (d + [c])[1..] == d[1..] + [c];
    }
  }

  // Text that starts with a digit has neither leading space nor sign.
  lemma NoPreamble(text: string)
    requires text != [] && IsDigit(text[0])
    ensures SkipSpaces(text) == text && text[0] != '-' && text[0] != '+'
  {
  }

  lemma TypeIsNoDigit(c: char)
    requires TypeOf(c) != Invalid
    ensures !IsDigit(c)
  {
  }

  // Plain digits and a type letter scan to their value and type.
  lemma DigitsScan(d: string, c: char)
    requires d != [] && (forall i :: 0 <= i < |d| ==> IsDigit(d[i])) && TypeOf(c) != Invalid
    ensures FieldOfDigits(false, d + [c])
         == FieldSpec(TypeOf(c), ScannedUnsigned(false, DecimalValue(d)) % TWO_TO_THE_16)
  {
    var text := d + [c];
    TypeIsNoDigit(c);
    CountDigitsOf(d, c);
    assert text[..|d|] == d && text[|d|] == c;
  }

  // Text that starts with a digit is scanned as it stands.
  lemma NoSign(text: string)
    requires text != [] && IsDigit(text[0])
    ensures FieldOf(text) == FieldOfDigits(false, text)
  {
    NoPreamble(text);
  }

  lemma LetterType(ty: MatchType)
    requires ty != Invalid
    ensures TypeOf(Letter(ty)) == ty && Letter(ty) != ':'
  {
  }

  lemma TextParses(spec: FieldSpec)
    requires spec.ty != Invalid && spec.bits < TWO_TO_THE_16
    ensures FieldOf(Text(spec)) == spec
    ensures forall i :: 0 <= i < |Text(spec)| ==> Text(spec)[i] != ':'
  {
    var d := Decimal(spec.bits);
    DecimalDigits(spec.bits);
    LetterType(spec.ty);
    DigitsScan(d, Letter(spec.ty));
    assert Text(spec)[0] == d[0];
    NoSign(Text(spec));
    assert ScannedUnsigned(false, spec.bits) == spec.bits;
    forall i | 0 <= i < |Text(spec)| ensures Text(spec)[i] != ':' {
      if i < |d| { assert IsDigit(d[i]); }
    }
  }

  lemma {:induction false} CutAt(s: string, k: nat)
    requires k <= |s| && (forall i :: 0 <= i < k ==> s[i] != ':') && (k < |s| ==> s[k] == ':')
    ensures Cut(s) == k
  {
    if k > 0 { CutAt(s[1..], k - 1); }
  }

  function Texts(specs: seq<FieldSpec>): (ts: seq<string>)
    ensures |ts| == |specs| && forall i :: 0 <= i < |ts| ==> ts[i] == Text(specs[i])
  {
    seq(|specs|, i requires 0 <= i < |specs| => Text(specs[i]))
  }

  // A text without separators is one piece, and the first piece of what it is put in front of.
  lemma PiecesOfText(t: string, rest: string)
    requires forall i :: 0 <= i < |t| ==> t[i] != ':'
    ensures Pieces(t) == [t] && Pieces(t + ":" + rest) == [t] + Pieces(rest)
  {
    var s := t + ":" + rest;
    CutAt(t, |t|);
    CutAt(s, |t|);
    assert s[..|t|] == t && s[|t| + 1..] == rest;
  }

  lemma {:induction false} PiecesOfRender(specs: seq<FieldSpec>)
    requires specs != [] && WellFormed(specs)
    ensures Render(specs) != []
    ensures Pieces(Render(specs)) == Texts(specs)
  {
    hide Pieces, Cut, Decimal, FieldOf;
    TextParses(specs[0]);
    if |specs| > 1 {
      PiecesOfText(Text(specs[0]), Render(specs[1..]));
      PiecesOfRender(specs[1..]);
      assert Texts(specs) == [Text(specs[0])] + Texts(specs[1..]);
    } else {
      PiecesOfText(Text(specs[0]), "");
    }
  }

  lemma FieldsOfTexts(specs: seq<FieldSpec>)
    requires WellFormed(specs)
    ensures FieldsOf(Texts(specs)) == specs
  {
    forall i | 0 <= i < |specs| ensures FieldsOf(Texts(specs))[i] == specs[i] {
      TextParses(specs[i]);
    }
  }

  lemma RenderCount(specs: seq<FieldSpec>)
    requires specs != [] && WellFormed(specs) && |specs| < TWO_TO_THE_16
    ensures FieldCount(Render(specs)) == |specs| == |Pieces(Render(specs))|
  {
    PiecesOfRender(specs);
    PiecesCount(Render(specs));
  }

  // The parser undoes the printer, for every field list the 16-bit counter can hold.
  lemma ParserUndoesPrinter(specs: seq<FieldSpec>)
    requires specs != [] && WellFormed(specs) && |specs| < TWO_TO_THE_16
    ensures FieldCount(Render(specs)) == |specs| == |Pieces(Render(specs))|
    ensures FieldsOf(Pieces(Render(specs))) == specs
  {
    RenderCount(specs);
    PiecesOfRender(specs);
    FieldsOfTexts(specs);
  }

  // The 16-bit counter is right exactly below 65536 fields.
  lemma FieldCountExact(fmt: string)
    requires fmt != []
    ensures FieldCount(fmt) == |Pieces(fmt)| <==> |Pieces(fmt)| < TWO_TO_THE_16
  {
    PiecesCount(fmt);
  }

  function Colons(n: nat): string { if n == 0 then "" else ":" + Colons(n - 1) }

  lemma {:induction false} SepsOfColons(n: nat)
    ensures Seps(Colons(n)) == n
  {
    if n > 0 {
      SepsOfColons(n - 1);
      assert Colons(n)[1..] == Colons(n - 1);
    }
  }

  // With 65535 separators the counter is back at 0: none of the 65536 fields is parsed.
  lemma FieldCountWraps(fmt: string)
    requires fmt == Colons(TWO_TO_THE_16 - 1)
    ensures |Pieces(fmt)| == TWO_TO_THE_16 && FieldCount(fmt) == 0
  {
    SepsOfColons(TWO_TO_THE_16 - 1);
    PiecesCount(fmt);
  }

  // ---- Placement of the fields in the packed key ----

  lemma {:induction false} TotalFront(w: nat, ws: seq<nat>)
    ensures Total([w] + ws) == w + Total(ws)
  {
    if ws == [] {
      assert ([w] + ws)[..0] == [];
    } else {
      TotalFront(w, ws[..|ws| - 1]);
      assert ([w] + ws)[..|ws|] == [w] + ws[..|ws| - 1];
    }
  }

  lemma {:induction false} TotalReversed(specs: seq<FieldSpec>)
    ensures Total(Widths(Reversed(specs))) == Total(Widths(specs))
  {
    if specs != [] {
      var n := |specs| - 1;
      TotalReversed(specs[..n]);
      assert Widths(Reversed(specs)) == [specs[n].bits] + Widths(Reversed(specs[..n]));
      TotalFront(specs[n].bits, Widths(Reversed(specs[..n])));
      assert Widths(specs)[..n] == Widths(specs[..n]);
    }
  }

  // Field i of the list f0, f1, ... sits in a key and a mask directly above fields f0 to fi-1, counted
  // from the least significant bit; the user's list of matches runs the other way.
  predicate Placed(key: nat, mask: nat, fields: seq<FieldSpec>, matches: seq<Match>, i: nat)
    requires i < |fields| == |matches|
  {
    var at, m := Total(Widths(fields[..i])), matches[|matches| - 1 - i];
    && Bits.Low(Bits.Shr(key, at), fields[i].bits) == UserKey(m)
    && Bits.Low(Bits.Shr(mask, at), fields[i].bits) == UserMask(m, fields[i])
  }

  // Packing a reversed field list places every field.
  lemma BitPlacement(fields: seq<FieldSpec>, matches: seq<Match>, i: nat)
    requires i < |fields| && Accepted(matches, Reversed(fields))
    ensures Placed(PackedKey(matches, Reversed(fields)), PackedMask(matches, Reversed(fields)), fields, matches, i)
  {
    var specs := Reversed(fields);
    var j := |fields| - 1 - i;
    AcceptedFits(matches, specs);
    FieldAt(Keys(matches), Widths(specs), j);
    FieldAt(Masks(matches, specs), Widths(specs), j);
    assert Widths(specs)[j + 1..] == Widths(Reversed(fields[..i]));
    TotalReversed(fields[..i]);
  }

  lemma ReversedIs(specs: seq<FieldSpec>, fields: seq<FieldSpec>)
    requires |specs| == |fields| && forall k :: 0 <= k < |specs| ==> specs[k] == fields[|specs| - 1 - k]
    ensures specs == Reversed(fields)
  {
  }

  // End to end, from the format string through the field list the parser leaves in its array to the
  // packed key and mask: with fewer than 65536 fields, every field is where the string puts it.
  method CompileKey(fmt: string, infos: array<FieldSpec>, matches: seq<Match>)
    returns (rc: Status, key: nat, mask: nat)
    requires fmt != [] && |matches| == |Pieces(fmt)| < TWO_TO_THE_16
    modifies infos
    ensures |matches| > infos.Length <==> rc == InfoTooManyMatches
    ensures rc == Ok ==> forall i :: 0 <= i < |matches| ==>
      Placed(key, mask, FieldsOf(Pieces(fmt)), matches, i)
  {
    key, mask := 0, 0;
    FieldCountExact(fmt);
    var num, priority;
    rc, num, priority := GetMatches(fmt, infos);
    if rc != Ok {
      return;
    }
    var specs, fields := infos[..num], FieldsOf(Pieces(fmt));
    ReversedIs(specs, fields);
    hide *;
    rc, key, mask := PackFields(specs, matches);
    FieldCodes(matches, specs);
    FieldsVerdictOk(matches, specs);
    if rc == Ok {
      forall i | 0 <= i < |matches| ensures Placed(key, mask, fields, matches, i) {
        BitPlacement(fields, matches, i);
      }
    }
  }

  // ---- Action parameters ----

  // A sum kept in 16 bits is right exactly below 65536.
  lemma SumExact(total: nat)
    ensures total % TWO_TO_THE_16 == total <==> total < TWO_TO_THE_16
  {
  }

  // Adding modulo 2^16 step by step is adding modulo 2^16 at the end.
  lemma SumStep(sum: nat, width: nat)
    ensures (sum % TWO_TO_THE_16 + width) % TWO_TO_THE_16 == (sum + width) % TWO_TO_THE_16
  {
  }

  // The parameter widths of an action, truncated to 16 bits, and their sum in a 16-bit counter.
  method GetParams(values: seq<nat>, params: array<ParamSpec>)
    returns (rc: Status, numParams: nat, paramBits: nat)
    modifies params
    ensures rc == if |values| > params.Length then InfoTooManyParams else Ok
    ensures rc != Ok ==> params[..] == old(params[..])
    ensures rc == Ok ==> numParams == |values| && paramBits == Total(values) % TWO_TO_THE_16
    ensures rc == Ok ==> forall i :: 0 <= i < |values| ==> params[i].bits == values[i] % TWO_TO_THE_16
  {
    numParams, paramBits := 0, 0;
    if |values| > params.Length {
      return InfoTooManyParams, numParams, paramBits;
    }
    numParams := |values|;
    for i := 0 to |values|
      invariant paramBits == Total(values[..i]) % TWO_TO_THE_16
      invariant forall j :: 0 <= j < i ==> params[j].bits == values[j] % TWO_TO_THE_16
    {
      params[i] := ParamSpec(values[i] % TWO_TO_THE_16);
      assert values[..i + 1][..i] == values[..i];
      SumStep(Total(values[..i]), values[i]);
      paramBits := (paramBits + values[i]) % TWO_TO_THE_16;
    }
    assert values[..|values|] == values;
    return Ok, numParams, paramBits;
  }
}
