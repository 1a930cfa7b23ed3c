// What one field of a format string says, for every text a field can be: its type and priority by its
// letter, its width by its digits, and which texts are no field.
module FieldLetters {
  import opened Basics
  import opened FormatString
  import opened Rules
  import Arith

  function Pow10(n: nat): nat { if n == 0 then 1 else 10 * Pow10(n - 1) }

  lemma NextPlace(k: nat, n: nat)
    ensures 10 * (k * Pow10(n)) == k * Pow10(n + 1)
  {
  }

  // Digits count by place, the first one most.
  lemma {:induction false} FirstDigit(d: char, digits: string)
    requires IsDigit(d) && forall i :: 0 <= i < |digits| ==> IsDigit(digits[i])
    ensures DecimalValue([d] + digits) == (d as int - '0' as int) * Pow10(|digits|) + DecimalValue(digits)
  {
    hide Pow10;
    if digits == [] {
      assert [d] + digits == [d] && [d][..0] == [] && DecimalValue([d]) == d as int - '0' as int;
      assert Pow10(0) == 1 by { PlaceOne(); }
    } else {
      var n := |digits| - 1;
      FirstDigit(d, digits[..n]);
      NextPlace(d as int - '0' as int, n);
      assert ([d] + digits)[..n + 1] == [d] + digits[..n] && ([d] + digits)[n + 1] == digits[n];
    }
  }

  lemma PlaceOne()
    ensures Pow10(0) == 1
  {
  }

  predicate AllDigits(s: string) { forall i :: 0 <= i < |s| ==> s[i] in "0123456789" }

  // Space, tab, line feed, vertical tab, form feed and carriage return.
  predicate Blank(s: string) {
    forall i :: 0 <= i < |s| ==> s[i] as int in {32, 9, 10, 11, 12, 13}
  }

  lemma CharacterClasses(c: char)
    ensures IsDigit(c) <==> c in "0123456789"
    ensures IsSpace(c) <==> c as int in {32, 9, 10, 11, 12, 13}
  {
  }

  lemma {:induction false} BlanksSkipped(blank: string, s: string)
    requires Blank(blank) && (s == [] || !IsSpace(s[0]))
    ensures SkipSpaces(blank + s) == s
  {
    if blank == [] {
      assert blank + s == s;
    } else {
      BlanksSkipped(blank[1..], s);
      assert (blank + s)[1..] == blank[1..] + s;
    }
  }

  lemma {:induction false} DigitsCounted(digits: string, rest: string)
    requires AllDigits(digits) && (rest == [] || !IsDigit(rest[0]))
    ensures CountDigits(digits + rest) == |digits|
  {
    if digits == [] {
      assert digits + rest == rest;
    } else {
      DigitsCounted(digits[1..], rest);
      assert (digits + rest)[1..] == digits[1..] + rest;
    }
  }

  // A sign is taken off, and nothing else.
  lemma SignTaken(text: string, sign: string, t: string)
    requires sign in {"", "+", "-"} && SkipSpaces(text) == sign + t
    requires sign == "" && t != [] ==> t[0] !in {'+', '-'}
    ensures FieldOf(text) == FieldOfDigits(sign == "-", t)
  {
    hide SkipSpaces, FieldOfDigits;
    if sign == "" { assert sign + t == t; } else { assert (sign + t)[1..] == t; }
  }

  lemma Regrouped(blank: string, sign: string, digits: string, rest: string)
    ensures blank + sign + digits + rest == blank + (sign + (digits + rest))
  {
  }

  // A text in its parts: blanks, a sign or none, digits, and what follows them.
  lemma FieldInParts(blank: string, sign: string, digits: string, rest: string)
    requires Blank(blank) && sign in {"", "+", "-"} && AllDigits(digits) && (rest == [] || !IsDigit(rest[0]))
    requires digits == [] && sign == "" && rest != [] ==> !IsSpace(rest[0]) && rest[0] !in {'+', '-'}
    ensures FieldOf(blank + sign + digits + rest) == FieldOfDigits(sign == "-", digits + rest)
    ensures CountDigits(digits + rest) == |digits| && (digits + rest)[..|digits|] == digits
  {
    var t := digits + rest;
    DigitsCounted(digits, rest);
    Regrouped(blank, sign, digits, rest);
    StartsPlain(sign, digits, rest);
    hide *;
    BlanksSkipped(blank, sign + t);
    SignTaken(blank + (sign + t), sign, t);
  }

  lemma StartsPlain(sign: string, digits: string, rest: string)
    requires sign in {"", "+", "-"} && AllDigits(digits) && (rest == [] || !IsDigit(rest[0]))
    requires digits == [] && sign == "" && rest != [] ==> !IsSpace(rest[0]) && rest[0] !in {'+', '-'}
    ensures var t := digits + rest;
      && (sign + t == [] || !IsSpace((sign + t)[0]))
      && (sign == "" && t != [] ==> t[0] !in {'+', '-'})
  {
    var t := digits + rest;
    assert t != [] ==> t[0] == if digits == [] then rest[0] else digits[0];
    if sign == "" { assert sign + t == t; }
  }

  // A field with digits and a letter: type and priority are the letter's, whatever follows it.
  lemma LetterDecides(blank: string, sign: string, digits: string, letter: char, rest: string)
    requires Blank(blank) && sign in {"", "+", "-"} && AllDigits(digits) && digits != [] && !IsDigit(letter)
    ensures var f := FieldOf(blank + sign + digits + ([letter] + rest));
      && (letter == 'b' ==> f.ty == Bitfield && !NeedsPriority(f))
      && (letter == 'c' ==> f.ty == Constant && !NeedsPriority(f))
      && (letter == 'p' ==> f.ty == PrefixField && NeedsPriority(f))
      && (letter == 'r' ==> f.ty == RangeField && NeedsPriority(f))
      && (letter == 't' ==> f.ty == Ternary && NeedsPriority(f))
      && (letter == 'u' ==> f.ty == Unused && !NeedsPriority(f))
      && (letter !in "bcprtu" ==> f == FieldSpec(Invalid, 0))
  {
    FieldInParts(blank, sign, digits, [letter] + rest);
    assert (digits + ([letter] + rest))[|digits|] == letter;
  }

  lemma LowHalf(n: int)
    ensures n % TWO_TO_THE_32 % TWO_TO_THE_16 == n % TWO_TO_THE_16
  {
    var q, r := n / TWO_TO_THE_32, n % TWO_TO_THE_32;
    Arith.DivModUnique(n, q * TWO_TO_THE_16 + r / TWO_TO_THE_16, r % TWO_TO_THE_16, TWO_TO_THE_16);
  }

  lemma ScannedWidth(negative: bool, v: nat)
    ensures ScannedUnsigned(negative, v) % TWO_TO_THE_16
         == if v >= TWO_TO_THE_64 then TWO_TO_THE_16 - 1
            else if negative then (TWO_TO_THE_16 - v % TWO_TO_THE_16) % TWO_TO_THE_16 else v % TWO_TO_THE_16
  {
    LowHalf(v);
    LowHalf(TWO_TO_THE_64 - v);
    var q, r := v / TWO_TO_THE_16, v % TWO_TO_THE_16;
    var top := TWO_TO_THE_64 / TWO_TO_THE_16;
    if r == 0 {
      Arith.DivModUnique(TWO_TO_THE_64 - v, top - q, 0, TWO_TO_THE_16);
    } else {
      Arith.DivModUnique(TWO_TO_THE_64 - v, top - q - 1, TWO_TO_THE_16 - r, TWO_TO_THE_16);
    }
  }

  lemma WidthOfParts(negative: bool, digits: string, letter: char, rest: string)
    requires AllDigits(digits) && digits != [] && letter in "bcprtu"
    requires CountDigits(digits + ([letter] + rest)) == |digits|
    requires (digits + ([letter] + rest))[..|digits|] == digits
    ensures FieldOfDigits(negative, digits + ([letter] + rest)).bits
         == ScannedUnsigned(negative, DecimalValue(digits)) % TWO_TO_THE_16
  {
    assert (digits + ([letter] + rest))[|digits|] == letter && TypeOf(letter) != Invalid;
    hide DecimalValue, ScannedUnsigned, CountDigits, TypeOf;
  }

  // Its width is the number, modulo 2^16; a negative one counts down from 2^16, and one too large for
  // the scanner is 65535.
  lemma DigitsDecide(blank: string, sign: string, digits: string, letter: char, rest: string)
    requires Blank(blank) && sign in {"", "+", "-"} && AllDigits(digits) && digits != [] && letter in "bcprtu"
    ensures FieldOf(blank + sign + digits + ([letter] + rest)).bits
         == if DecimalValue(digits) >= TWO_TO_THE_64 then TWO_TO_THE_16 - 1
            else if sign == "-" then (TWO_TO_THE_16 - DecimalValue(digits) % TWO_TO_THE_16) % TWO_TO_THE_16
            else DecimalValue(digits) % TWO_TO_THE_16
  {
    hide FieldOf, FieldOfDigits, CountDigits, DecimalValue, ScannedUnsigned;
    FieldInParts(blank, sign, digits, [letter] + rest);
    WidthOfParts(sign == "-", digits, letter, rest);
    ScannedWidth(sign == "-", DecimalValue(digits));
  }

  // No digits, or nothing behind them: no field.
  lemma NoField(blank: string, sign: string, digits: string, rest: string)
    requires Blank(blank) && sign in {"", "+", "-"} && AllDigits(digits) && (rest == [] || !IsDigit(rest[0]))
    requires digits == [] && sign == "" && rest != [] ==> !IsSpace(rest[0]) && rest[0] !in {'+', '-'}
    requires digits == [] || rest == []
    ensures FieldOf(blank + sign + digits + rest) == FieldSpec(Invalid, 0)
  {
    FieldInParts(blank, sign, digits, rest);
  }
}
