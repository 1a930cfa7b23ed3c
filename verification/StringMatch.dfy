// The string matcher of metric filters: mutually recursive over split parts, with early exits.
module StringMatch {

  // The regular-expression library: whole-string matching and the token split.
  datatype RegexLib = RegexLib(matches: (Regexp, string) -> bool, tokens: (string, string) -> seq<string>)

  datatype Grammar = EcmaScript | BasicPosix | ExtendedPosix | Awk | Grep | Egrep

  datatype Regexp = Regexp(pattern: string, grammar: Grammar)

  datatype StringMatch =
    | Exact(exact: string)
    | Prefix(prefix: string)
    | Suffix(suffix: string)
    | Substring(substring: string)
    | ByRegexp(regexp: Regexp)
    | Split(pattern: string, part: Part, any: bool)
    | NoMethod

  datatype Part = Part(term: PartTerm, negated: bool)

  datatype PartTerm =
    | ByValue(value: StringMatch)
    | ByIndex(index: nat)
    | NoAttribute
    | PartAny(anyOf: seq<Part>)
    | PartAll(allOf: seq<Part>)
    | NoPartTerm

  predicate OccursAt(s: string, sub: string, i: nat) {
    i + |sub| <= |s| && s[i..i + |sub|] == sub
  }

  predicate HasSubstring(s: string, sub: string) {
    exists i :: 0 <= i <= |s| && OccursAt(s, sub, i)
  }

  // The meaning of a match: quantifiers in place of loops.
  predicate Holds(lib: RegexLib, m: StringMatch, s: string)
    decreases m
  {
    match m
    case Exact(e) => e == s
    case Prefix(p) => p <= s
    case Suffix(x) => |x| <= |s| && s[|s| - |x|..] == x
    case Substring(sub) => HasSubstring(s, sub)
    case ByRegexp(re) => lib.matches(re, s)
    case Split(pattern, part, any) =>
      var tokens := lib.tokens(s, pattern);
      if any then exists k :: 0 <= k < |tokens| && PartHolds(lib, part, tokens[k], k)
      else |tokens| > 0 && forall k :: 0 <= k < |tokens| ==> PartHolds(lib, part, tokens[k], k)
    case NoMethod => true
  }

  predicate PartHolds(lib: RegexLib, part: Part, s: string, index: nat)
    decreases part
  {
    var ok := match part.term
      case ByValue(m) => Holds(lib, m, s)
      case ByIndex(i) => i == index
      case NoAttribute => true
      case PartAny(members) =>
        members == [] || exists k :: 0 <= k < |members| && PartHolds(lib, members[k], s, index)
      case PartAll(members) => forall k :: 0 <= k < |members| ==> PartHolds(lib, members[k], s, index)
      case NoPartTerm => true;
    ok != part.negated
  }

  method MatchPart(lib: RegexLib, part: Part, s: string, index: nat) returns (ok: bool)
    ensures ok == PartHolds(lib, part, s, index)
    decreases part
  {
    match part.term {
      case ByValue(m) =>
        ok := MatchString(lib, m, s);
      case ByIndex(i) =>
        ok := i == index;
      case NoAttribute =>
        ok := true;
      case PartAny(members) =>
        ok := |members| < 1;
        var k := 0;
        while k < |members|
          invariant 0 <= k <= |members|
          invariant ok <==> |members| < 1 || exists j :: 0 <= j < k && PartHolds(lib, members[j], s, index)
        {
          if !ok {
            ok := MatchPart(lib, members[k], s, index);
          }
          if ok {
            break;
          }
          k := k + 1;
        }
      case PartAll(members) =>
        ok := true;
        var k := 0;
        while k < |members|
          invariant 0 <= k <= |members|
          invariant ok <==> forall j :: 0 <= j < k ==> PartHolds(lib, members[j], s, index)
        {
          if ok {
            ok := MatchPart(lib, members[k], s, index);
          }
          if !ok {
            break;
          }
          k := k + 1;
        }
      case NoPartTerm =>
        ok := true;
    }
    if part.negated {
      ok := !ok;
    }
  }

  method MatchSplit(lib: RegexLib, m: StringMatch, s: string) returns (ok: bool)
    requires m.Split?
    ensures ok == Holds(lib, m, s)
    decreases m, 0
  {
    var tokens := lib.tokens(s, m.pattern);
    var index := 0;
    while index < |tokens|
      invariant 0 <= index <= |tokens|
      invariant m.any ==> forall k :: 0 <= k < index ==> !PartHolds(lib, m.part, tokens[k], k)
      invariant !m.any ==> forall k :: 0 <= k < index ==> PartHolds(lib, m.part, tokens[k], k)
    {
      var partOk := MatchPart(lib, m.part, tokens[index], index);
      if m.any && partOk {
        return true;
      }
      if !m.any && !partOk {
        return false;
      }
      index := index + 1;
    }
    return !m.any && index > 0;
  }

  method MatchString(lib: RegexLib, m: StringMatch, s: string) returns (ok: bool)
    ensures ok == Holds(lib, m, s)
    decreases m, 1
  {
    match m {
      case Exact(e) => ok := e == s;
      case Prefix(p) => ok := |p| <= |s| && s[..|p|] == p;
      case Suffix(x) => ok := |x| <= |s| && s[|s| - |x|..][..|x|] == x;
      case Substring(sub) => ok := |sub| <= |s| && HasSubstring(s, sub);
      case ByRegexp(re) => ok := lib.matches(re, s);
      case Split(_, _, _) => ok := MatchSplit(lib, m, s);
      case NoMethod => ok := true;
    }
  }

  // Negation is an involution at every level of the part recursion, and de Morgan holds for the
  // non-empty member lists.
  lemma PartNegation(lib: RegexLib, part: Part, s: string, index: nat)
    ensures PartHolds(lib, part.(negated := !part.negated), s, index) == !PartHolds(lib, part, s, index)
  {
  }

  function Negated(parts: seq<Part>): (r: seq<Part>)
    ensures |r| == |parts|
    ensures forall i :: 0 <= i < |r| ==> r[i] == parts[i].(negated := !parts[i].negated)
  {
    seq(|parts|, i requires 0 <= i < |parts| => parts[i].(negated := !parts[i].negated))
  }

  lemma PartDeMorgan(lib: RegexLib, parts: seq<Part>, s: string, index: nat)
    ensures PartHolds(lib, Part(PartAny(parts), true), s, index)
       <==> parts != [] && PartHolds(lib, Part(PartAll(Negated(parts)), false), s, index)
  {
    forall k | 0 <= k < |parts|
      ensures PartHolds(lib, Negated(parts)[k], s, index) == !PartHolds(lib, parts[k], s, index)
    {
      PartNegation(lib, parts[k], s, index);
    }
  }
}
