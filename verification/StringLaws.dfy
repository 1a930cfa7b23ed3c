// What the string match methods and the split parts accept, told by how a string is put together.
module StringLaws {
  import opened StringMatch

  lemma EndsOfString(lib: RegexLib, x: string, s: string)
    ensures Holds(lib, Exact(x), s) <==> s == x
    ensures Holds(lib, Prefix(x), s) <==> exists t: string :: s == x + t
    ensures Holds(lib, Suffix(x), s) <==> exists t: string :: s == t + x
    ensures Holds(lib, NoMethod, s)
    ensures forall re: Regexp :: Holds(lib, ByRegexp(re), s) <==> lib.matches(re, s)
  {
    if x <= s { assert s == x + s[|x|..]; }
    if |x| <= |s| && s[|s| - |x|..] == x { assert s == s[..|s| - |x|] + x; }
  }

  lemma InsideString(lib: RegexLib, x: string, s: string)
    ensures Holds(lib, Substring(x), s) <==> exists t: string, u: string :: s == t + x + u
  {
    if Holds(lib, Substring(x), s) {
      var i :| 0 <= i <= |s| && OccursAt(s, x, i);
      assert s == s[..i] + x + s[i + |x|..];
    }
    if t: string, u: string :| s == t + x + u {
      assert OccursAt(s, x, |t|);
    }
  }

  function TokenIs(m: StringMatch): Part { Part(ByValue(m), false) }

  function TokenAt(index: nat): Part { Part(ByIndex(index), false) }

  lemma OneToken(lib: RegexLib, x: string, index: nat, t: string, i: nat)
    ensures PartHolds(lib, TokenIs(Exact(x)), t, i) <==> t == x
    ensures PartHolds(lib, TokenAt(index), t, i) <==> i == index
  {
  }

  // Splitting: some token of the string, or every token of a string that has one.
  lemma TokenValues(lib: RegexLib, pattern: string, x: string, s: string)
    ensures Holds(lib, Split(pattern, TokenIs(Exact(x)), true), s) <==> x in lib.tokens(s, pattern)
    ensures Holds(lib, Split(pattern, TokenIs(Exact(x)), false), s) <==>
      lib.tokens(s, pattern) != [] && forall t :: t in lib.tokens(s, pattern) ==> t == x
  {
    var tokens := lib.tokens(s, pattern);
    SplitHolds(lib, pattern, TokenIs(Exact(x)), s);
    forall k | 0 <= k < |tokens| ensures PartHolds(lib, TokenIs(Exact(x)), tokens[k], k) <==> tokens[k] == x {
      OneToken(lib, x, 0, tokens[k], k);
    }
    hide Holds, PartHolds, TokenIs;
    if x in tokens {
      var k :| 0 <= k < |tokens| && tokens[k] == x;
      assert PartHolds(lib, TokenIs(Exact(x)), tokens[k], k);
    }
    if k :| 0 <= k < |tokens| && tokens[k] != x {
      assert tokens[k] in tokens && !PartHolds(lib, TokenIs(Exact(x)), tokens[k], k);
    }
  }

  // The token at an index, counted from 0: whether there is one, and what it is.
  lemma TokenIndices(lib: RegexLib, pattern: string, x: string, index: nat, s: string)
    ensures Holds(lib, Split(pattern, TokenAt(index), true), s) <==> index < |lib.tokens(s, pattern)|
    ensures Holds(lib, Split(pattern, Part(PartAll([TokenAt(index), TokenIs(Exact(x))]), false), true), s) <==>
      index < |lib.tokens(s, pattern)| && lib.tokens(s, pattern)[index] == x
  {
    var tokens := lib.tokens(s, pattern);
    var both := Part(PartAll([TokenAt(index), TokenIs(Exact(x))]), false);
    SplitHolds(lib, pattern, TokenAt(index), s);
    SplitHolds(lib, pattern, both, s);
    hide Holds, PartHolds, TokenIs, TokenAt;
    forall k | 0 <= k < |tokens|
      ensures PartHolds(lib, TokenAt(index), tokens[k], k) <==> k == index
      ensures PartHolds(lib, both, tokens[k], k) <==> k == index && tokens[k] == x
    {
      OneToken(lib, x, index, tokens[k], k);
      Joined(lib, TokenAt(index), TokenIs(Exact(x)), tokens[k], k);
    }
    if index < |tokens| {
      assert PartHolds(lib, TokenAt(index), tokens[index], index);
      assert PartHolds(lib, both, tokens[index], index) <==> tokens[index] == x;
    }
  }

  lemma SplitHolds(lib: RegexLib, pattern: string, part: Part, s: string)
    ensures var tokens := lib.tokens(s, pattern);
      && (Holds(lib, Split(pattern, part, true), s) <==>
            exists k :: 0 <= k < |tokens| && PartHolds(lib, part, tokens[k], k))
      && (Holds(lib, Split(pattern, part, false), s) <==>
            |tokens| > 0 && forall k :: 0 <= k < |tokens| ==> PartHolds(lib, part, tokens[k], k))
  {
  }

  // Parts joined: any of them, all of them, none of them; without members both kinds accept.
  lemma Joined(lib: RegexLib, p: Part, q: Part, s: string, i: nat)
    ensures PartHolds(lib, Part(PartAny([p, q]), false), s, i) <==> PartHolds(lib, p, s, i) || PartHolds(lib, q, s, i)
    ensures PartHolds(lib, Part(PartAll([p, q]), false), s, i) <==> PartHolds(lib, p, s, i) && PartHolds(lib, q, s, i)
    ensures PartHolds(lib, Part(PartAny([p, q]), true), s, i) <==>
      !PartHolds(lib, p, s, i) && !PartHolds(lib, q, s, i)
    ensures PartHolds(lib, Part(PartAny([]), false), s, i) && PartHolds(lib, Part(PartAll([]), false), s, i)
    ensures PartHolds(lib, Part(NoAttribute, false), s, i) && PartHolds(lib, Part(NoPartTerm, false), s, i)
  {
    var both := [p, q];
    assert both[0] == p && both[1] == q && |both| == 2;
    forall members: seq<Part>
      ensures PartHolds(lib, Part(PartAny(members), false), s, i) <==>
        members == [] || exists k :: 0 <= k < |members| && PartHolds(lib, members[k], s, i)
      ensures PartHolds(lib, Part(PartAll(members), false), s, i) <==>
        forall k :: 0 <= k < |members| ==> PartHolds(lib, members[k], s, i)
    {
    }
    PartNegation(lib, Part(PartAny([p, q]), false), s, i);
  }
}
