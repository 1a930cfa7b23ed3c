// What a walk comes by, in every run, whatever owners and other walkers do meanwhile.
module ZoneWalks {
  import opened Basics
  import opened ZoneLifetime

  function Listed(z: Option<ZoneId>): seq<ZoneId> { match z case None => [] case Some(v) => [v] }

  // The zone a walker has just been given, if any.
  function Given(s: State, w: nat): Option<ZoneId> {
    if w < |s.walkers| && s.walkers[w].Between? then s.walkers[w].next else None
  }

  // The zones walker w has been given since its latest start, after n actions.
  function Visited(states: seq<State>, actions: seq<Action>, w: nat, n: nat): seq<ZoneId>
    requires n <= |actions| < |states|
  {
    if n == 0 then []
    else if actions[n - 1] == First(w) then Listed(Given(states[n], w))
    else if actions[n - 1] == Next(w) then Visited(states, actions, w, n - 1) + Listed(Given(states[n], w))
    else Visited(states, actions, w, n - 1)
  }

  // A walker on its way has come by the front part of the list, in order, up to where it stands.
  predicate OnTrack(s: State, w: nat, visited: seq<ZoneId>)
    requires w < |s.walkers|
  {
    match s.walkers[w]
    case Idle => true
    case AtZone(z) => visited <= s.list && visited != [] && visited[|visited| - 1] == z
    case Between(_, next) => visited <= s.list && (next.Some? ==> visited != [] && visited[|visited| - 1] == next.value)
  }

  // Zones never leave the list, nor does their order change.
  lemma ListGrows(s: State, a: Action)
    requires Inv(s) && FewWalkers(s) && Enabled(s, a) && Safe(s, a)
    ensures s.list <= Step(s, a).list
    ensures !a.Attach? ==> Step(s, a).list == s.list
  {
    StepKeepsInv(s, a);
    hide Inv;
    assert Step(s, a).reclaimed == [] && s.reclaimed == [] by { NoneReclaimed(s); NoneReclaimed(Step(s, a)); }
  }

  lemma NoneReclaimed(s: State)
    requires Inv(s)
    ensures s.reclaimed == []
  {
  }

  lemma OthersLeaveWalker(s: State, a: Action, w: nat)
    requires Enabled(s, a) && Safe(s, a) && w < |s.walkers|
    requires a !in {First(w), Next(w), DropPrev(w), Leave(w)}
    ensures w < |Step(s, a).walkers| && Step(s, a).walkers[w] == s.walkers[w]
  {
  }

  // The zone after a place in the list.
  lemma SuccAt(list: seq<ZoneId>, k: nat)
    requires Distinct(list) && k < |list|
    ensures list[k] in list && Succ(list, list[k]) == if k + 1 < |list| then Some(list[k + 1]) else None
  {
    FoundAt(list, list[k], k);
  }

  function VisitedNext(a: Action, t: State, w: nat, visited: seq<ZoneId>): seq<ZoneId> {
    if a == First(w) then Listed(Given(t, w)) else if a == Next(w) then visited + Listed(Given(t, w)) else visited
  }

  // What one action does to the walker itself, and to the list.
  lemma WalkerNext(s: State, a: Action, w: nat)
    requires Inv(s) && FewWalkers(s) && Enabled(s, a) && Safe(s, a) && w < |s.walkers|
    ensures var t := Step(s, a);
      && w < |t.walkers| && s.list <= t.list
      && if a == First(w) then t.walkers[w] == Between(None, Head(s.list)) && t.list == s.list
         else if a == Next(w) then
           && s.walkers[w].AtZone? && s.walkers[w].zone in s.list && Distinct(s.list) && t.list == s.list
           && t.walkers[w] == Between(Some(s.walkers[w].zone), Succ(s.list, s.walkers[w].zone))
         else if a == DropPrev(w) then
           && s.walkers[w].Between?
           && t.walkers[w] == if s.walkers[w].next == None then Idle else AtZone(s.walkers[w].next.value)
         else if a == Leave(w) then t.walkers[w] == Idle
         else t.walkers[w] == s.walkers[w]
  {
    ListGrows(s, a);
    if a !in {First(w), Next(w), DropPrev(w), Leave(w)} { OthersLeaveWalker(s, a, w); }
    hide Succ, Without, WalkerRefs;
  }

  lemma TrackNext(s: State, a: Action, w: nat, visited: seq<ZoneId>)
    requires Inv(s) && FewWalkers(s) && Enabled(s, a) && Safe(s, a) && w < |s.walkers| && OnTrack(s, w, visited)
    ensures var t := Step(s, a);
      && w < |t.walkers| && OnTrack(t, w, VisitedNext(a, t, w, visited))
      && (a in {First(w), Next(w)} && Given(t, w) == None ==> VisitedNext(a, t, w, visited) == t.list)
  {
    hide Inv, Enabled, Safe, Step, Succ, FewWalkers;
    WalkerNext(s, a, w);
    if a == Next(w) { SuccAt(s.list, |visited| - 1); }
  }

  ghost predicate ToldTheEnd(states: seq<State>, actions: seq<Action>, w: nat, n: nat)
    requires n <= |actions| < |states|
  {
    n > 0 && actions[n - 1] in {First(w), Next(w)} && Given(states[n], w) == None
  }

  lemma {:induction false} WalkersOnTrack(states: seq<State>, actions: seq<Action>, w: nat, n: nat)
    requires IsRun(states, actions) && n < |states| && w < |states[0].walkers|
    ensures w < |states[n].walkers| && OnTrack(states[n], w, Visited(states, actions, w, n))
    ensures ToldTheEnd(states, actions, w, n) ==> Visited(states, actions, w, n) == states[n].list
  {
    if n > 0 {
      WalkersOnTrack(states, actions, w, n - 1);
      RunKeepsInv(states, actions, n - 1);
      assert Enabled(states[n - 1], actions[n - 1]) && states[n - 1 + 1] == Step(states[n - 1], actions[n - 1]);
      hide IsRun, Inv, Safe, Step, OnTrack, Given, FewWalkers;
      TrackNext(states[n - 1], actions[n - 1], w, Visited(states, actions, w, n - 1));
    }
  }

  // In every run: a walker has come by the zones at the front of the list, each once and in list order, up
  // to the one it holds; and a walk that is told there is no next zone has come by the whole list.
  lemma WalksSeeEveryZone(states: seq<State>, actions: seq<Action>, w: nat, n: nat)
    requires IsRun(states, actions) && n < |states| && w < |states[0].walkers|
    ensures w < |states[n].walkers|
    ensures var s, visited := states[n], Visited(states, actions, w, n);
      && (s.walkers[w].AtZone? ==>
            visited <= s.list && visited != [] && visited[|visited| - 1] == s.walkers[w].zone)
      && (ToldTheEnd(states, actions, w, n) ==> visited == s.list)
  {
    hide IsRun, Visited, ToldTheEnd;
    WalkersOnTrack(states, actions, w, n);
  }
}
