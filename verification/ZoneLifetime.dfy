// Reference-counted zones under every interleaving of owners that allocate and release zones and
// walkers that step through the domain's list. Each Step is one atomic action: a critical section
// under the domain lock, or one atomic counter operation. The tear-down is followed here from the
// states such runs lead to, with 32-bit counts and every zone it touches live; StatsDomain has it on
// the linked list itself, and SameTearDown shows that both end alike.
module ZoneLifetime {
  import opened Basics
  import TearDown

  type ZoneId = nat

  // An owner's progress: the zone is on the list before the owner's reference is taken.
  datatype Owner = Attached | Held | Released

  // A walker rests at a zone, or is between taking the next reference and dropping the last one.
  datatype Walker = Idle | AtZone(zone: ZoneId) | Between(prev: Option<ZoneId>, next: Option<ZoneId>)

  datatype State = State(list: seq<ZoneId>, count: map<ZoneId, nat>, owners: map<ZoneId, Owner>,
                         walkers: seq<Walker>, reclaimed: seq<ZoneId>)

  datatype Action =
    | Attach(zone: ZoneId)    // link the new zone at the end of the list, count 0
    | TakeOwnerRef(zone: ZoneId)
    | Release(zone: ZoneId)
    | First(walker: nat)      // under the lock: reference to the first zone
    | Next(walker: nat)       // under the lock: reference to the zone after the current one
    | DropPrev(walker: nat)   // give up the reference passed over
    | Leave(walker: nat)      // early exit

  function Head(list: seq<ZoneId>): Option<ZoneId> { if list == [] then None else Some(list[0]) }

  function IndexOf(list: seq<ZoneId>, z: ZoneId): (i: nat)
    requires z in list
    ensures i < |list| && list[i] == z
  {
    if list[0] == z then 0 else 1 + IndexOf(list[1..], z)
  }

  // The zone's next link.
  function Succ(list: seq<ZoneId>, z: ZoneId): Option<ZoneId>
    requires z in list
  {
    var i := IndexOf(list, z);
    if i + 1 < |list| then Some(list[i + 1]) else None
  }

  function Without(list: seq<ZoneId>, z: ZoneId): seq<ZoneId>
    requires z in list
  {
    TearDown.Without(list, IndexOf(list, z))
  }

  // stats_zone_get and stats_zone_put. A put decides on the count it finds before its decrement.
  function Get(s: State, z: Option<ZoneId>): State
    requires z.Some? ==> z.value in s.count
  {
    if z == None then s else s.(count := s.count[z.value := (s.count[z.value] + 1) % TWO_TO_THE_32])
  }

  function Put(s: State, z: Option<ZoneId>): State
    requires z.Some? ==> z.value in s.count && z.value in s.list
  {
    if z == None then s
    else if s.count[z.value] == 0 then
      s.(list := Without(s.list, z.value), count := s.count - {z.value}, reclaimed := s.reclaimed + [z.value])
    else s.(count := s.count[z.value := s.count[z.value] - 1])
  }

  // Every zone an action dereferences is one that has not been reclaimed.
  predicate Live(s: State, z: Option<ZoneId>) {
    z.Some? ==> z.value in s.count && z.value in s.list
  }

  predicate Enabled(s: State, a: Action) {
    match a
    case Attach(z) => z !in s.owners
    case TakeOwnerRef(z) => z in s.owners && s.owners[z] == Attached
    case Release(z) => z in s.owners && s.owners[z] == Held
    case First(w) => w < |s.walkers| && s.walkers[w] == Idle
    case Next(w) => w < |s.walkers| && s.walkers[w].AtZone?
    case DropPrev(w) => w < |s.walkers| && s.walkers[w].Between?
    case Leave(w) => w < |s.walkers| && s.walkers[w].AtZone?
  }

  // The zones an enabled action touches.
  predicate Safe(s: State, a: Action)
    requires Enabled(s, a)
  {
    match a
    case Attach(_) => true
    case TakeOwnerRef(z) => Live(s, Some(z))
    case Release(z) => Live(s, Some(z))
    case First(w) => Live(s, Head(s.list))
    case Next(w) => Live(s, Some(s.walkers[w].zone)) && Live(s, Succ(s.list, s.walkers[w].zone))
    case DropPrev(w) => Live(s, s.walkers[w].prev)
    case Leave(w) => Live(s, Some(s.walkers[w].zone))
  }

  function Step(s: State, a: Action): State
    requires Enabled(s, a) && Safe(s, a)
  {
    match a
    case Attach(z) =>
      s.(list := s.list + [z], count := s.count[z := 0], owners := s.owners[z := Attached])
    case TakeOwnerRef(z) => Get(s, Some(z)).(owners := s.owners[z := Held])
    case Release(z) => Put(s, Some(z)).(owners := s.owners[z := Released])
    case First(w) =>
      Get(s, Head(s.list)).(walkers := s.walkers[w := Between(None, Head(s.list))])
    case Next(w) =>
      var z := s.walkers[w].zone;
      Get(s, Succ(s.list, z)).(walkers := s.walkers[w := Between(Some(z), Succ(s.list, z))])
    case DropPrev(w) =>
      var next := s.walkers[w].next;
      Put(s, s.walkers[w].prev)
        .(walkers := s.walkers[w := if next == None then Idle else AtZone(next.value)])
    case Leave(w) => Put(s, Some(s.walkers[w].zone)).(walkers := s.walkers[w := Idle])
  }

  // ---- Who holds references ----

  function One(b: bool): nat { if b then 1 else 0 }

  function Refs(w: Walker, z: ZoneId): nat {
    match w
    case Idle => 0
    case AtZone(x) => One(x == z)
    case Between(prev, next) => One(prev == Some(z)) + One(next == Some(z))
  }

  function WalkerRefs(ws: seq<Walker>, z: ZoneId): nat {
    if ws == [] then 0 else WalkerRefs(ws[..|ws| - 1], z) + Refs(ws[|ws| - 1], z)
  }

  function OwnerRef(s: State, z: ZoneId): nat { One(z in s.owners && s.owners[z] == Held) }

  lemma {:induction false} WalkerRefsUpdate(ws: seq<Walker>, i: nat, w: Walker, z: ZoneId)
    requires i < |ws|
    ensures WalkerRefs(ws[i := w], z) == WalkerRefs(ws, z) - Refs(ws[i], z) + Refs(w, z)
  {
    var n := |ws| - 1;
    if i == n {
      assert ws[i := w][..n] == ws[..n];
    } else {
      WalkerRefsUpdate(ws[..n], i, w, z);
      assert ws[i := w][..n] == ws[..n][i := w];
    }
  }

  lemma {:induction false} WalkerRefsBounds(ws: seq<Walker>, z: ZoneId)
    ensures WalkerRefs(ws, z) <= 2 * |ws|
    ensures forall i :: 0 <= i < |ws| ==> Refs(ws[i], z) <= WalkerRefs(ws, z)
  {
    if ws != [] { WalkerRefsBounds(ws[..|ws| - 1], z); }
  }

  predicate Distinct(list: seq<ZoneId>) {
    forall i, j :: 0 <= i < j < |list| ==> list[i] != list[j]
  }

  predicate Holds(w: Walker, z: ZoneId) { Refs(w, z) > 0 }

  // The invariant: a zone's count is its owner's reference plus the walker references on it, every
  // referenced zone is on the list, and nothing has been reclaimed.
  ghost predicate Inv(s: State) {
    && Distinct(s.list)
    && (forall z :: z in s.list <==> z in s.count)
    && (forall z :: z in s.count <==> z in s.owners)
    && (forall z :: z in s.count ==> s.count[z] == OwnerRef(s, z) + WalkerRefs(s.walkers, z))
    && (forall w, z :: 0 <= w < |s.walkers| && Holds(s.walkers[w], z) ==> z in s.count)
    && s.reclaimed == []
  }

  // The counter is 32 bits wide; each walker holds at most two references at a time.
  predicate FewWalkers(s: State) { 2 * |s.walkers| + 2 < TWO_TO_THE_32 }

  lemma HoldersAreLive(s: State, w: nat)
    requires Inv(s) && w < |s.walkers|
    ensures s.walkers[w].AtZone? ==> Live(s, Some(s.walkers[w].zone))
    ensures s.walkers[w].Between? ==> Live(s, s.walkers[w].prev) && Live(s, s.walkers[w].next)
  {
    match s.walkers[w]
    case Idle =>
    case AtZone(z) => assert Holds(s.walkers[w], z);
    case Between(prev, next) =>
      if prev.Some? { assert Holds(s.walkers[w], prev.value); }
      if next.Some? { assert Holds(s.walkers[w], next.value); }
  }

  // No enabled action ever touches a reclaimed zone.
  lemma InvIsSafe(s: State, a: Action)
    requires Inv(s) && Enabled(s, a)
    ensures Safe(s, a)
  {
    match a
    case Next(w) => HoldersAreLive(s, w);
    case DropPrev(w) => HoldersAreLive(s, w);
    case Leave(w) => HoldersAreLive(s, w);
    case _ =>
  }

  // What a reference-count change by one walker does to the books.
  lemma WalkerStepKeeps(s: State, t: State, w: nat)
    requires Inv(s) && w < |s.walkers| == |t.walkers|
    requires t.walkers == s.walkers[w := t.walkers[w]]
    requires t.list == s.list && t.owners == s.owners && t.reclaimed == s.reclaimed && t.count.Keys == s.count.Keys
    requires forall z :: z in s.count ==>
      t.count[z] == s.count[z] - Refs(s.walkers[w], z) + Refs(t.walkers[w], z)
    requires forall z :: Holds(t.walkers[w], z) ==> z in s.count
    ensures Inv(t)
  {
    forall z | z in t.count ensures t.count[z] == OwnerRef(t, z) + WalkerRefs(t.walkers, z) {
      WalkerRefsUpdate(s.walkers, w, t.walkers[w], z);
    }
    forall v, z | 0 <= v < |t.walkers| && Holds(t.walkers[v], z) ensures z in t.count {
      if v != w { assert t.walkers[v] == s.walkers[v] && Holds(s.walkers[v], z); }
    }
    assert forall z :: z in t.list <==> z in t.count.Keys;
    assert forall z :: z in t.count.Keys <==> z in t.owners;
  }

  lemma CountBound(s: State, z: ZoneId)
    requires Inv(s) && FewWalkers(s) && z in s.count
    ensures s.count[z] + 1 < TWO_TO_THE_32
    ensures forall w :: 0 <= w < |s.walkers| ==> Refs(s.walkers[w], z) <= s.count[z]
    ensures OwnerRef(s, z) <= s.count[z]
  {
    WalkerRefsBounds(s.walkers, z);
  }

  lemma GetCounts(s: State, z: Option<ZoneId>)
    requires z.Some? ==> z.value in s.count && s.count[z.value] + 1 < TWO_TO_THE_32
    ensures Get(s, z) == s.(count := Get(s, z).count) && Get(s, z).count.Keys == s.count.Keys
    ensures forall x :: x in s.count ==> Get(s, z).count[x] == s.count[x] + One(z == Some(x))
  {
  }

  // The next reference is taken while the walker still holds its own.
  lemma TakeKeeps(s: State, w: nat, z: Option<ZoneId>, prev: Option<ZoneId>)
    requires Inv(s) && FewWalkers(s) && w < |s.walkers| && Live(s, z)
    requires s.walkers[w] == if prev == None then Idle else AtZone(prev.value)
    ensures Inv(Get(s, z).(walkers := s.walkers[w := Between(prev, z)]))
  {
    HoldersAreLive(s, w);
    if z.Some? { CountBound(s, z.value); }
    hide Inv, WalkerRefs, Get;
    GetCounts(s, z);
    var after := Between(prev, z);
    assert forall x: ZoneId :: Refs(after, x) == Refs(s.walkers[w], x) + One(z == Some(x));
    assert forall x: ZoneId :: Holds(after, x) ==> z == Some(x) || prev == Some(x);
    WalkerStepKeeps(s, Get(s, z).(walkers := s.walkers[w := after]), w);
  }

  // A walker's put always finds the reference it gives up: nothing is reclaimed.
  lemma DropKeeps(s: State, w: nat, z: Option<ZoneId>, after: Walker)
    requires Inv(s) && FewWalkers(s) && w < |s.walkers| && Live(s, z)
    requires forall x: ZoneId :: Refs(s.walkers[w], x) == Refs(after, x) + One(z == Some(x))
    ensures Inv(Put(s, z).(walkers := s.walkers[w := after]))
  {
    if z.Some? {
      CountBound(s, z.value);
      assert Refs(s.walkers[w], z.value) >= 1;
    }
    forall x | Holds(after, x) ensures x in s.count {
      assert Holds(s.walkers[w], x);
    }
    WalkerStepKeeps(s, Put(s, z).(walkers := s.walkers[w := after]), w);
  }

  lemma {:induction false} NoRefs(ws: seq<Walker>, z: ZoneId)
    requires forall w :: 0 <= w < |ws| ==> !Holds(ws[w], z)
    ensures WalkerRefs(ws, z) == 0
  {
    if ws != [] { NoRefs(ws[..|ws| - 1], z); }
  }

  lemma AttachKeeps(s: State, z: ZoneId)
    requires Inv(s) && z !in s.owners
    ensures Inv(Step(s, Attach(z)))
  {
    var t := Step(s, Attach(z));
    assert z !in s.count && z !in s.list;
    NoRefs(s.walkers, z);
    assert forall x :: x in t.list <==> x in s.list || x == z;
    forall x | x in t.count ensures t.count[x] == OwnerRef(t, x) + WalkerRefs(t.walkers, x) {
      if x != z { assert x in s.count; }
    }
  }

  // An owner takes its reference, or gives it up: only its own zone's books change.
  lemma OwnerRefKeeps(s: State, t: State, z: ZoneId, owner: Owner)
    requires Inv(s) && z in s.count && owner != Attached
    requires z in t.count
    requires t == s.(count := s.count[z := t.count[z]], owners := s.owners[z := owner])
    requires t.count[z] == s.count[z] - OwnerRef(s, z) + One(owner == Held)
    ensures Inv(t)
  {
    forall x | x in t.count ensures t.count[x] == OwnerRef(t, x) + WalkerRefs(t.walkers, x) {
      assert x in s.count;
    }
    assert forall x :: x in t.count <==> x in s.count;
    assert forall x :: x in t.owners <==> x in s.owners;
  }

  lemma StepKeepsInv(s: State, a: Action)
    requires Inv(s) && FewWalkers(s) && Enabled(s, a) && Safe(s, a)
    ensures Inv(Step(s, a))
  {
    match a
    case First(w) => TakeKeeps(s, w, Head(s.list), None);
    case Next(w) =>
      TakeKeeps(s, w, Succ(s.list, s.walkers[w].zone), Some(s.walkers[w].zone));
    case DropPrev(w) =>
      var next := s.walkers[w].next;
      DropKeeps(s, w, s.walkers[w].prev, if next == None then Idle else AtZone(next.value));
    case Leave(w) => DropKeeps(s, w, Some(s.walkers[w].zone), Idle);
    case Attach(z) => AttachKeeps(s, z);
    case TakeOwnerRef(z) =>
      CountBound(s, z);
      OwnerRefKeeps(s, Step(s, a), z, Held);
    case Release(z) =>
      CountBound(s, z);
      OwnerRefKeeps(s, Step(s, a), z, Released);
  }

  // ---- Whole runs ----

  predicate Init(s: State) {
    s.list == [] && s.count == map[] && s.owners == map[] && s.reclaimed == []
    && forall w :: 0 <= w < |s.walkers| ==> s.walkers[w] == Idle
  }

  // A trace of states in which every action is enabled when it happens.
  ghost predicate IsRun(states: seq<State>, actions: seq<Action>) {
    |states| == |actions| + 1 && Init(states[0]) && FewWalkers(states[0])
    && forall i :: 0 <= i < |actions| ==>
         Enabled(states[i], actions[i])
         && (Safe(states[i], actions[i]) ==> states[i + 1] == Step(states[i], actions[i]))
  }

  lemma {:induction false} RunKeepsInv(states: seq<State>, actions: seq<Action>, n: nat)
    requires IsRun(states, actions) && n < |states|
    ensures Inv(states[n]) && FewWalkers(states[n])
    ensures n < |actions| ==> Safe(states[n], actions[n])
  {
    if n == 0 {
      InitInv(states[0]);
    } else {
      RunKeepsInv(states, actions, n - 1);
      var s, a := states[n - 1], actions[n - 1];
      assert Enabled(s, a) && states[n - 1 + 1] == Step(s, a);
      StepKeepsInv(s, a);
      StepKeepsWalkers(s, a);
    }
    if n < |actions| { InvIsSafe(states[n], actions[n]); }
  }

  lemma InitInv(s: State)
    requires Init(s)
    ensures Inv(s)
  {
    forall z ensures WalkerRefs(s.walkers, z) == 0 { IdleRefs(s.walkers, z); }
  }

  lemma StepKeepsWalkers(s: State, a: Action)
    requires Enabled(s, a) && Safe(s, a)
    ensures |Step(s, a).walkers| == |s.walkers|
  {
  }

  lemma {:induction false} IdleRefs(ws: seq<Walker>, z: ZoneId)
    requires forall w :: 0 <= w < |ws| ==> ws[w] == Idle
    ensures WalkerRefs(ws, z) == 0
  {
    if ws != [] { IdleRefs(ws[..|ws| - 1], z); }
  }

  // In every reachable state: no zone has been reclaimed, no action touches one that was, and once
  // the walkers are idle (after full walks or early exits alike) each count is exactly its owner's
  // reference: 1 while held, 0 after the release.
  lemma ZonesSurviveEveryRun(states: seq<State>, actions: seq<Action>, n: nat)
    requires IsRun(states, actions) && n < |states|
    ensures states[n].reclaimed == []
    ensures n < |actions| ==> Safe(states[n], actions[n])
    ensures (forall w :: 0 <= w < |states[n].walkers| ==> states[n].walkers[w] == Idle) ==>
      forall z :: z in states[n].count ==> states[n].count[z] == OwnerRef(states[n], z)
  {
    RunKeepsInv(states, actions, n);
    var s := states[n];
    if forall w :: 0 <= w < |s.walkers| ==> s.walkers[w] == Idle {
      forall z | z in s.count ensures s.count[z] == OwnerRef(s, z) { IdleRefs(s.walkers, z); }
    }
  }

  // ---- Tearing the domain down, single-threaded ----

  predicate ListCounted(s: State) {
    Distinct(s.list) && forall z :: z in s.list ==> z in s.count
  }

  // The counts along the list.
  function Counts(s: State): (counts: seq<nat>)
    requires forall z :: z in s.list ==> z in s.count
    ensures |counts| == |s.list| && forall i :: 0 <= i < |counts| ==> counts[i] == s.count[s.list[i]]
  {
    seq(|s.list|, i requires 0 <= i < |s.list| => s.count[s.list[i]])
  }

  // The count of every zone once the first k have been dealt with.
  function CountAfter(list: seq<ZoneId>, count: map<ZoneId, nat>, k: nat): (c: map<ZoneId, nat>)
    requires k <= |list| && (forall z :: z in list ==> z in count) && Distinct(list)
    ensures forall i :: k <= i < |list| ==> list[i] in c && c[list[i]] == count[list[i]]
    ensures forall z :: z in c ==> z in count
  {
    if k == 0 then count
    else
      var c := CountAfter(list, count, k - 1);
      var z := list[k - 1];
      if count[z] == 0 then c - {z} else c[z := count[z] - 1]
  }

  // The state when the tear-down stands at zone k: the zones before it dealt with.
  function DealtWith(s: State, k: nat): State
    requires k <= |s.list| && ListCounted(s)
  {
    s.(list := TearDown.ListAfter(s.list, Counts(s), k),
       count := CountAfter(s.list, s.count, k),
       reclaimed := s.reclaimed + TearDown.Unheld(s.list, Counts(s), k))
  }

  lemma {:induction false} FoundAt(list: seq<ZoneId>, z: ZoneId, i: nat)
    requires i < |list| && list[i] == z && z !in list[..i]
    ensures IndexOf(list, z) == i
  {
    if i > 0 {
      assert list[0] == list[..i][0];
      assert list[1..][..i - 1] == list[..i][1..];
      FoundAt(list[1..], z, i - 1);
    }
  }

  lemma SuccAndWithoutAt(held: seq<ZoneId>, z: ZoneId, rest: seq<ZoneId>)
    requires z !in held
    ensures var list := held + [z] + rest;
      z in list && IndexOf(list, z) == |held| && Succ(list, z) == Head(rest) && Without(list, z) == held + rest
  {
    var list := held + [z] + rest;
    assert list[..|held|] == held && list[|held|] == z && list[|held| + 1..] == rest;
    FoundAt(list, z, |held|);
  }

  lemma {:induction false} HeldAreEarlier(list: seq<ZoneId>, counts: seq<nat>, k: nat, i: nat)
    requires k <= i < |list| == |counts| && Distinct(list)
    ensures list[i] !in TearDown.StillHeld(list, counts, k)
  {
    if k > 0 { HeldAreEarlier(list, counts, k - 1, i); }
  }

  // The list when the tear-down stands at zone k: that zone comes right after those still held.
  lemma AtZoneK(s: State, k: nat)
    requires k < |s.list| && ListCounted(s)
    ensures var list := DealtWith(s, k).list;
      && s.list[k] in list && IndexOf(list, s.list[k]) == |TearDown.StillHeld(s.list, Counts(s), k)|
      && Succ(list, s.list[k]) == (if k + 1 < |s.list| then Some(s.list[k + 1]) else None)
      && Without(list, s.list[k]) == TearDown.StillHeld(s.list, Counts(s), k) + s.list[k + 1..]
      && list == TearDown.StillHeld(s.list, Counts(s), k) + [s.list[k]] + s.list[k + 1..]
  {
    var held, z, rest := TearDown.StillHeld(s.list, Counts(s), k), s.list[k], s.list[k + 1..];
    assert DealtWith(s, k).list == held + s.list[k..];
    assert Head(rest) == if k + 1 < |s.list| then Some(s.list[k + 1]) else None;
    HeldAreEarlier(s.list, Counts(s), k, k);
    hide *;
    TearDown.NextEntry(held, s.list, k, z);
    SuccAndWithoutAt(held, z, rest);
  }

  // The state after zone k, from the state before it.
  lemma DealtNext(s: State, k: nat)
    requires k < |s.list| && ListCounted(s)
    ensures var t, u, z := DealtWith(s, k), DealtWith(s, k + 1), s.list[k];
            var h := |TearDown.StillHeld(s.list, Counts(s), k)|;
      && h < |t.list| && t.list[h] == z && z in t.count && t.count[z] == s.count[z]
      && u == if s.count[z] > 0 then t.(count := t.count[z := s.count[z] - 1])
              else t.(list := TearDown.Without(t.list, h), count := t.count - {z}, reclaimed := t.reclaimed + [z])
  {
    TearDown.DealWith(s.list, Counts(s), k);
    hide TearDown.StillHeld, TearDown.ListAfter, TearDown.Unheld, TearDown.Without, Distinct, Counts;
  }

  // Dropping the walk's last claim on zone k: a zone whose owner has released is reclaimed, any
  // other keeps its place with one reference less.
  lemma PutAtZoneK(s: State, k: nat)
    requires k < |s.list| && ListCounted(s)
    ensures Live(DealtWith(s, k), Some(s.list[k]))
    ensures Put(DealtWith(s, k), Some(s.list[k])) == DealtWith(s, k + 1)
  {
    AtZoneK(s, k);
    DealtNext(s, k);
    hide TearDown.StillHeld, TearDown.Without, DealtWith, Distinct, Counts, Succ;
  }

  // Taking and dropping a reference on zone j leaves the state as it was.
  lemma GetPut(s: State, z: ZoneId)
    requires z in s.count && z in s.list && s.count[z] + 1 < TWO_TO_THE_32
    ensures Put(Get(s, Some(z)), Some(z)) == s
  {
    var t := Get(s, Some(z));
    assert t.count[z := t.count[z] - 1] == s.count;
  }

  // References on two different zones are independent.
  lemma PutAfterGet(s: State, p: ZoneId, n: ZoneId)
    requires Live(s, Some(p)) && Live(s, Some(n)) && p != n && s.count[n] + 1 < TWO_TO_THE_32
    ensures Put(Get(s, Some(n)), Some(p)) == Get(Put(s, Some(p)), Some(n))
  {
    var a, b := Put(Get(s, Some(n)), Some(p)), Get(Put(s, Some(p)), Some(n));
    assert a.count == b.count;
  }

  // A zone the tear-down has not dealt with is untouched.
  lemma NotYet(s: State, k: nat, i: nat)
    requires k <= i < |s.list| && ListCounted(s)
    ensures Live(DealtWith(s, k), Some(s.list[i]))
    ensures DealtWith(s, k).count[s.list[i]] == s.count[s.list[i]]
  {
    assert s.list[k..][i - k] == s.list[i];
  }

  // Step from zone p on to zone n, then drop the reference just taken there: only p lost one.
  lemma TurnOver(t: State, u: State, p: ZoneId, n: ZoneId)
    requires p != n && Live(t, Some(p)) && Live(t, Some(n)) && t.count[n] + 1 < TWO_TO_THE_32
    requires u == Put(t, Some(p)) && Live(u, Some(n)) && u.count[n] + 1 < TWO_TO_THE_32
    ensures Live(Get(t, Some(n)), Some(p)) && Live(Put(Get(t, Some(n)), Some(p)), Some(n))
    ensures Put(Put(Get(t, Some(n)), Some(p)), Some(n)) == u
  {
    PutAfterGet(t, p, n);
    GetPut(u, n);
  }

  predicate AllBounded(s: State) {
    Distinct(s.list) && forall z :: z in s.list ==> z in s.count && s.count[z] + 1 < TWO_TO_THE_32
  }

  // A turn of the tear-down loop in state t: step from zone on to next, and drop the reference just
  // taken there. Only live zones are touched, and u is the state after it.
  predicate Turn(t: State, zone: Option<ZoneId>, next: ZoneId, u: State) {
    && Live(t, zone) && Live(t, Some(next)) && Live(Get(t, Some(next)), zone)
    && Some(next) == (if zone == None then Head(t.list) else Succ(t.list, zone.value))
    && Live(Put(Get(t, Some(next)), zone), Some(next))
    && Put(Put(Get(t, Some(next)), zone), Some(next)) == u
  }

  lemma FirstTurn(s: State)
    requires AllBounded(s) && s.list != []
    ensures Turn(s, None, s.list[0], s)
  {
    GetPut(s, s.list[0]);
  }

  lemma NextTurn(s: State, k: nat)
    requires AllBounded(s) && 0 < k < |s.list|
    ensures Turn(DealtWith(s, k - 1), Some(s.list[k - 1]), s.list[k], DealtWith(s, k))
  {
    hide DealtWith, Succ, Put, Get;
    var t, u, p, n := DealtWith(s, k - 1), DealtWith(s, k), s.list[k - 1], s.list[k];
    assert Live(t, Some(p)) && Put(t, Some(p)) == u by { PutAtZoneK(s, k - 1); }
    assert Succ(t.list, p) == Some(n) by { AtZoneK(s, k - 1); }
    NotYet(s, k - 1, k);
    NotYet(s, k, k);
    TurnOver(t, u, p, n);
  }

  // stats_domain_free: walk the list, dropping at each zone the reference the walk takes and then,
  // by stepping on, one more. Every zone touched is live. Those whose owner has released are
  // reclaimed, each exactly once and in list order; those still held stay, with one reference less.
  method DomainFree(s: State) returns (t: State)
    requires AllBounded(s)
    ensures t == DealtWith(s, |s.list|)
  {
    hide DealtWith, One;
    t := s;
    var zone: Option<ZoneId> := None;
    ghost var k := 0;  // the number of zones the walk has arrived at
    StartsAtZero(s);
    while true
      invariant 0 <= k <= |s.list|
      invariant zone == if k == 0 then None else Some(s.list[k - 1])
      invariant t == DealtWith(s, if k == 0 then 0 else k - 1)
      decreases |s.list| - k
    {
      if k < |s.list| {
        if k == 0 { FirstTurn(s); } else { NextTurn(s, k); }
      } else if k > 0 {
        FreeEnd(s, k - 1);
      }
      var more;
      t, zone, more := GetNextZone(t, zone);
      if !more {
        return;
      }
      t := Put(t, zone);
      k := k + 1;
    }
  }

  // stats_domain_get_next_zone: the caller's reference on the current zone is passed over. For a caller
  // that holds one, the next zone gains the reference the current one loses.
  method GetNextZone(s: State, zone: Option<ZoneId>) returns (t: State, next: Option<ZoneId>, more: bool)
    requires Live(s, zone)
    requires zone == None ==> Live(s, Head(s.list))
    requires zone.Some? ==> Live(s, Succ(s.list, zone.value))
    requires zone.Some? ==> Live(Get(s, Succ(s.list, zone.value)), zone)
    ensures next == if zone == None then Head(s.list) else Succ(s.list, zone.value)
    ensures t == Put(Get(s, next), zone) && more == next.Some?
    ensures (next.Some? ==> s.count[next.value] + 1 < TWO_TO_THE_32) && (zone.Some? ==> s.count[zone.value] > 0) ==>
      t.list == s.list && t.reclaimed == s.reclaimed && t.count.Keys == s.count.Keys
      && forall z :: z in s.count ==> t.count[z] == s.count[z] + One(next == Some(z)) - One(zone == Some(z))
  {
    next := if zone == None then Head(s.list) else Succ(s.list, zone.value);
    t := Get(s, next);
    t := Put(t, zone);
    more := next.Some?;
  }

  lemma StartsAtZero(s: State)
    requires ListCounted(s)
    ensures DealtWith(s, 0) == s
  {
    TearDown.DealtWithNone(s.list, Counts(s));
  }

  // Stepping off the end of the list, from its last zone k.
  lemma FreeEnd(s: State, k: nat)
    requires ListCounted(s) && k + 1 == |s.list|
    ensures Live(DealtWith(s, k), Some(s.list[k]))
    ensures Succ(DealtWith(s, k).list, s.list[k]) == None
    ensures Put(DealtWith(s, k), Some(s.list[k])) == DealtWith(s, k + 1)
  {
    AtZoneK(s, k);
    PutAtZoneK(s, k);
  }

  // After any run, once every owner has released and every walker is idle, tear-down reclaims the
  // whole list.
  lemma TearDownReclaimsAll(states: seq<State>, actions: seq<Action>, n: nat)
    requires IsRun(states, actions) && n < |states|
    requires forall w :: 0 <= w < |states[n].walkers| ==> states[n].walkers[w] == Idle
    requires forall z :: z in states[n].owners ==> states[n].owners[z] == Released
    ensures var s := states[n];
      && AllBounded(s) && (forall z :: z in s.list ==> s.count[z] == 0)
      && DealtWith(s, |s.list|).list == [] && DealtWith(s, |s.list|).reclaimed == s.list
  {
    RunKeepsInv(states, actions, n);
    ZonesSurviveEveryRun(states, actions, n);
    var s := states[n];
    AllUnheld(s.list, Counts(s), |s.list|);
  }

  lemma {:induction false} AllUnheld(list: seq<ZoneId>, counts: seq<nat>, k: nat)
    requires k <= |list| == |counts| && forall i :: 0 <= i < |counts| ==> counts[i] == 0
    ensures TearDown.Unheld(list, counts, k) == list[..k] && TearDown.StillHeld(list, counts, k) == []
  {
    if k > 0 { AllUnheld(list, counts, k - 1); }
  }

  // What a put on the zone at position h does to the counts along the list.
  lemma CountsWithout(s: State, t: State, h: nat)
    requires h < |s.list| && ListCounted(s)
    requires t.list == TearDown.Without(s.list, h) && t.count == s.count - {s.list[h]}
    ensures ListCounted(t) && Counts(t) == TearDown.Without(Counts(s), h)
  {
    hide TearDown.Without;
    assert forall i :: 0 <= i < |t.list| ==> t.list[i] == s.list[if i < h then i else i + 1];
  }

  lemma CountsAfterPut(s: State, h: nat)
    requires h < |s.list| && ListCounted(s)
    ensures var t := Put(s, Some(s.list[h]));
      && ListCounted(t)
      && Counts(t) == if Counts(s)[h] == 0 then TearDown.Without(Counts(s), h)
                      else Counts(s)[h := Counts(s)[h] - 1]
  {
    FoundAt(s.list, s.list[h], h);
    if s.count[s.list[h]] == 0 {
      CountsWithout(s, Put(s, Some(s.list[h])), h);
    } else {
      assert forall i :: 0 <= i < |s.list| && i != h ==> s.list[i] != s.list[h];
    }
  }

  // The counts along the list follow the tear-down of a linked list zone by zone.
  lemma {:induction false} CountsAlong(s: State, k: nat)
    requires k <= |s.list| && ListCounted(s)
    ensures ListCounted(DealtWith(s, k))
    ensures Counts(DealtWith(s, k)) == TearDown.CountsAfter(Counts(s), k)
  {
    if k == 0 {
      StartsAtZero(s);
      TearDown.DealtWithNone(s.list, Counts(s));
    } else {
      CountsAlong(s, k - 1);
      CountsAlongNext(s, k - 1);
    }
  }

  lemma CountsAlongNext(s: State, k: nat)
    requires k < |s.list| && ListCounted(s)
    requires ListCounted(DealtWith(s, k))
    requires Counts(DealtWith(s, k)) == TearDown.CountsAfter(Counts(s), k)
    ensures ListCounted(DealtWith(s, k + 1))
    ensures Counts(DealtWith(s, k + 1)) == TearDown.CountsAfter(Counts(s), k + 1)
  {
    var h := |TearDown.StillHeld(s.list, Counts(s), k)|;
    TearDown.DealWith(s.list, Counts(s), k);
    assert DealtWith(s, k).list == TearDown.ListAfter(s.list, Counts(s), k);
    PutAtZoneK(s, k);
    hide *;
    CountsAfterPut(DealtWith(s, k), h);
  }

  // Domain.Free of the linked list and DomainFree of this state end alike: the same zones on the
  // list with the same counts, and the same zones reclaimed in the same order.
  lemma SameTearDown(s: State)
    requires ListCounted(s)
    ensures var t, n := DealtWith(s, |s.list|), |s.list|;
      && t.list == TearDown.StillHeld(s.list, Counts(s), n) && ListCounted(t)
      && Counts(t) == TearDown.Lowered(Counts(s), n)
      && t.reclaimed == s.reclaimed + TearDown.Unheld(s.list, Counts(s), n)
  {
    CountsAlong(s, |s.list|);
    TearDown.DealtWithAll(s.list, Counts(s));
  }
}
