// The statistics domain: the linked list of zones and its value counts through every attach and
// detach, and the reference counting of a single walk along it. The tear-down is followed here through
// the objects: links, counts, blocks and reclaimed memory. What the reference counts can be when it
// starts, and that every zone it touches is live with counts of 32 bits, is the subject of ZoneLifetime,
// whose SameTearDown shows that both tear-downs end alike.
module StatsDomain {
  import opened TearDown
  import opened ZoneStore

  // The number of elements of the first k zones.
  function ZonesTotalUpTo(zones: seq<Zone>, k: nat): nat
    requires k <= |zones|
  {
    if k == 0 then 0 else ZonesTotalUpTo(zones, k - 1) + BlocksTotal(zones[k - 1].blocks)
  }

  function ZonesTotal(zones: seq<Zone>): nat { ZonesTotalUpTo(zones, |zones|) }

  lemma NotIn(zones: seq<Zone>, at: nat)
    requires at < |zones| && forall i, j :: 0 <= i < j < |zones| ==> zones[i] != zones[j]
    ensures forall z :: z in Without(zones, at) <==> z in zones && z != zones[at]
  {
    forall z | z in zones && z != zones[at] ensures z in Without(zones, at) {
      var i :| 0 <= i < |zones| && zones[i] == z;
      assert Without(zones, at)[if i < at then i else i - 1] == z;
    }
  }

  lemma {:induction false} TotalSamePrefix(a: seq<Zone>, b: seq<Zone>, k: nat)
    requires k <= |a| && k <= |b| && forall i :: 0 <= i < k ==> a[i] == b[i]
    ensures ZonesTotalUpTo(a, k) == ZonesTotalUpTo(b, k)
  {
    if k > 0 { TotalSamePrefix(a, b, k - 1); }
  }

  lemma {:induction false} TotalWithout(zones: seq<Zone>, at: nat, k: nat)
    requires at < |zones| && at <= k < |zones|
    ensures ZonesTotalUpTo(zones, k + 1)
         == ZonesTotalUpTo(Without(zones, at), k) + BlocksTotal(zones[at].blocks)
  {
    if k == at {
      TotalSamePrefix(zones, Without(zones, at), at);
    } else {
      TotalWithout(zones, at, k - 1);
    }
  }

  lemma LastAdds(zones: seq<Zone>)
    requires |zones| > 0
    ensures ZonesTotal(zones) == ZonesTotalUpTo(zones, |zones| - 1) + BlocksTotal(zones[|zones| - 1].blocks)
  {
  }

  function After(zones: seq<Zone>, i: nat): Zone? {
    if i + 1 < |zones| then zones[i + 1] else null
  }

  // The stored values of the first k zones of a list, zone by zone.
  function ZoneViewsUpTo(zones: seq<Zone>, k: nat): (vs: seq<seq<nat>>)
    requires k <= |zones|
    reads set z, b, m | z in zones && b in z.blocks && m in b.metrics :: m.elements
    ensures |vs| == k && forall i :: 0 <= i < k ==> vs[i] == zones[i].View()
  {
    if k == 0 then [] else ZoneViewsUpTo(zones, k - 1) + [zones[k - 1].View()]
  }

  function ZoneViews(zones: seq<Zone>): (vs: seq<seq<nat>>)
    reads set z, b, m | z in zones && b in z.blocks && m in b.metrics :: m.elements
    ensures |vs| == |zones| && forall i :: 0 <= i < |vs| ==> vs[i] == zones[i].View()
  {
    ZoneViewsUpTo(zones, |zones|)
  }

  // Zone counts add up to the length of the flattened values.
  lemma {:induction false} ZonesTotalIsLength(zones: seq<Zone>, k: nat)
    requires k <= |zones|
    ensures |FlattenUpTo(ZoneViews(zones), k)| == ZonesTotalUpTo(zones, k)
  {
    if k > 0 {
      ZonesTotalIsLength(zones, k - 1);
      BlocksTotalIsLength(zones[k - 1].blocks, |zones[k - 1].blocks|);
    }
  }

  class Domain {
    var zones: Zone?
    var nvalues: nat
    // The zones on the list, in link order, and the zones freed so far.
    ghost var spine: seq<Zone>
    ghost var reclaimed: seq<Zone>

    constructor ()
      ensures Valid() && spine == [] && reclaimed == []
    {
      zones, nvalues, spine, reclaimed := null, 0, [], [];
    }

    ghost predicate Linked()
      reads this`zones, this`spine, spine`next
    {
      (zones == if |spine| == 0 then null else spine[0])
      && (forall i {:trigger spine[i].next} :: 0 <= i < |spine| ==> spine[i].next == After(spine, i))
      && (forall i, j :: 0 <= i < j < |spine| ==> spine[i] != spine[j])
    }

    // Every zone on the list is allocated and counted.
    ghost predicate AllCounted()
      reads this`spine, spine`live, spine`nvalues
    {
      forall z :: z in spine ==> z.live && z.nvalues == BlocksTotal(z.blocks)
    }

    ghost predicate Valid()
      reads this`zones, this`spine, this`nvalues, spine`next, spine`live, spine`nvalues
    {
      Linked() && AllCounted() && nvalues == ZonesTotal(spine)
    }

    // The blocks of every zone on the list are counted; each then belongs to one zone.
    ghost predicate AllAttached()
      reads this`spine, set z, b | z in spine && b in z.blocks :: b
    {
      forall z :: z in spine ==> z.Attached()
    }

    // The walk along the links up to the one that holds the given zone, or to the end: the zone that
    // link belongs to, or none for the head of the list.
    method FindLink(zone: Zone?, ghost at: nat) returns (last: Zone?)
      requires Linked() && at <= |spine| && zone == if at < |spine| then spine[at] else null
      ensures last == if at == 0 then null else spine[at - 1]
    {
      last := null;
      var link := zones;
      ghost var k := 0;
      while link != null && link != zone
        invariant 0 <= k <= at
        invariant link == if k < |spine| then spine[k] else null
        invariant last == if k == 0 then null else spine[k - 1]
        decreases at - k
      {
        assert link == spine[k] && spine[k].next == After(spine, k);
        last := link;
        link := link.next;
        k := k + 1;
      }
    }

    method LinkLast(zone: Zone)
      requires Linked() && zone !in spine
      modifies this`zones, this`spine, spine`next, zone`next, zone`enabled
      ensures Linked() && spine == old(spine) + [zone] && zone.enabled
    {
      var last := FindLink(null, |spine|);
      if last == null {
        zones := zone;
      } else {
        last.next := zone;
      }
      zone.next := null;
      zone.enabled := true;
      spine := spine + [zone];
    }

    method Unlink(zone: Zone, ghost at: nat)
      requires Linked() && at < |spine| && spine[at] == zone
      modifies this`zones, this`spine, spine`next, zone`enabled
      ensures Linked() && spine == Without(old(spine), at)
      ensures zone.next == null && !zone.enabled
    {
      hide Without;
      var last := FindLink(zone, at);
      assert zone.next == After(spine, at);
      if last == null {
        zones := zone.next;
      } else {
        last.next := zone.next;
      }
      zone.next := null;
      zone.enabled := false;
      spine := Without(spine, at);
    }

    // Linking a new zone, then counting its blocks into it and the zone into the domain.
    method Attach(zone: Zone)
      requires Valid() && zone !in spine && zone.live && zone.Uncounted()
      modifies `zones, `nvalues, `spine, spine`next, zone`next, zone`enabled, zone`nvalues, zone.blocks
      ensures Valid() && spine == old(spine) + [zone]
      ensures zone.Counted() && zone.enabled
      ensures nvalues == old(nvalues) + zone.nvalues
    {
      TotalSamePrefix(spine, spine + [zone], |spine|);
      LinkLast(zone);
      CountLast(zone);
    }

    method CountLast(zone: Zone)
      requires Linked() && |spine| > 0 && spine[|spine| - 1] == zone && zone.live && zone.Uncounted()
      requires forall z :: z in spine && z != zone ==> z.live && z.nvalues == BlocksTotal(z.blocks)
      requires nvalues == ZonesTotalUpTo(spine, |spine| - 1)
      modifies `nvalues, zone`nvalues, zone.blocks
      ensures Valid() && zone.Counted() && nvalues == old(nvalues) + zone.nvalues
    {
      hide Linked, Total, BlocksTotal, ZonesTotal;
      LastAdds(spine);
      zone.AttachBlocks();
      nvalues := nvalues + zone.nvalues;
    }

    // Uncounting the zone's blocks, then unlinking it from wherever it is on the list.
    method Detach(zone: Zone, ghost at: nat)
      requires Valid() && at < |spine| && spine[at] == zone && zone.Counted()
      modifies `zones, `nvalues, `spine, spine`next, zone`enabled, zone`nvalues, zone.blocks
      ensures Valid() && spine == Without(old(spine), at) && zone !in spine
      ensures zone.Uncounted() && zone.next == null && !zone.enabled && zone.live
      ensures nvalues == old(nvalues) - old(zone.nvalues)
      ensures old(AllAttached()) ==> AllAttached()
    {
      hide Total, BlocksTotal, ZonesTotal, Zone.Attached;
      var count := zone.nvalues;
      UncountBlocks(zone);
      UnlinkCounted(zone, at, count);
    }

    // A block belongs to one zone, so the blocks of other zones stay as they are.
    method UncountBlocks(zone: Zone)
      requires zone.Counted()
      modifies zone`nvalues, zone.blocks
      ensures zone.Uncounted() && forall z :: z in spine && z != zone && old(z.Attached()) ==> z.Attached()
    {
      hide Total, BlocksTotal;
      zone.DetachBlocks();
      forall z | z in spine && z != zone && old(z.Attached()) ensures z.Attached() {
        assert forall b :: b in z.blocks ==> b !in zone.blocks;
      }
    }

    // The locked part: unlinking the zone and taking its values off the domain's count.
    method UnlinkCounted(zone: Zone, ghost at: nat, count: nat)
      requires Linked() && at < |spine| && spine[at] == zone && count == BlocksTotal(zone.blocks)
      requires forall z :: z in spine && z != zone ==> z.live && z.nvalues == BlocksTotal(z.blocks)
      requires nvalues == ZonesTotal(spine)
      modifies `zones, `nvalues, `spine, spine`next, zone`enabled
      ensures Valid() && spine == Without(old(spine), at) && nvalues == old(nvalues) - count
      ensures zone.next == null && !zone.enabled && forall z :: z in spine ==> z in old(spine) && z != zone
    {
      ghost var was := spine;
      hide Total, BlocksTotal, After;
      assert ZonesTotal(Without(was, at)) == nvalues - count by { TotalWithout(was, at, |was| - 1); }
      assert forall z :: z in Without(was, at) ==> z in was && z != zone by { NotIn(was, at); }
      hide ZonesTotal, Without, Linked;
      Unlink(zone, at);
      nvalues := nvalues - count;
    }

    // Reclaiming a zone: its blocks are uncounted, it leaves the list, and its memory is gone.
    method Reclaim(zone: Zone, ghost at: nat)
      requires Valid() && at < |spine| && spine[at] == zone && zone.Counted()
      modifies this, spine`next, zone`enabled, zone`nvalues, zone`live, zone.blocks
      ensures Valid() && spine == Without(old(spine), at) && reclaimed == old(reclaimed) + [zone] && !zone.live
      ensures old(AllAttached()) ==> AllAttached()
    {
      hide Total, BlocksTotal, ZonesTotal, AllAttached;
      Detach(zone, at);
      assert zone !in spine;
      zone.live := false;
      reclaimed := reclaimed + [zone];
    }

    // Giving up a reference: the put that finds the count at 0 reclaims the zone.
    method Put(zone: Zone, ghost at: nat)
      requires Valid() && at < |spine| && spine[at] == zone && (zone.refCount == 0 ==> zone.Counted())
      modifies zone`refCount
      modifies if zone.refCount == 0 then {this} else {}
      modifies set z | z in spine && zone.refCount == 0
      modifies set b | b in zone.blocks && zone.refCount == 0
      ensures Valid() && (old(AllAttached()) ==> AllAttached())
      ensures old(zone.refCount) > 0 ==> spine == old(spine) && forall k :: 0 <= k < |spine| ==>
        spine[k].refCount == old(spine[k].refCount) - if k == at then 1 else 0
      ensures old(zone.refCount) == 0 ==>
        spine == Without(old(spine), at) && reclaimed == old(reclaimed) + [zone] && !zone.live
      ensures old(zone.refCount) == 0 ==> forall k :: 0 <= k < |old(spine)| ==>
        old(spine)[k].refCount == old(spine[k].refCount)
    {
      var found := zone.refCount;
      if found == 0 {
        Reclaim(zone, at);
      } else {
        Drop(zone, at);
      }
    }

    method Drop(zone: Zone, ghost at: nat)
      requires Valid() && at < |spine| && spine[at] == zone && zone.refCount > 0
      modifies zone`refCount
      ensures Valid() && (old(AllAttached()) ==> AllAttached())
      ensures forall k :: 0 <= k < |spine| ==>
        spine[k].refCount == old(spine[k].refCount) - if k == at then 1 else 0
    {
      zone.refCount := zone.refCount - 1;
    }

    // The locked part of a step: the zone after the one given, or the first, with a new reference.
    method TakeNext(zone: Zone?, ghost i: nat) returns (next: Zone?)
      requires Valid() && i <= |spine| && zone == (if i == 0 then null else spine[i - 1])
      modifies spine`refCount
      ensures Valid() && (old(AllAttached()) ==> AllAttached())
      ensures next == if i < |spine| then spine[i] else null
      ensures forall k :: 0 <= k < |spine| ==>
        spine[k].refCount == old(spine[k].refCount) + if k == i then 1 else 0
    {
      if zone == null {
        next := zones;
      } else {
        assert spine[i - 1].next == After(spine, i - 1);
        next := zone.next;
      }
      if next != null {
        assert next == spine[i];
        next.refCount := next.refCount + 1;
      }
    }

    // The next zone of a walk that has reached i zones and holds a reference on the last of them:
    // the reference is passed over.
    method GetNextZone(zone: Zone?, ghost i: nat) returns (next: Zone?)
      requires Valid() && i <= |spine| && zone == (if i == 0 then null else spine[i - 1])
      requires zone != null ==> zone.refCount > 0
      modifies spine`refCount
      ensures Valid() && next == if i < |spine| then spine[i] else null
      ensures forall k :: 0 <= k < |spine| ==>
        spine[k].refCount == old(spine[k].refCount) + (if k == i then 1 else 0) - (if k + 1 == i then 1 else 0)
    {
      hide Valid, AllAttached;
      next := TakeNext(zone, i);
      if zone != null {
        Put(zone, i - 1);
      }
    }

    // ---- Flattened reads ----

    // A walk stands at zone i - 1 and holds one reference there (none for i = 0); apart from that
    // the counts are the given ones.
    ghost predicate Standing(counts: seq<nat>, i: nat)
      reads this`spine, spine`refCount
    {
      |counts| == |spine| && forall k :: 0 <= k < |spine| ==>
        spine[k].refCount == counts[k] + if k + 1 == i then 1 else 0
    }

    // The walk's moves, and its read of the zone it stands at. None touches the element stores.
    method StepOn(zone: Zone?, values: array<nat>, ghost i: nat, ghost counts: seq<nat>, ghost views: seq<seq<nat>>)
      returns (next: Zone?)
      requires Valid() && Standing(counts, i) && ZoneViews(spine) == views
      requires i <= |spine| && zone == (if i == 0 then null else spine[i - 1])
      modifies spine`refCount
      ensures Valid() && Standing(counts, if i < |spine| then i + 1 else 0) && ZoneViews(spine) == views
      ensures next == (if i < |spine| then spine[i] else null) && values[..] == old(values[..])
    {
      hide Valid, ZoneViews, AllAttached;
      next := GetNextZone(zone, i);
    }

    method StepOff(zone: Zone, values: array<nat>, ghost i: nat, ghost counts: seq<nat>, ghost views: seq<seq<nat>>)
      requires Valid() && Standing(counts, i + 1) && ZoneViews(spine) == views
      requires i < |spine| && zone == spine[i]
      modifies zone`refCount
      ensures Valid() && Standing(counts, 0) && ZoneViews(spine) == views
      ensures values[..] == old(values[..])
    {
      hide Valid, ZoneViews, AllAttached;
      Put(zone, i);
    }

    method ReadZone(zone: Zone, values: array<nat>, at: nat, room: nat,
        ghost i: nat, ghost counts: seq<nat>, ghost views: seq<seq<nat>>) returns (got: nat)
      requires Valid() && Standing(counts, i + 1) && ZoneViews(spine) == views
      requires i < |spine| == |views| && zone == spine[i] && at + room <= values.Length
      modifies values
      ensures got == Min(room, |views[i]|) <= room
      ensures values[..] == Splice(old(values[..]), at, views[i][..got])
      ensures Valid() && Standing(counts, i + 1) && ZoneViews(spine) == views
    {
      hide *;
      got := zone.GetValues(values, at, room);
    }

    // The read loop: every zone's values behind those of the zones before it, as far as there is
    // room. Stopped early or not, the walk gives back every reference it took.
    method ReadZones(values: array<nat>, nvalues: nat, ghost counts: seq<nat>, ghost views: seq<seq<nat>>)
      returns (n: nat)
      requires Valid() && Standing(counts, 0) && ZoneViews(spine) == views && nvalues <= values.Length
      modifies values, spine`refCount
      ensures Valid() && Standing(counts, 0) && ZoneViews(spine) == views
      ensures Filled(old(values[..]), values[..], 0, views, |views|, nvalues, n)
    {
      hide *;
      n := 0;
      var zone: Zone? := null;
      ghost var i, was := 0, values[..];
      FillStart(was, 0, views, nvalues);
      while true
        invariant 0 <= i <= |spine| == |views| && zone == if i == 0 then null else spine[i - 1]
        invariant Valid() && Standing(counts, i) && ZoneViews(spine) == views
        invariant n <= nvalues && Filled(was, values[..], 0, views, i, nvalues, n)
        decreases |spine| - i
      {
        zone := StepOn(zone, values, i, counts, views);
        if zone == null {
          FillEnd(was, values[..], 0, views, i, nvalues, n);
          return;
        }
        ghost var mid := values[..];
        var got := ReadZone(zone, values, n, nvalues - n, i, counts, views);
        FillStep(was, mid, values[..], 0, views, i, nvalues, n, got);
        n := n + got;
        i := i + 1;
        if n >= nvalues {
          FillEnd(was, values[..], 0, views, i, nvalues, n);
          StepOff(zone, values, i - 1, counts, views);
          return;
        }
      }
    }

    // The domain's count is the number of values a read with enough room delivers.
    lemma CountIsLength()
      requires Valid()
      ensures nvalues == |Flatten(ZoneViews(spine))|
    {
      ZonesTotalIsLength(spine, |spine|);
    }

    // A flattened read of the whole domain: the first min(room, nvalues) values in zone, block,
    // metric and element order, and nothing else written. Every reference count is as before.
    method GetValues(values: array<nat>, room: nat) returns (n: nat)
      requires Valid() && room <= values.Length
      modifies values, spine`refCount
      ensures Valid() && forall k :: 0 <= k < |spine| ==> spine[k].refCount == old(spine[k].refCount)
      ensures ZoneViews(spine) == old(ZoneViews(spine)) && |Flatten(ZoneViews(spine))| == nvalues
      ensures n == Min(room, nvalues)
      ensures values[..] == Splice(old(values[..]), 0, Flatten(ZoneViews(spine))[..n])
    {
      CountIsLength();
      ghost var views, counts := ZoneViews(spine), RefCounts();
      hide Valid, ZoneViews, Flatten, FlattenUpTo, Splice, RefCounts;
      n := ReadZones(values, room, counts, views);
    }

    // ---- Tear-down ----

    lemma StandingMeans(counts: seq<nat>, i: nat)
      requires Standing(counts, i)
      ensures forall k :: 0 <= k < |spine| ==> spine[k].refCount == counts[k] + if k + 1 == i then 1 else 0
    {
    }

    lemma StandingAt(counts: seq<nat>, i: nat)
      requires |counts| == |spine|
      requires forall k :: 0 <= k < |spine| ==> spine[k].refCount == counts[k] + if k + 1 == i then 1 else 0
      ensures Standing(counts, i)
    {
    }

    // Taking a reference on the zone at a position, and giving one up there.
    method TakeAt(zone: Zone?, ghost at: nat, ghost counts: seq<nat>) returns (next: Zone?)
      requires Valid() && AllAttached() && Standing(counts, 0)
      requires at <= |spine| && zone == (if at == 0 then null else spine[at - 1])
      modifies spine`refCount
      ensures Valid() && AllAttached() && Standing(counts, if at < |spine| then at + 1 else 0)
      ensures next == if at < |spine| then spine[at] else null
    {
      hide Valid, AllAttached;
      next := TakeNext(zone, at);
    }

    method PutBack(zone: Zone, ghost at: nat, ghost counts: seq<nat>)
      requires Valid() && AllAttached() && Standing(counts, at + 1) && at < |spine| && zone == spine[at]
      modifies zone`refCount
      ensures Valid() && AllAttached() && Standing(counts, 0)
    {
      hide Valid, AllAttached;
      Drop(zone, at);
    }

    // The put that steps off a zone, with a reference held on the zone behind it or none.
    method PutDown(zone: Zone, ghost at: nat, ghost counts: seq<nat>, ghost up: nat)
      requires Valid() && AllAttached() && Standing(counts, up) && up in {0, at + 2}
      requires at < |spine| && zone == spine[at]
      modifies this, spine, set b | b in zone.blocks
      ensures Valid() && AllAttached()
      ensures counts[at] > 0 ==>
        spine == old(spine) && reclaimed == old(reclaimed) && Standing(counts[at := counts[at] - 1], up)
      ensures counts[at] == 0 ==>
        spine == Without(old(spine), at) && reclaimed == old(reclaimed) + [zone]
        && Standing(Without(counts, at), if up == 0 then 0 else up - 1)
    {
      StandingMeans(counts, up);
      assert zone.Counted();
      hide *;
      Put(zone, at);
      if counts[at] > 0 {
        StandingAt(counts[at := counts[at] - 1], up);
      } else {
        StandingAt(Without(counts, at), if up == 0 then 0 else up - 1);
      }
    }

    // The domain when the first k of the zones there were have been dealt with.
    ghost predicate DownTo(was: seq<Zone>, counts: seq<nat>, gone: seq<Zone>, k: nat, up: nat)
      reads this, spine, set z, b | z in spine && b in z.blocks :: b
    {
      k <= |was| == |counts| && Valid() && AllAttached() && Standing(CountsAfter(counts, k), up)
      && spine == ListAfter(was, counts, k) && reclaimed == gone + Unheld(was, counts, k)
    }

    lemma DownToMeans(was: seq<Zone>, counts: seq<nat>, gone: seq<Zone>, k: nat, up: nat)
      requires k <= |was| == |counts|
      ensures DownTo(was, counts, gone, k, up) <==>
        && Valid() && AllAttached() && Standing(CountsAfter(counts, k), up)
        && spine == ListAfter(was, counts, k) && reclaimed == gone + Unheld(was, counts, k)
    {
    }

    lemma DownFromStart()
      requires Valid() && AllAttached()
      ensures DownTo(spine, RefCounts(), reclaimed, 0, 0)
    {
      DealtWithNone(spine, RefCounts());
    }

    lemma DownToTheEnd(was: seq<Zone>, counts: seq<nat>, gone: seq<Zone>)
      requires |was| == |counts| && DownTo(was, counts, gone, |was|, 0)
      ensures Valid() && AllAttached() && spine == StillHeld(was, counts, |was|)
      ensures reclaimed == gone + Unheld(was, counts, |was|) && RefCounts() == Lowered(counts, |was|)
    {
      DealtWithAll(was, counts);
    }

    // The step of the tear-down to zone j: a reference on it, and one less of the zone behind.
    method StepDown(zone: Zone?, ghost j: nat, ghost was: seq<Zone>, ghost counts: seq<nat>, ghost gone: seq<Zone>)
      returns (next: Zone?)
      requires j <= |was| == |counts| && zone == if j == 0 then null else was[j - 1]
      requires DownTo(was, counts, gone, if j == 0 then 0 else j - 1, 0)
      modifies this, was, set z, b | z in was && b in z.blocks :: b
      ensures next == if j < |was| then was[j] else null
      ensures DownTo(was, counts, gone, j, if j < |was| then |StillHeld(was, counts, j)| + 1 else 0)
    {
      hide *;
      ghost var k := if j == 0 then 0 else j - 1;
      ghost var h := |StillHeld(was, counts, k)|;
      ghost var at := if j == 0 then 0 else h + 1;
      DealtWithNone(was, counts);
      if was != [] { DealWith(was, counts, k); }
      HeldLowered(was, counts, k);
      DownToMeans(was, counts, gone, k, 0);
      assert forall i :: 0 <= i < |spine| ==> spine[i] in was;
      next := TakeAt(zone, at, CountsAfter(counts, k));
      if zone != null {
        PutDown(zone, h, CountsAfter(counts, k), if next == null then 0 else at + 1);
        assert reclaimed == gone + Unheld(was, counts, j);
      }
      DownToMeans(was, counts, gone, j, if next == null then 0 else |StillHeld(was, counts, j)| + 1);
    }

    // The walk along the list: the reference taken on each zone is dropped at once, and stepping on
    // drops one more of the zone behind.
    method FreeZones(ghost was: seq<Zone>, ghost counts: seq<nat>, ghost gone: seq<Zone>)
      requires |was| == |counts| && DownTo(was, counts, gone, 0, 0)
      modifies this, was, set z, b | z in was && b in z.blocks :: b
      ensures DownTo(was, counts, gone, |was|, 0)
    {
      hide *;
      var zone: Zone? := null;
      ghost var j := 0;  // the number of zones the walk has arrived at
      while true
        invariant 0 <= j <= |was| && zone == if j == 0 then null else was[j - 1]
        invariant DownTo(was, counts, gone, if j == 0 then 0 else j - 1, 0)
        decreases |was| - j
      {
        zone := StepDown(zone, j, was, counts, gone);
        if zone == null {
          return;
        }
        PutHere(zone, j, was, counts, gone);
        j := j + 1;
      }
    }

    method PutHere(zone: Zone, ghost j: nat, ghost was: seq<Zone>, ghost counts: seq<nat>, ghost gone: seq<Zone>)
      requires j < |was| == |counts| && zone == was[j] && DownTo(was, counts, gone, j, |StillHeld(was, counts, j)| + 1)
      modifies zone`refCount
      ensures DownTo(was, counts, gone, j, 0)
    {
      hide *;
      DealWith(was, counts, j);
      DownToMeans(was, counts, gone, j, |StillHeld(was, counts, j)| + 1);
      PutBack(zone, |StillHeld(was, counts, j)|, CountsAfter(counts, j));
      DownToMeans(was, counts, gone, j, 0);
    }

    ghost function RefCounts(): (counts: seq<nat>)
      reads this, spine
      ensures |counts| == |spine| && forall k :: 0 <= k < |spine| ==> counts[k] == spine[k].refCount
    {
      seq(|spine|, k requires 0 <= k < |spine| reads this, spine => spine[k].refCount)
    }

    // Freeing the domain: the zones whose owner has released are reclaimed, each once and in list order;
    // those still held stay on the list with one reference less.
    method Free()
      requires Valid() && AllAttached()
      modifies this, spine, set z, b | z in spine && b in z.blocks :: b
      ensures Valid() && AllAttached()
      ensures spine == StillHeld(old(spine), old(RefCounts()), |old(spine)|)
      ensures reclaimed == old(reclaimed) + Unheld(old(spine), old(RefCounts()), |old(spine)|)
      ensures RefCounts() == Lowered(old(RefCounts()), |old(spine)|)
    {
      hide *;
      ghost var was, counts, gone := spine, RefCounts(), reclaimed;
      DownFromStart();
      FreeZones(was, counts, gone);
      DownToTheEnd(was, counts, gone);
    }
  }
}
