// Zones, blocks and metrics: the value counts kept at every level, and reads of their values into a
// caller's buffer.
module ZoneStore {
  import opened StatsStore

  // ---- Lists of lists ----

  function Min(a: nat, b: nat): (m: nat)
    ensures m <= a && m <= b
  {
    if a < b then a else b
  }

  // The first k lists, one after the other.
  function FlattenUpTo(xs: seq<seq<nat>>, k: nat): seq<nat>
    requires k <= |xs|
  {
    if k == 0 then [] else FlattenUpTo(xs, k - 1) + xs[k - 1]
  }

  function Flatten(xs: seq<seq<nat>>): seq<nat> { FlattenUpTo(xs, |xs|) }

  lemma {:induction false} FlattenPrefix(xs: seq<seq<nat>>, k: nat, j: nat)
    requires k <= j <= |xs|
    ensures FlattenUpTo(xs, k) <= FlattenUpTo(xs, j)
    decreases j
  {
    if k < j { FlattenPrefix(xs, k, j - 1); }
  }

  // A buffer with a piece written at a position.
  function Splice(was: seq<nat>, at: nat, piece: seq<nat>): (now: seq<nat>)
    requires at + |piece| <= |was|
    ensures |now| == |was|
  {
    if piece == [] then was
    else
      var n := |piece| - 1;
      Splice(was, at, piece[..n])[at + n := piece[n]]
  }

  lemma {:induction false} SpliceIsSlices(was: seq<nat>, at: nat, piece: seq<nat>)
    requires at + |piece| <= |was|
    ensures Splice(was, at, piece) == was[..at] + piece + was[at + |piece|..]
  {
    if piece != [] { SpliceIsSlices(was, at, piece[..|piece| - 1]); }
  }

  // Two adjacent pieces are one.
  lemma {:induction false} SpliceTwice(was: seq<nat>, at: nat, p: seq<nat>, q: seq<nat>)
    requires at + |p| + |q| <= |was|
    ensures Splice(Splice(was, at, p), at + |p|, q) == Splice(was, at, p + q)
  {
    if q == [] {
      assert p + q == p;
    } else {
      SpliceTwice(was, at, p, q[..|q| - 1]);
      assert (p + q)[..|p + q| - 1] == p + q[..|q| - 1];
    }
  }

  // The buffer holds the first k lists from a position on, as far as there is room.
  ghost predicate Filled(was: seq<nat>, now: seq<nat>, at: nat, xs: seq<seq<nat>>, k: nat, room: nat, n: nat) {
    && k <= |xs| && at + room <= |was|
    && n == Min(room, |FlattenUpTo(xs, k)|)
    && now == Splice(was, at, FlattenUpTo(xs, k)[..n])
  }

  lemma FillStart(was: seq<nat>, at: nat, xs: seq<seq<nat>>, room: nat)
    requires at + room <= |was|
    ensures Filled(was, was, at, xs, 0, room, 0)
  {
  }

  // List k is written behind the lists before it.
  lemma FillStep(was: seq<nat>, mid: seq<nat>, now: seq<nat>, at: nat, xs: seq<seq<nat>>, k: nat,
                 room: nat, n: nat, got: nat)
    requires k < |xs| && Filled(was, mid, at, xs, k, room, n)
    requires got == Min(room - n, |xs[k]|) && now == Splice(mid, at + n, xs[k][..got])
    ensures Filled(was, now, at, xs, k + 1, room, n + got)
  {
    var done := FlattenUpTo(xs, k);
    if n == room {
      assert FlattenUpTo(xs, k + 1)[..n] == done[..n];
    } else {
      assert done[..n] == done;
      SpliceTwice(was, at, done, xs[k][..got]);
      assert FlattenUpTo(xs, k + 1)[..n + got] == done + xs[k][..got];
    }
  }

  // Stopping after the last list, or once there is no more room, makes no difference.
  lemma FillEnd(was: seq<nat>, now: seq<nat>, at: nat, xs: seq<seq<nat>>, k: nat, room: nat, n: nat)
    requires Filled(was, now, at, xs, k, room, n) && (k == |xs| || n == room)
    ensures Filled(was, now, at, xs, |xs|, room, n)
    ensures n == Min(room, |Flatten(xs)|) && now == Splice(was, at, Flatten(xs)[..n])
  {
    FlattenPrefix(xs, k, |xs|);
    assert FlattenUpTo(xs, k)[..n] == Flatten(xs)[..n];
  }

  // ---- Metrics and blocks ----

  // The stored values of one metric, and of a list of metrics one by one.
  function Stored(es: seq<Element>): (vs: seq<nat>)
    ensures |vs| == |es| && forall i :: 0 <= i < |vs| ==> vs[i] == es[i].u64
  {
    seq(|es|, i requires 0 <= i < |es| => es[i].u64)
  }

  function MetricViewsUpTo(ms: seq<Metric>, k: nat): (vs: seq<seq<nat>>)
    requires k <= |ms|
    reads set m | m in ms :: m.elements
    ensures |vs| == k && forall i :: 0 <= i < k ==> vs[i] == Stored(ms[i].elements[..])
  {
    if k == 0 then [] else MetricViewsUpTo(ms, k - 1) + [Stored(ms[k - 1].elements[..])]
  }

  function MetricViews(ms: seq<Metric>): (vs: seq<seq<nat>>)
    reads set m | m in ms :: m.elements
    ensures |vs| == |ms| && forall i :: 0 <= i < |ms| ==> vs[i] == Stored(ms[i].elements[..])
  {
    MetricViewsUpTo(ms, |ms|)
  }

  // The number of elements of the first k metrics.
  function TotalUpTo(ms: seq<Metric>, k: nat): nat
    requires k <= |ms|
  {
    if k == 0 then 0 else TotalUpTo(ms, k - 1) + ms[k - 1].elements.Length
  }

  function Total(ms: seq<Metric>): nat { TotalUpTo(ms, |ms|) }

  lemma {:induction false} TotalIsLength(ms: seq<Metric>, k: nat)
    requires k <= |ms|
    ensures |FlattenUpTo(MetricViews(ms), k)| == TotalUpTo(ms, k)
  {
    if k > 0 { TotalIsLength(ms, k - 1); }
  }

  lemma {:induction false} TotalGrows(ms: seq<Metric>, k: nat, j: nat)
    requires k <= j <= |ms|
    ensures TotalUpTo(ms, k) <= TotalUpTo(ms, j)
    decreases j
  {
    if k < j { TotalGrows(ms, k, j - 1); }
  }

  method MetricGetValues(metric: Metric, values: array<nat>, at: nat, nvalues: nat) returns (n: nat)
    requires at + nvalues <= values.Length
    modifies values
    ensures n == Min(nvalues, metric.elements.Length)
    ensures values[..] == Splice(old(values[..]), at, Stored(metric.elements[..])[..n])
  {
    n := Min(nvalues, metric.elements.Length);
    for k := 0 to n
      invariant values[..] == Splice(old(values[..]), at, Stored(metric.elements[..])[..k])
    {
      values[at + k] := metric.elements[k].u64;
      assert Stored(metric.elements[..])[..k + 1][..k] == Stored(metric.elements[..])[..k];
    }
  }

  class Block {
    const metrics: seq<Metric>
    var nvalues: nat
    var zone: Zone?

    constructor (metrics: seq<Metric>)
      ensures this.metrics == metrics && nvalues == 0 && zone == null
    {
      this.metrics, nvalues, zone := metrics, 0, null;
    }

    // All stored values of the block, in metric and element order.
    function View(): seq<nat>
      reads set m | m in metrics :: m.elements
    {
      Flatten(MetricViews(metrics))
    }

    // The turn of one metric. The caller's buffer is none of the element stores.
    method GetMetricValues(k: nat, values: array<nat>, at: nat, room: nat) returns (got: nat)
      requires k < |metrics| && at + room <= values.Length
      modifies values
      ensures MetricViews(metrics) == old(MetricViews(metrics))
      ensures got == Min(room, |MetricViews(metrics)[k]|)
      ensures values[..] == Splice(old(values[..]), at, MetricViews(metrics)[k][..got])
    {
      got := MetricGetValues(metrics[k], values, at, room);
      assert forall m :: m in metrics ==> (m.elements as object) != values;
    }

    method GetValues(values: array<nat>, at: nat, nvalues: nat) returns (n: nat)
      requires at + nvalues <= values.Length
      modifies values
      ensures n == Min(nvalues, |View()|)
      ensures values[..] == Splice(old(values[..]), at, View()[..n])
    {
      hide Filled, MetricViews, Flatten, Splice;
      n := 0;
      var k := 0;
      ghost var was, views := values[..], MetricViews(metrics);
      FillStart(was, at, views, nvalues);
      while n < nvalues && k < |metrics|
        invariant k <= |metrics| && MetricViews(metrics) == views
        invariant n <= nvalues && Filled(was, values[..], at, views, k, nvalues, n)
        decreases |metrics| - k
      {
        ghost var mid := values[..];
        var got := GetMetricValues(k, values, at + n, nvalues - n);
        FillStep(was, mid, values[..], at, views, k, nvalues, n, got);
        n := n + got;
        k := k + 1;
      }
      FillEnd(was, values[..], at, views, k, nvalues, n);
    }
  }

  // ---- Zones ----

  function BlockViewsUpTo(blocks: seq<Block>, k: nat): (vs: seq<seq<nat>>)
    requires k <= |blocks|
    reads set b, m | b in blocks && m in b.metrics :: m.elements
    ensures |vs| == k && forall i :: 0 <= i < k ==> vs[i] == blocks[i].View()
  {
    if k == 0 then [] else BlockViewsUpTo(blocks, k - 1) + [blocks[k - 1].View()]
  }

  function BlockViews(blocks: seq<Block>): (vs: seq<seq<nat>>)
    reads set b, m | b in blocks && m in b.metrics :: m.elements
    ensures |vs| == |blocks| && forall i :: 0 <= i < |blocks| ==> vs[i] == blocks[i].View()
  {
    BlockViewsUpTo(blocks, |blocks|)
  }

  // The number of elements of the first k blocks.
  function BlocksTotalUpTo(blocks: seq<Block>, k: nat): nat
    requires k <= |blocks|
  {
    if k == 0 then 0 else BlocksTotalUpTo(blocks, k - 1) + Total(blocks[k - 1].metrics)
  }

  function BlocksTotal(blocks: seq<Block>): nat { BlocksTotalUpTo(blocks, |blocks|) }

  lemma {:induction false} BlocksTotalIsLength(blocks: seq<Block>, k: nat)
    requires k <= |blocks|
    ensures |FlattenUpTo(BlockViews(blocks), k)| == BlocksTotalUpTo(blocks, k)
  {
    if k > 0 {
      BlocksTotalIsLength(blocks, k - 1);
      TotalIsLength(blocks[k - 1].metrics, |blocks[k - 1].metrics|);
    }
  }

  lemma {:induction false} BlocksTotalGrows(blocks: seq<Block>, k: nat, j: nat)
    requires k <= j <= |blocks|
    ensures BlocksTotalUpTo(blocks, k) <= BlocksTotalUpTo(blocks, j)
    decreases j
  {
    if k < j { BlocksTotalGrows(blocks, k, j - 1); }
  }

  // One block's share, and what the blocks behind it leave of the whole.
  lemma BlocksTotalNext(blocks: seq<Block>, k: nat)
    requires k < |blocks|
    ensures BlocksTotalUpTo(blocks, k + 1) == BlocksTotalUpTo(blocks, k) + Total(blocks[k].metrics)
    ensures BlocksTotalUpTo(blocks, k + 1) <= BlocksTotal(blocks)
  {
    BlocksTotalGrows(blocks, k + 1, |blocks|);
  }

  class Zone {
    const blocks: seq<Block>
    var next: Zone?
    var nvalues: nat
    var refCount: nat
    var enabled: bool
    // Whether the zone's memory is still allocated.
    ghost var live: bool

    constructor (blocks: seq<Block>)
      ensures this.blocks == blocks && next == null && nvalues == 0 && refCount == 0 && live
    {
      this.blocks := blocks;
      next, nvalues, refCount, enabled, live := null, 0, 0, false, true;
    }

    // All stored values of the zone, in block, metric and element order.
    function View(): seq<nat>
      reads set b, m | b in blocks && m in b.metrics :: m.elements
    {
      Flatten(BlockViews(blocks))
    }

    ghost predicate DistinctBlocks() {
      forall i, j :: 0 <= i < j < |blocks| ==> blocks[i] != blocks[j]
    }

    // Fresh from allocation, or after detaching: nothing is counted.
    ghost predicate Uncounted()
      reads this`nvalues, blocks`zone, blocks`nvalues
    {
      DistinctBlocks() && nvalues == 0
      && forall b :: b in blocks ==> b.zone == null && b.nvalues == 0
    }

    // Every block belongs to the zone and counts its elements.
    ghost predicate Attached()
      reads set b | b in blocks :: b
    {
      DistinctBlocks() && forall b :: b in blocks ==> b.zone == this && b.nvalues == Total(b.metrics)
    }

    // The zone's and every block's count is the number of elements below it.
    ghost predicate Counted()
      reads this`nvalues, set b | b in blocks :: b
    {
      Attached() && nvalues == BlocksTotal(blocks)
    }

    method BlockAttach(k: nat)
      requires k < |blocks| && blocks[k].nvalues == 0
      modifies this`nvalues, blocks[k]
      ensures blocks[k].zone == this && blocks[k].nvalues == Total(blocks[k].metrics)
      ensures nvalues == old(nvalues) + Total(blocks[k].metrics)
    {
      var blk := blocks[k];
      blk.zone := this;
      for m := 0 to |blk.metrics|
        invariant blk.nvalues == TotalUpTo(blk.metrics, m) && blk.zone == this && nvalues == old(nvalues)
      {
        blk.nvalues := blk.nvalues + blk.metrics[m].elements.Length;
      }
      nvalues := nvalues + blk.nvalues;
    }

    method BlockDetach(k: nat)
      requires k < |blocks| && blocks[k].nvalues == Total(blocks[k].metrics) <= nvalues
      modifies this`nvalues, blocks[k]
      ensures blocks[k].zone == null && blocks[k].nvalues == 0
      ensures nvalues == old(nvalues) - Total(blocks[k].metrics)
    {
      var blk := blocks[k];
      nvalues := nvalues - blk.nvalues;
      for m := 0 to |blk.metrics|
        invariant blk.nvalues == Total(blk.metrics) - TotalUpTo(blk.metrics, m)
        invariant nvalues == old(nvalues) - Total(blk.metrics)
      {
        TotalGrows(blk.metrics, m + 1, |blk.metrics|);
        blk.nvalues := blk.nvalues - blk.metrics[m].elements.Length;
      }
      blk.zone := null;
    }

    method AttachBlocks()
      requires Uncounted()
      modifies this`nvalues, blocks
      ensures Counted()
    {
      hide Total;
      for k := 0 to |blocks|
        invariant nvalues == BlocksTotalUpTo(blocks, k)
        invariant forall i :: 0 <= i < k ==> blocks[i].zone == this && blocks[i].nvalues == Total(blocks[i].metrics)
        invariant forall i :: k <= i < |blocks| ==> blocks[i].nvalues == 0
      {
        BlockAttach(k);
      }
    }

    method DetachBlocks()
      requires Counted()
      modifies this`nvalues, blocks
      ensures Uncounted()
    {
      for k := 0 to |blocks|
        invariant CountedFrom(k)
      {
        DetachNext(k);
      }
    }

    // Detaching has reached block k.
    ghost predicate CountedFrom(k: nat)
      reads this`nvalues, blocks`zone, blocks`nvalues
    {
      && k <= |blocks| && DistinctBlocks()
      && nvalues == BlocksTotal(blocks) - BlocksTotalUpTo(blocks, k)
      && (forall i :: 0 <= i < k ==> blocks[i].zone == null && blocks[i].nvalues == 0)
      && (forall i :: k <= i < |blocks| ==> blocks[i].nvalues == Total(blocks[i].metrics))
    }

    method DetachNext(k: nat)
      requires k < |blocks| && CountedFrom(k)
      modifies this`nvalues, blocks[k]
      ensures CountedFrom(k + 1)
    {
      hide Total, BlocksTotal, BlocksTotalUpTo;
      BlocksTotalNext(blocks, k);
      BlockDetach(k);
    }

    // The turn of one block. The caller's buffer is none of the element stores.
    method GetBlockValues(k: nat, values: array<nat>, at: nat, room: nat) returns (got: nat)
      requires k < |blocks| && at + room <= values.Length
      modifies values
      ensures BlockViews(blocks) == old(BlockViews(blocks))
      ensures got == Min(room, |BlockViews(blocks)[k]|)
      ensures values[..] == Splice(old(values[..]), at, BlockViews(blocks)[k][..got])
    {
      got := blocks[k].GetValues(values, at, room);
      assert forall b, m :: b in blocks && m in b.metrics ==> (m.elements as object) != values;
    }

    method GetValues(values: array<nat>, at: nat, nvalues: nat) returns (n: nat)
      requires at + nvalues <= values.Length
      modifies values
      ensures n == Min(nvalues, |View()|)
      ensures values[..] == Splice(old(values[..]), at, View()[..n])
    {
      hide Filled, BlockViews, Flatten, Splice;
      n := 0;
      var k := 0;
      ghost var was, views := values[..], BlockViews(blocks);
      FillStart(was, at, views, nvalues);
      while n < nvalues && k < |blocks|
        invariant k <= |blocks| && BlockViews(blocks) == views
        invariant n <= nvalues && Filled(was, values[..], at, views, k, nvalues, n)
        decreases |blocks| - k
      {
        ghost var mid := values[..];
        var got := GetBlockValues(k, values, at + n, nvalues - n);
        FillStep(was, mid, values[..], at, views, k, nvalues, n, got);
        n := n + got;
        k := k + 1;
      }
      FillEnd(was, values[..], at, views, k, nvalues, n);
    }
  }
}
