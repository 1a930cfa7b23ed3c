// Spreading receive queues over the hash-to-queue tables of a host function.
module QueueSpread {
  import Arith

  const CHANNELS: nat := 2
  const FUNCTIONS: nat := 4  // PF, VF0, VF1, VF2

  // The registers of one function of one channel.
  class Function {
    const table: array<nat>
    var tableBase: nat
    var base: nat
    var numQueues: nat

    constructor (entries: nat)
      ensures fresh(table) && table.Length == entries
    {
      table := new nat[entries](_ => 0);
      tableBase, base, numQueues := 0, 0, 0;
    }
  }

  // The table for a number of queues. What it gives each queue is SpreadIsEven below.
  function Spread(entries: nat, numQueues: nat): (table: seq<nat>)
    ensures |table| == entries
  {
    var k := if numQueues > 0 then numQueues else 1;
    seq(entries, q requires 0 <= q < entries => q % k)
  }

  // regs holds the functions channel by channel. A request for more queues than the table has entries
  // fails, but only after the table's base queue has been overwritten.
  method SetQueues(regs: seq<Function>, channel: nat, func: nat, baseQueue: nat, numQueues: nat)
    returns (ok: bool)
    requires |regs| == CHANNELS * FUNCTIONS
    modifies if channel < CHANNELS && func < FUNCTIONS
             then {regs[channel * FUNCTIONS + func], regs[channel * FUNCTIONS + func].table} else {}
    ensures ok <==> channel < CHANNELS && func < FUNCTIONS
                    && numQueues <= regs[channel * FUNCTIONS + func].table.Length
    ensures channel < CHANNELS && func < FUNCTIONS ==>
      var r := regs[channel * FUNCTIONS + func];
      && r.tableBase == baseQueue
      && if ok then
           r.base == baseQueue && r.numQueues == numQueues && r.table[..] == Spread(r.table.Length, numQueues)
           && EqualWeights(r.table[..], numQueues)
         else r.base == old(r.base) && r.numQueues == old(r.numQueues) && r.table[..] == old(r.table[..])
  {
    if channel >= CHANNELS || func >= FUNCTIONS {
      return false;
    }
    var r := regs[channel * FUNCTIONS + func];
    var spread := if numQueues > 0 then numQueues else 1;
    r.tableBase := baseQueue;
    if numQueues > r.table.Length {
      return false;
    }
    for q := 0 to r.table.Length
      invariant r.tableBase == baseQueue && r.base == old(r.base) && r.numQueues == old(r.numQueues)
      invariant forall i :: 0 <= i < q ==> r.table[i] == Spread(r.table.Length, numQueues)[i]
    {
      r.table[q] := q % spread;
    }
    r.base := baseQueue;
    r.numQueues := numQueues;
    SpreadIsEven(r.table.Length, numQueues);
    return true;
  }

  // The number of entries of a table that name queue v.
  function Count(table: seq<nat>, v: nat): nat {
    if table == [] then 0
    else Count(table[..|table| - 1], v) + if table[|table| - 1] == v then 1 else 0
  }

  predicate IsSpread(table: seq<nat>, k: nat)
    requires k >= 1
  {
    forall q :: 0 <= q < |table| ==> table[q] == q % k
  }

  // Each queue below k occurs once per full round, and once more if the last round reaches it.
  lemma {:induction false} CountOfSpread(table: seq<nat>, k: nat, v: nat)
    requires k >= 1 && v < k && IsSpread(table, k)
    ensures Count(table, v) == |table| / k + if v < |table| % k then 1 else 0
  {
    if table == [] {
      Arith.DivModUnique(0, 0, 0, k);
    } else {
      CountOfSpread(table[..|table| - 1], k, v);
      Arith.NextDivMod(|table| - 1, k);
    }
  }

  lemma SpreadBelow(table: seq<nat>, k: nat)
    requires 1 <= k && IsSpread(table, k)
    ensures forall q :: 0 <= q < |table| ==> table[q] < k
    ensures forall q :: 0 <= q < |table| && q < k ==> table[q] == q
  {
    forall q | 0 <= q < |table| && q < k ensures table[q] == q {
      Arith.DivModUnique(q, 0, q, k);
    }
  }

  lemma {:induction false} CountsOccurrence(table: seq<nat>, i: nat)
    requires i < |table|
    ensures Count(table, table[i]) >= 1
  {
    if i < |table| - 1 {
      CountsOccurrence(table[..|table| - 1], i);
    }
  }

  // An equal-weight distribution: every entry names an allocated queue, and any two queues differ by
  // at most one entry. No queue gets more or less than the floor or ceiling of entries per queue.
  lemma Balanced(table: seq<nat>, k: nat, v: nat, w: nat)
    requires 1 <= k && v < k && w < k && IsSpread(table, k)
    ensures forall q :: 0 <= q < |table| ==> table[q] < k
    ensures |table| / k <= Count(table, v) <= |table| / k + 1
    ensures |table| % k == 0 ==> Count(table, v) == |table| / k
    ensures v <= w ==> Count(table, w) <= Count(table, v) <= Count(table, w) + 1
    ensures k <= |table| ==> Count(table, v) >= 1
  {
    CountOfSpread(table, k, v);
    CountOfSpread(table, k, w);
    SpreadBelow(table, k);
    if k <= |table| {
      CountsOccurrence(table, v);
    }
  }

  // Equal weights for the queues asked for: each occurs the floor or the ceiling of entries per queue,
  // in turn from queue 0, and no other queue occurs. A request for none leaves every entry at 0.
  ghost predicate EqualWeights(table: seq<nat>, numQueues: nat) {
    if numQueues == 0 then forall q :: 0 <= q < |table| ==> table[q] == 0
    else
      && (forall q :: 0 <= q < |table| ==> table[q] < numQueues)
      && (forall q :: 0 <= q < |table| && q < numQueues ==> table[q] == q)
      && (forall v: nat :: v < numQueues ==>
            |table| / numQueues <= Count(table, v) <= (|table| + numQueues - 1) / numQueues)
  }

  lemma Ceiling(n: nat, k: nat)
    requires k >= 1
    ensures (n + k - 1) / k == n / k + if n % k == 0 then 0 else 1
  {
    var q, r := n / k, n % k;
    assert n == k * q + r;
    if r == 0 {
      Arith.DivModUnique(n + k - 1, q, k - 1, k);
    } else {
      assert k * (q + 1) == k * q + k;
      Arith.DivModUnique(n + k - 1, q + 1, r - 1, k);
    }
  }

  // For every request that fits the table: the weights are equal over exactly the queues asked for.
  lemma SpreadIsEven(entries: nat, numQueues: nat)
    ensures EqualWeights(Spread(entries, numQueues), numQueues)
  {
    var table := Spread(entries, numQueues);
    if numQueues > 0 {
      SpreadBelow(table, numQueues);
      Ceiling(entries, numQueues);
      forall v: nat | v < numQueues
        ensures entries / numQueues <= Count(table, v) <= (entries + numQueues - 1) / numQueues
      {
        CountOfSpread(table, numQueues, v);
      }
    }
  }
}
