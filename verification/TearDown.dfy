// Lists with reference counts along them during a tear-down: it drops one reference of every entry
// in turn, and an entry whose count is 0 by then leaves the list.
module TearDown {
  // Removing one entry from a list.
  function Without<T>(xs: seq<T>, at: nat): (r: seq<T>)
    requires at < |xs|
    ensures |r| == |xs| - 1
    ensures forall i :: 0 <= i < |r| ==> r[i] == xs[if i < at then i else i + 1]
  {
    xs[..at] + xs[at + 1..]
  }

  // Of the first k entries, the ones that had a count above 0, their counts now, and the others.
  function StillHeld<T>(xs: seq<T>, counts: seq<nat>, k: nat): seq<T>
    requires k <= |xs| == |counts|
  {
    if k == 0 then []
    else StillHeld(xs, counts, k - 1) + if counts[k - 1] > 0 then [xs[k - 1]] else []
  }

  function Lowered(counts: seq<nat>, k: nat): seq<nat>
    requires k <= |counts|
  {
    if k == 0 then []
    else Lowered(counts, k - 1) + if counts[k - 1] > 0 then [counts[k - 1] - 1] else []
  }

  function Unheld<T>(xs: seq<T>, counts: seq<nat>, k: nat): seq<T>
    requires k <= |xs| == |counts|
  {
    if k == 0 then []
    else Unheld(xs, counts, k - 1) + if counts[k - 1] > 0 then [] else [xs[k - 1]]
  }

  // The whole list, and the counts along it.
  function ListAfter<T>(xs: seq<T>, counts: seq<nat>, k: nat): seq<T>
    requires k <= |xs| == |counts|
  {
    StillHeld(xs, counts, k) + xs[k..]
  }

  function CountsAfter(counts: seq<nat>, k: nat): seq<nat>
    requires k <= |counts|
  {
    Lowered(counts, k) + counts[k..]
  }

  lemma {:induction false} HeldLowered<T>(xs: seq<T>, counts: seq<nat>, k: nat)
    requires k <= |xs| == |counts|
    ensures |StillHeld(xs, counts, k)| == |Lowered(counts, k)|
    ensures forall x :: x in StillHeld(xs, counts, k) ==> x in xs
    ensures forall x :: x in ListAfter(xs, counts, k) ==> x in xs
  {
    if k > 0 { HeldLowered(xs, counts, k - 1); }
  }

  lemma DealtWithNone<T>(xs: seq<T>, counts: seq<nat>)
    requires |xs| == |counts|
    ensures ListAfter(xs, counts, 0) == xs && CountsAfter(counts, 0) == counts
    ensures StillHeld(xs, counts, 0) == [] && Unheld(xs, counts, 0) == []
  {
  }

  lemma DealtWithAll<T>(xs: seq<T>, counts: seq<nat>)
    requires |xs| == |counts|
    ensures ListAfter(xs, counts, |xs|) == StillHeld(xs, counts, |xs|)
    ensures CountsAfter(counts, |xs|) == Lowered(counts, |xs|)
  {
  }

  // Where entry k is when its turn comes.
  lemma StandsAt<T>(xs: seq<T>, counts: seq<nat>, k: nat)
    requires k < |xs| == |counts|
    ensures var h, list, cs := |StillHeld(xs, counts, k)|, ListAfter(xs, counts, k), CountsAfter(counts, k);
      && h < |list| == |cs| == h + |xs| - k
      && list[h] == xs[k] && cs[h] == counts[k]
      && (k + 1 < |xs| ==> list[h + 1] == xs[k + 1] && cs[h + 1] == counts[k + 1])
  {
    HeldLowered(xs, counts, k);
    hide StillHeld, Lowered;
  }

  // A list that goes on with a given rest, when its next entry is dropped, kept or replaced.
  lemma NextEntry<T>(front: seq<T>, all: seq<T>, k: nat, x: T)
    requires k < |all|
    ensures Without(front + all[k..], |front|) == front + all[k + 1..]
    ensures (front + all[k..])[|front| := x] == front + [x] + all[k + 1..]
    ensures all[k] == x ==> front + all[k..] == front + [x] + all[k + 1..]
  {
  }

  // Where entry k is when its turn comes, and what dealing with it does to list and counts.
  lemma DealWith<T>(xs: seq<T>, counts: seq<nat>, k: nat)
    requires k < |xs| == |counts|
    ensures var h, list, cs := |StillHeld(xs, counts, k)|, ListAfter(xs, counts, k), CountsAfter(counts, k);
      && h < |list| == |cs| == h + |xs| - k
      && list[h] == xs[k] && cs[h] == counts[k]
      && (k + 1 < |xs| ==> list[h + 1] == xs[k + 1] && cs[h + 1] == counts[k + 1])
      && (counts[k] == 0 ==>
            ListAfter(xs, counts, k + 1) == Without(list, h) && CountsAfter(counts, k + 1) == Without(cs, h)
            && |StillHeld(xs, counts, k + 1)| == h)
      && (counts[k] > 0 ==>
            ListAfter(xs, counts, k + 1) == list && CountsAfter(counts, k + 1) == cs[h := counts[k] - 1]
            && |StillHeld(xs, counts, k + 1)| == h + 1)
      && Unheld(xs, counts, k + 1) == Unheld(xs, counts, k) + if counts[k] > 0 then [] else [xs[k]]
  {
    hide Without;
    StandsAt(xs, counts, k);
    HeldLowered(xs, counts, k);
    NextEntry(StillHeld(xs, counts, k), xs, k, xs[k]);
    NextEntry(Lowered(counts, k), counts, k, if counts[k] > 0 then counts[k] - 1 else 0);
  }
}
