/**
 Seed allocation: a hash start followed by probing over a growing reserved set,
 unbounded upwards or cyclic in a fixed range.
 */
module SeedAllocators {

  function SetOf(seeds: seq<int>): set<int> {
    set x | x in seeds
  }

  ghost predicate Distinct(seeds: seq<int>) {
    forall i, j | 0 <= i < j < |seeds| :: seeds[i] != seeds[j]
  }

  // ------------------------------------------------------- probing upwards

  /** `candidate` is the least value from `start` on that is not used. */
  ghost predicate FirstFree(start: int, used: set<int>, candidate: int) {
    start <= candidate && candidate !in used && forall x | start <= x < candidate :: x in used
  }

  /** Each seed is the first free value from its own start, given the initial set and all earlier seeds. */
  ghost predicate IsAllocation(starts: seq<int>, used: set<int>, seeds: seq<int>) {
    |seeds| == |starts| && forall k | 0 <= k < |seeds| :: FirstFree(starts[k], used + SetOf(seeds[..k]), seeds[k])
  }

  function From(used: set<int>, candidate: int): set<int> {
    set x | x in used && x >= candidate
  }

  /** Terminates for every finite set: the used values from the candidate on get fewer. */
  method ProbeUp(start: int, used: set<int>) returns (candidate: int)
    ensures FirstFree(start, used, candidate)
  {
    candidate := start;
    while candidate in used
      invariant start <= candidate
      invariant forall x | start <= x < candidate :: x in used
      decreases From(used, candidate)
    {
      assert From(used, candidate + 1) == From(used, candidate) - {candidate};
      candidate := candidate + 1;
    }
  }

  /** The set of used seeds that every allocation call updates in place. */
  class UsedSeeds {
    var used: set<int>

    constructor (initial: set<int>)
      ensures used == initial
    {
      used := initial;
    }

    method Fresh(start: int) returns (candidate: int)
      modifies this
      ensures FirstFree(start, old(used), candidate)
      ensures used == old(used) + {candidate}
    {
      candidate := ProbeUp(start, used);
      used := used + {candidate};
    }

    method FreshBatch(starts: seq<int>) returns (seeds: seq<int>)
      modifies this
      ensures IsAllocation(starts, old(used), seeds)
      ensures used == old(used) + SetOf(seeds)
    {
      seeds := [];
      var k := 0;
      while k < |starts|
        invariant 0 <= k <= |starts|
        invariant IsAllocation(starts[..k], old(used), seeds)
        invariant used == old(used) + SetOf(seeds)
      {
        var candidate := Fresh(starts[k]);
        AllocationSnoc(starts, k, old(used), seeds, candidate);
        seeds := seeds + [candidate];
        k := k + 1;
      }
      assert starts[..|starts|] == starts;
    }
  }

  lemma AllocationSnoc(starts: seq<int>, k: nat, used: set<int>, seeds: seq<int>, candidate: int)
    requires k < |starts| && IsAllocation(starts[..k], used, seeds)
    requires FirstFree(starts[k], used + SetOf(seeds), candidate)
    ensures IsAllocation(starts[..k + 1], used, seeds + [candidate])
    ensures SetOf(seeds + [candidate]) == SetOf(seeds) + {candidate}
  {}

  /** Batches allocated one after the other are one allocation. */
  lemma AllocationAppend(starts: seq<int>, starts': seq<int>, used: set<int>, seeds: seq<int>, seeds': seq<int>)
    requires IsAllocation(starts, used, seeds) && IsAllocation(starts', used + SetOf(seeds), seeds')
    ensures IsAllocation(starts + starts', used, seeds + seeds')
    ensures SetOf(seeds + seeds') == SetOf(seeds) + SetOf(seeds')
  {
    hide FirstFree;
    var all, from := seeds + seeds', starts + starts';
    forall k | 0 <= k < |all| ensures FirstFree(from[k], used + SetOf(all[..k]), all[k]) {
      if k < |seeds| {
        assert all[..k] == seeds[..k];
      } else {
        assert all[..k] == seeds + seeds'[..k - |seeds|];
        assert used + SetOf(all[..k]) == used + SetOf(seeds) + SetOf(seeds'[..k - |seeds|]);
      }
    }
  }

  /** Allocated seeds are pairwise distinct and avoid the initial set, whatever the hash starts are. */
  lemma AllocationDisjoint(starts: seq<int>, used: set<int>, seeds: seq<int>)
    requires IsAllocation(starts, used, seeds)
    ensures Distinct(seeds) && SetOf(seeds) !! used
    ensures |SetOf(seeds)| == |seeds|
  {
    forall i, j | 0 <= i < j < |seeds| ensures seeds[i] != seeds[j] {
      assert seeds[..j][i] == seeds[i];
    }
    DistinctCount(seeds);
  }

  lemma {:induction false} DistinctCount(seeds: seq<int>)
    requires Distinct(seeds)
    ensures |SetOf(seeds)| == |seeds|
  {
    if seeds != [] {
      DistinctCount(seeds[..|seeds| - 1]);
      assert SetOf(seeds) == SetOf(seeds[..|seeds| - 1]) + {seeds[|seeds| - 1]};
    }
  }

  /** The starts and the initial set determine the seeds. */
  lemma {:induction false} AllocationUnique(starts: seq<int>, used: set<int>, seeds: seq<int>, seeds': seq<int>, k: nat)
    requires IsAllocation(starts, used, seeds) && IsAllocation(starts, used, seeds') && k <= |starts|
    ensures forall i | 0 <= i < k :: seeds[i] == seeds'[i]
  {
    hide FirstFree;
    if k > 0 {
      AllocationUnique(starts, used, seeds, seeds', k - 1);
      assert seeds[..k - 1] == seeds'[..k - 1];
      FirstFreeUnique(starts[k - 1], used + SetOf(seeds[..k - 1]), seeds[k - 1], seeds'[k - 1]);
    }
  }

  lemma FirstFreeUnique(start: int, used: set<int>, x: int, y: int)
    requires FirstFree(start, used, x) && FirstFree(start, used, y)
    ensures x == y
  {}

  /** A probe stops at the start or at most one past the greatest used value. */
  lemma ProbeBounded(start: int, used: set<int>, candidate: int, greatest: int)
    requires FirstFree(start, used, candidate)
    requires forall x | x in used :: x <= greatest
    ensures candidate == start || candidate <= greatest + 1
  {
    if candidate > start {
      assert candidate - 1 in used;
    }
  }

  // -------------------------------------------------------- cyclic probing

  /** The slot `d` places after `start`, wrapping inside `lo .. lo + n - 1`. */
  function Slot(lo: int, n: nat, start: int, d: nat): int
    requires n > 0
  {
    lo + (start - lo + d) % n
  }

  predicate Within(lo: int, n: nat, x: int) {
    lo <= x < lo + n
  }

  function Range(lo: int, n: nat): set<int> {
    set x | lo <= x < lo + n && Within(lo, n, x)
  }

  /** The first free slot in cyclic order from the start. */
  ghost predicate CyclicFirst(lo: int, n: nat, start: int, reserved: set<int>, candidate: int) {
    n > 0 && exists d: nat | d < n ::
      candidate == Slot(lo, n, start, d) && candidate !in reserved && forall e: nat | e < d :: Slot(lo, n, start, e) in reserved
  }

  lemma NextSlot(lo: int, n: nat, start: int, d: nat)
    requires n > 0
    ensures Slot(lo, n, start, d + 1) == lo + (Slot(lo, n, start, d) - lo + 1) % n
  {
    var m := start - lo + d;
    NextMod(m, n);
  }

  lemma NextMod(m: int, n: nat)
    requires n > 0
    ensures (m + 1) % n == (m % n + 1) % n
  {
    var q, r := m / n, m % n;
    if r == n - 1 {
      assert m + 1 == q * n + n;
      assert q * n + n == (q + 1) * n;
      ModUnique(m + 1, q + 1, 0, n);
      ModUnique(r + 1, 1, 0, n);
    } else {
      ModUnique(m + 1, q, r + 1, n);
      ModUnique(r + 1, 0, r + 1, n);
    }
  }

  lemma ModUnique(m: int, q: int, r: int, n: nat)
    requires n > 0 && 0 <= r < n && m == q * n + r
    ensures m % n == r
  {
    var e := m / n - q;
    assert e * n == m / n * n - q * n;
    assert e * n == r - m % n;
    assert e >= 1 ==> e * n >= n;
    assert e <= -1 ==> e * n + n <= 0;
  }

  /** Every value of the range is some slot less than one turn away. */
  lemma SlotOf(lo: int, n: nat, start: int, x: int) returns (d: nat)
    requires n > 0 && lo <= start < lo + n && lo <= x < lo + n
    ensures d < n && Slot(lo, n, start, d) == x
  {
    if x >= start {
      d := x - start;
      ModUnique(start - lo + d, 0, x - lo, n);
    } else {
      d := x - start + n;
      ModUnique(start - lo + d, 1, x - lo, n);
    }
  }

  lemma SlotInRange(lo: int, n: nat, start: int, d: nat)
    requires n > 0
    ensures Slot(lo, n, start, d) in Range(lo, n)
  {}

  /** Terminates because the probe gets closer to some free slot; `requires` is that one exists. */
  method ProbeCyclic(lo: int, n: nat, start: int, reserved: set<int>) returns (candidate: int)
    requires n > 0 && lo <= start < lo + n
    requires Range(lo, n) - reserved != {}
    ensures CyclicFirst(lo, n, start, reserved, candidate)
    ensures candidate in Range(lo, n) && candidate !in reserved
  {
    ghost var free :| free in Range(lo, n) - reserved;
    ghost var distance := SlotOf(lo, n, start, free);
    candidate := start;
    ghost var d: nat := 0;
    ModUnique(start - lo, 0, start - lo, n);
    while candidate in reserved
      invariant d <= distance && candidate == Slot(lo, n, start, d)
      invariant forall e: nat | e < d :: Slot(lo, n, start, e) in reserved
      decreases distance - d
    {
      NextSlot(lo, n, start, d);
      candidate := lo + (candidate - lo + 1) % n;
      d := d + 1;
    }
    SlotInRange(lo, n, start, d);
  }

  ghost predicate IsCyclicAllocation(lo: int, n: nat, starts: seq<int>, used: set<int>, seeds: seq<int>) {
    && |seeds| == |starts|
    && forall k | 0 <= k < |seeds| :: CyclicFirst(lo, n, starts[k], used + SetOf(seeds[..k]), seeds[k])
  }

  /** A sequence of cyclic probes over a local copy of the used set that grows with each seed. */
  method DeriveCyclic(lo: int, n: nat, starts: seq<int>, used: set<int>) returns (seeds: seq<int>)
    requires n > 0 && forall k | 0 <= k < |starts| :: lo <= starts[k] < lo + n
    requires |Range(lo, n) - used| >= |starts|
    ensures IsCyclicAllocation(lo, n, starts, used, seeds)
    ensures SetOf(seeds) <= Range(lo, n)
  {
    hide CyclicFirst, Range;
    seeds := [];
    var reserved := used;
    var k := 0;
    while k < |starts|
      invariant 0 <= k <= |starts|
      invariant IsCyclicAllocation(lo, n, starts[..k], used, seeds)
      invariant reserved == used + SetOf(seeds) && SetOf(seeds) <= Range(lo, n)
      invariant |Range(lo, n) - reserved| >= |starts| - k
    {
      var candidate := ProbeCyclic(lo, n, starts[k], reserved);
      CyclicSnoc(lo, n, starts, k, used, seeds, candidate);
      assert Range(lo, n) - (reserved + {candidate}) == (Range(lo, n) - reserved) - {candidate};
      reserved := reserved + {candidate};
      seeds := seeds + [candidate];
      k := k + 1;
    }
    assert starts[..|starts|] == starts;
  }

  lemma CyclicSnoc(lo: int, n: nat, starts: seq<int>, k: nat, used: set<int>, seeds: seq<int>, candidate: int)
    requires k < |starts| && IsCyclicAllocation(lo, n, starts[..k], used, seeds)
    requires CyclicFirst(lo, n, starts[k], used + SetOf(seeds), candidate)
    ensures IsCyclicAllocation(lo, n, starts[..k + 1], used, seeds + [candidate])
    ensures SetOf(seeds + [candidate]) == SetOf(seeds) + {candidate}
  {}

  /** Cyclic seeds are in range, pairwise distinct and disjoint from the historical set. */
  lemma CyclicDisjoint(lo: int, n: nat, starts: seq<int>, used: set<int>, seeds: seq<int>)
    requires IsCyclicAllocation(lo, n, starts, used, seeds)
    ensures Distinct(seeds) && SetOf(seeds) !! used && SetOf(seeds) <= Range(lo, n)
    ensures |SetOf(seeds)| == |seeds|
  {
    forall k | 0 <= k < |seeds| ensures seeds[k] in Range(lo, n) && seeds[k] !in used + SetOf(seeds[..k]) {
      assert CyclicFirst(lo, n, starts[k], used + SetOf(seeds[..k]), seeds[k]);
      var d: nat :| d < n && seeds[k] == Slot(lo, n, starts[k], d);
      SlotInRange(lo, n, starts[k], d);
    }
    forall i, j | 0 <= i < j < |seeds| ensures seeds[i] != seeds[j] {
      assert seeds[..j][i] == seeds[i];
    }
    DistinctCount(seeds);
  }

  /** The room `DeriveCyclic` asks for is needed: a completed allocation shows that many free slots. */
  lemma CyclicNeedsRoom(lo: int, n: nat, starts: seq<int>, used: set<int>, seeds: seq<int>)
    requires IsCyclicAllocation(lo, n, starts, used, seeds)
    ensures |Range(lo, n) - used| >= |starts|
  {
    CyclicDisjoint(lo, n, starts, used, seeds);
    SubsetSize(SetOf(seeds), Range(lo, n) - used);
  }

  lemma SubsetSize(a: set<int>, b: set<int>)
    requires a <= b
    ensures |a| <= |b|
  {
    assert b == a + (b - a);
    assert |a + (b - a)| == |a| + |b - a|;
  }
}
