/**
 Which values an allocation takes, read off the starts and the used set alone:
 a free value is taken exactly when the starts crowd some stretch that ends there.
 */
module SeedReach {
  import opened SeedAllocators

  function Stretch(a: int, v: int): (stretch: set<int>)
    ensures forall x :: x in stretch <==> a <= x <= v
    decreases v - a
  {
    if a > v then {} else Stretch(a, v - 1) + {v}
  }

  /** How many starts fall in the stretch from `a` to `v`. */
  function StartsIn(starts: seq<int>, a: int, v: int): nat {
    if starts == [] then 0
    else StartsIn(starts[..|starts| - 1], a, v) + if a <= starts[|starts| - 1] <= v then 1 else 0
  }

  /** At least as many starts as free values. */
  ghost predicate Crowded(starts: seq<int>, used: set<int>, a: int, v: int) {
    a <= v && StartsIn(starts, a, v) >= |Stretch(a, v) - used|
  }

  ghost predicate Reached(starts: seq<int>, used: set<int>, v: int) {
    exists a :: Crowded(starts, used, a, v)
  }

  lemma StartsInNext(starts: seq<int>, k: nat, a: int, v: int)
    requires k < |starts|
    ensures StartsIn(starts[..k + 1], a, v) == StartsIn(starts[..k], a, v) + if a <= starts[k] <= v then 1 else 0
  {
    assert starts[..k + 1][..k] == starts[..k];
  }

  /** One round: the seed lies beyond its start, is new, and everything passed over is occupied in the end. */
  lemma RoundFacts(starts: seq<int>, used: set<int>, seeds: seq<int>, k: nat)
    requires IsAllocation(starts, used, seeds) && k < |starts|
    ensures k < |seeds| && starts[k] <= seeds[k] && seeds[k] !in used && seeds[k] !in SetOf(seeds[..k])
    ensures seeds[k] in SetOf(seeds) && SetOf(seeds[..k + 1]) == SetOf(seeds[..k]) + {seeds[k]}
    ensures forall x | starts[k] <= x < seeds[k] :: x in used || x in SetOf(seeds)
  {
    assert FirstFree(starts[k], used + SetOf(seeds[..k]), seeds[k]);
    assert seeds[..k + 1] == seeds[..k] + [seeds[k]];
    assert forall x | x in SetOf(seeds[..k]) :: x in SetOf(seeds);
  }

  /** While `v` stays free, every start in the stretch takes another free value of it. */
  lemma {:induction false} TakenBelow(starts: seq<int>, used: set<int>, seeds: seq<int>, a: int, v: int, k: nat) returns (taken: set<int>)
    requires IsAllocation(starts, used, seeds) && k <= |starts| && |seeds| == |starts| && v !in used && v !in SetOf(seeds)
    ensures taken <= SetOf(seeds[..k]) && taken <= Stretch(a, v) - used - {v}
    ensures |taken| == StartsIn(starts[..k], a, v)
  {
    hide IsAllocation, SetOf, StartsIn, Stretch;
    if k == 0 {
      taken := {};
      NoStarts(a, v);
      assert starts[..0] == [];
    } else {
      taken := TakenBelow(starts, used, seeds, a, v, k - 1);
      RoundFacts(starts, used, seeds, k - 1);
      StartsInNext(starts, k - 1, a, v);
      if a <= starts[k - 1] <= v {
        taken := taken + {seeds[k - 1]};
      }
    }
  }

  lemma NoStarts(a: int, v: int)
    ensures StartsIn([], a, v) == 0
  {}

  lemma CrowdedIsTaken(starts: seq<int>, used: set<int>, seeds: seq<int>, a: int, v: int)
    requires IsAllocation(starts, used, seeds) && v !in used && Crowded(starts, used, a, v)
    ensures v in SetOf(seeds)
  {
    var free := Stretch(a, v) - used;
    assert |free| == |free - {v}| + 1;
    if v !in SetOf(seeds) {
      var taken := TakenBelow(starts, used, seeds, a, v, |starts|);
      assert starts[..|starts|] == starts;
      SubsetSize(taken, free - {v});
    }
  }

  function UpTo(occupied: set<int>, v: int): set<int> {
    set x | x in occupied && x <= v
  }

  /** Where the unbroken run of occupied values that ends at `v` begins. */
  lemma {:induction false} RunBegins(occupied: set<int>, v: int) returns (a: int)
    requires v in occupied
    ensures a <= v && a - 1 !in occupied && forall x | a <= x <= v :: x in occupied
    decreases UpTo(occupied, v)
  {
    a := v;
    if v - 1 in occupied {
      assert v in UpTo(occupied, v) && v !in UpTo(occupied, v - 1);
      a := RunBegins(occupied, v - 1);
    }
  }

  lemma OneMoreAtMost(before: set<int>, seed: int, stretch: set<int>)
    ensures |(before + {seed}) * stretch| <= |before * stretch| + if seed in stretch then 1 else 0
  {
    var now := (before + {seed}) * stretch;
    assert now <= before * stretch + if seed in stretch then {seed} else {};
    SubsetSize(now, before * stretch + if seed in stretch then {seed} else {});
  }

  /** Nobody gets into the run from before it. */
  lemma NotFromBefore(starts: seq<int>, used: set<int>, seeds: seq<int>, a: int, v: int, k: nat)
    requires IsAllocation(starts, used, seeds) && k < |starts| && |seeds| == |starts|
    requires a - 1 !in used && a - 1 !in SetOf(seeds)
    ensures seeds[k] in Stretch(a, v) ==> a <= starts[k] <= v
  {
    RoundFacts(starts, used, seeds, k);
    hide IsAllocation, SetOf, Stretch;
    assert starts[k] <= a - 1 < seeds[k] ==> a - 1 in used || a - 1 in SetOf(seeds);
  }

  lemma NothingYet(seeds: seq<int>, stretch: set<int>)
    ensures |SetOf(seeds[..0]) * stretch| == 0
  {
    assert SetOf(seeds[..0]) * stretch == {};
  }

  lemma {:induction false} RunFilled(starts: seq<int>, used: set<int>, seeds: seq<int>, a: int, v: int, k: nat)
    requires IsAllocation(starts, used, seeds) && k <= |starts| && |seeds| == |starts|
    requires a - 1 !in used && a - 1 !in SetOf(seeds)
    ensures |SetOf(seeds[..k]) * Stretch(a, v)| <= StartsIn(starts[..k], a, v)
  {
    hide *;
    if k == 0 {
      NothingYet(seeds, Stretch(a, v));
    } else {
      RunFilled(starts, used, seeds, a, v, k - 1);
      RoundFacts(starts, used, seeds, k - 1);
      StartsInNext(starts, k - 1, a, v);
      NotFromBefore(starts, used, seeds, a, v, k - 1);
      OneMoreAtMost(SetOf(seeds[..k - 1]), seeds[k - 1], Stretch(a, v));
    }
  }

  lemma TakenIsCrowded(starts: seq<int>, used: set<int>, seeds: seq<int>, v: int) returns (a: int)
    requires IsAllocation(starts, used, seeds) && v in SetOf(seeds)
    ensures Crowded(starts, used, a, v)
  {
    a := RunBegins(used + SetOf(seeds), v);
    RunFilled(starts, used, seeds, a, v, |starts|);
    assert starts[..|starts|] == starts && seeds[..|seeds|] == seeds;
    SubsetSize(Stretch(a, v) - used, SetOf(seeds) * Stretch(a, v));
  }

  /** A value that was free is among the seeds exactly when it is reached. */
  lemma TakenExactly(starts: seq<int>, used: set<int>, seeds: seq<int>, v: int)
    requires IsAllocation(starts, used, seeds) && v !in used
    ensures v in SetOf(seeds) <==> Reached(starts, used, v)
  {
    if v in SetOf(seeds) {
      var a := TakenIsCrowded(starts, used, seeds, v);
    }
    if a :| Crowded(starts, used, a, v) {
      CrowdedIsTaken(starts, used, seeds, a, v);
    }
  }

  // -------------------------------------------- the order of the rounds

  lemma {:induction false} StartsInParts(xs: seq<int>, ys: seq<int>, a: int, v: int)
    ensures StartsIn(xs + ys, a, v) == StartsIn(xs, a, v) + StartsIn(ys, a, v)
  {
    if ys == [] {
      assert xs + ys == xs;
    } else {
      assert (xs + ys)[..|xs + ys| - 1] == xs + ys[..|ys| - 1];
      StartsInParts(xs, ys[..|ys| - 1], a, v);
    }
  }

  lemma FindAndRemove(xs: seq<int>, last: int, ys: seq<int>) returns (j: nat)
    requires multiset(xs + [last]) == multiset(ys)
    ensures j < |ys| && ys[j] == last && multiset(xs) == multiset(ys[..j] + ys[j + 1..])
  {
    assert last in multiset(xs + [last]);
    j :| 0 <= j < |ys| && ys[j] == last;
    assert ys == ys[..j] + [last] + ys[j + 1..];
    assert multiset(xs) == multiset(ys) - multiset{last};
  }

  lemma StartsInWithout(ys: seq<int>, j: nat, a: int, v: int)
    requires j < |ys|
    ensures StartsIn(ys, a, v) == StartsIn(ys[..j] + ys[j + 1..], a, v) + StartsIn([ys[j]], a, v)
  {
    hide StartsIn;
    assert ys == ys[..j] + ([ys[j]] + ys[j + 1..]);
    StartsInParts(ys[..j], [ys[j]] + ys[j + 1..], a, v);
    StartsInParts([ys[j]], ys[j + 1..], a, v);
    StartsInParts(ys[..j], ys[j + 1..], a, v);
  }

  lemma {:induction false} StartsInAnyOrder(xs: seq<int>, ys: seq<int>, a: int, v: int)
    requires multiset(xs) == multiset(ys)
    ensures StartsIn(xs, a, v) == StartsIn(ys, a, v)
    decreases |xs|
  {
    hide StartsIn;
    if xs == [] {
      assert |ys| == |multiset(ys)| == |multiset(xs)|;
    } else {
      var front, last := xs[..|xs| - 1], xs[|xs| - 1];
      assert xs == front + [last];
      var j := FindAndRemove(front, last, ys);
      StartsInParts(front, [last], a, v);
      StartsInWithout(ys, j, a, v);
      StartsInAnyOrder(front, ys[..j] + ys[j + 1..], a, v);
    }
  }

  /** The set of seeds does not depend on the order in which the rounds are taken. */
  lemma SameSeedsInAnyOrder(starts: seq<int>, starts': seq<int>, used: set<int>, seeds: seq<int>, seeds': seq<int>)
    requires IsAllocation(starts, used, seeds) && IsAllocation(starts', used, seeds')
    requires multiset(starts) == multiset(starts')
    ensures SetOf(seeds) == SetOf(seeds')
  {
    AllocationDisjoint(starts, used, seeds);
    AllocationDisjoint(starts', used, seeds');
    hide IsAllocation, StartsIn, SetOf;
    forall v ensures v in SetOf(seeds) <==> v in SetOf(seeds') {
      if v !in used {
        forall a ensures Crowded(starts, used, a, v) <==> Crowded(starts', used, a, v) {
          StartsInAnyOrder(starts, starts', a, v);
        }
        TakenExactly(starts, used, seeds, v);
        TakenExactly(starts', used, seeds', v);
      }
    }
  }
}
