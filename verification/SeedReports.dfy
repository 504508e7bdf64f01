/** The seed registries built on the allocators, and what their disjointness reports can and cannot say. */
module SeedReports {
  import opened SeedAllocators
  import opened SeedReach

  /** The leading digest bytes of a label as an integer: an arbitrary function of the label. */
  type Hash = (string, nat) -> nat

  const REGIMES := ["R0", "R1", "R2", "R3"]

  function Starts(base: int, span: nat, hash: Hash, group: string, count: nat): seq<int>
    requires span > 0
  {
    seq(count, index requires 0 <= index < count => base + hash(group, index) % span)
  }

  function GroupStarts(base: int, span: nat, hash: Hash, labels: seq<string>, count: nat): seq<int>
    requires span > 0
  {
    if labels == [] then []
    else GroupStarts(base, span, hash, labels[..|labels| - 1], count) + Starts(base, span, hash, labels[|labels| - 1], count)
  }

  lemma {:induction false} GroupSize(base: int, span: nat, hash: Hash, labels: seq<string>, count: nat)
    requires span > 0
    ensures |GroupStarts(base, span, hash, labels, count)| == |labels| * count
    ensures forall start | start in GroupStarts(base, span, hash, labels, count) :: base <= start < base + span
  {
    if labels != [] {
      GroupSize(base, span, hash, labels[..|labels| - 1], count);
      assert |labels| * count == (|labels| - 1) * count + count;
    }
  }

  /** Round `i` of group `g` starts at the hash of that group and that round. */
  lemma {:induction false} StartAt(base: int, span: nat, hash: Hash, labels: seq<string>, count: nat, g: nat, i: nat)
    requires span > 0 && g < |labels| && i < count
    ensures g * count + i < |labels| * count == |GroupStarts(base, span, hash, labels, count)|
    ensures GroupStarts(base, span, hash, labels, count)[g * count + i] == base + hash(labels[g], i) % span
  {
    var rest := labels[..|labels| - 1];
    GroupSize(base, span, hash, labels, count);
    GroupSize(base, span, hash, rest, count);
    assert |labels| * count == |rest| * count + count;
    if g < |rest| {
      StartAt(base, span, hash, rest, count, g, i);
    }
  }

  /** Each round takes the first free value from its own hash, given the history and all rounds before it. */
  lemma RoundAt(base: int, span: nat, hash: Hash, labels: seq<string>, count: nat, used: set<int>, flat: seq<int>, g: nat, i: nat)
    requires span > 0 && g < |labels| && i < count
    requires IsAllocation(GroupStarts(base, span, hash, labels, count), used, flat)
    ensures g * count + i < |flat| == |labels| * count
    ensures FirstFree(base + hash(labels[g], i) % span, used + SetOf(flat[..g * count + i]), flat[g * count + i])
  {
    StartAt(base, span, hash, labels, count, g, i);
    hide FirstFree, GroupStarts;
  }

  lemma CyclicRoundAt(base: int, span: nat, hash: Hash, labels: seq<string>, count: nat, used: set<int>, flat: seq<int>, g: nat, i: nat)
    requires span > 0 && g < |labels| && i < count
    requires IsCyclicAllocation(base, span, GroupStarts(base, span, hash, labels, count), used, flat)
    ensures g * count + i < |flat| == |labels| * count
    ensures CyclicFirst(base, span, base + hash(labels[g], i) % span, used + SetOf(flat[..g * count + i]), flat[g * count + i])
  {
    StartAt(base, span, hash, labels, count, g, i);
    hide CyclicFirst, GroupStarts;
  }

  /** With one round to a label, seed `g` is the first free value from the hash of label `g`. */
  lemma SingleRounds(base: int, span: nat, hash: Hash, labels: seq<string>, used: set<int>, flat: seq<int>)
    requires span > 0 && IsAllocation(GroupStarts(base, span, hash, labels, 1), used, flat)
    ensures |flat| == |labels|
    ensures forall g | 0 <= g < |labels| :: FirstFree(base + hash(labels[g], 0) % span, used + SetOf(flat[..g]), flat[g])
  {
    GroupSize(base, span, hash, labels, 1);
    hide FirstFree, GroupStarts, SetOf;
    forall g: nat | g < |labels| ensures FirstFree(base + hash(labels[g], 0) % span, used + SetOf(flat[..g]), flat[g]) {
      RoundAt(base, span, hash, labels, 1, used, flat, g, 0);
    }
  }

  /** Allocates `count` seeds for each label in turn from one shared set. */
  method AllocateGroups(pool: UsedSeeds, base: int, span: nat, hash: Hash, labels: seq<string>, count: nat)
    returns (flat: seq<int>)
    requires span > 0
    modifies pool
    ensures IsAllocation(GroupStarts(base, span, hash, labels, count), old(pool.used), flat)
    ensures pool.used == old(pool.used) + SetOf(flat)
  {
    hide IsAllocation;
    flat := [];
    EmptyAllocation(pool.used);
    var i := 0;
    while i < |labels|
      invariant 0 <= i <= |labels|
      invariant IsAllocation(GroupStarts(base, span, hash, labels[..i], count), old(pool.used), flat)
      invariant pool.used == old(pool.used) + SetOf(flat)
    {
      var starts := Starts(base, span, hash, labels[i], count);
      var seeds := pool.FreshBatch(starts);
      AllocationAppend(GroupStarts(base, span, hash, labels[..i], count), starts, old(pool.used), flat, seeds);
      assert labels[..i + 1][..i] == labels[..i];
      flat := flat + seeds;
      i := i + 1;
    }
    assert labels[..|labels|] == labels;
  }

  lemma EmptyAllocation(used: set<int>)
    ensures IsAllocation([], used, [])
  {}

  // ------------------------------------------------------------ AS-008

  datatype CyclicProof = CyclicProof(formalUnique: bool, overlap: set<int>, disjoint: bool)

  lemma CyclicRounds(hash: Hash, historical: set<int>, flat: seq<int>)
    requires IsCyclicAllocation(20_000, 79_980_000, GroupStarts(20_000, 79_980_000, hash, REGIMES, 8), historical, flat)
    ensures |flat| == 32
    ensures forall g, i | 0 <= g < 4 && 0 <= i < 8 ::
              CyclicFirst(20_000, 79_980_000, 20_000 + hash(["R0", "R1", "R2", "R3"][g], i) % 79_980_000,
                          historical + SetOf(flat[..8 * g + i]), flat[8 * g + i])
  {
    GroupSize(20_000, 79_980_000, hash, REGIMES, 8);
    hide CyclicFirst, GroupStarts, SetOf;
    forall g: nat, i: nat | g < 4 && i < 8
      ensures CyclicFirst(20_000, 79_980_000, 20_000 + hash(["R0", "R1", "R2", "R3"][g], i) % 79_980_000,
                          historical + SetOf(flat[..8 * g + i]), flat[8 * g + i])
    {
      CyclicRoundAt(20_000, 79_980_000, hash, REGIMES, 8, historical, flat, g, i);
    }
  }

  /** 32 cyclic probes in 20,000 .. 79,999,999; the reported flags are true on every input that leaves room. */
  method BuildAs008(historical: set<int>, hash: Hash) returns (flat: seq<int>, proof: CyclicProof)
    requires |Range(20_000, 79_980_000) - historical| >= 32
    ensures IsCyclicAllocation(20_000, 79_980_000, GroupStarts(20_000, 79_980_000, hash, REGIMES, 8), historical, flat)
    ensures |flat| == 32 && SetOf(flat) !! historical && SetOf(flat) <= Range(20_000, 79_980_000)
    ensures forall g, i | 0 <= g < 4 && 0 <= i < 8 ::
              CyclicFirst(20_000, 79_980_000, 20_000 + hash(["R0", "R1", "R2", "R3"][g], i) % 79_980_000,
                          historical + SetOf(flat[..8 * g + i]), flat[8 * g + i])
    ensures proof == CyclicProof(true, {}, true)
  {
    hide IsCyclicAllocation, Range, GroupStarts, CyclicFirst;
    var starts := GroupStarts(20_000, 79_980_000, hash, REGIMES, 8);
    GroupSize(20_000, 79_980_000, hash, REGIMES, 8);
    assert forall k | 0 <= k < |starts| :: starts[k] in starts;
    flat := DeriveCyclic(20_000, 79_980_000, starts, historical);
    AllocationLength(20_000, 79_980_000, starts, historical, flat);
    CyclicDisjoint(20_000, 79_980_000, starts, historical, flat);
    CyclicRounds(hash, historical, flat);
    hide SetOf, Distinct;
    var all := SetOf(flat);
    proof := CyclicProof(|all| == 32, all * historical, |flat| == 32 && |all * historical| == 0);
  }

  lemma AllocationLength(lo: int, n: nat, starts: seq<int>, used: set<int>, seeds: seq<int>)
    requires IsCyclicAllocation(lo, n, starts, used, seeds)
    ensures |seeds| == |starts|
  {}

  lemma AllocationSize(starts: seq<int>, used: set<int>, seeds: seq<int>)
    requires IsAllocation(starts, used, seeds)
    ensures |seeds| == |starts|
  {}

  // ------------------------------------------------------------ AS-009

  const FORBIDDEN: set<int> := {45878900, 22023239, 57531938, 16827204}

  datatype Proof = Proof(unique: bool, overlap: set<int>, explicitOverlap: set<int>, pass: bool)

  lemma As009Rounds(hash: Hash, used: set<int>, flat: seq<int>)
    requires IsAllocation(GroupStarts(10_000_000, 80_000_000, hash, ["R2", "R3"], 8), used, flat)
    ensures |flat| == 16
    ensures forall g, i | 0 <= g < 2 && 0 <= i < 8 ::
              FirstFree(10_000_000 + hash(["R2", "R3"][g], i) % 80_000_000, used + SetOf(flat[..8 * g + i]), flat[8 * g + i])
  {
    GroupSize(10_000_000, 80_000_000, hash, ["R2", "R3"], 8);
    hide FirstFree, GroupStarts, SetOf;
    forall g: nat, i: nat | g < 2 && i < 8
      ensures FirstFree(10_000_000 + hash(["R2", "R3"][g], i) % 80_000_000, used + SetOf(flat[..8 * g + i]), flat[8 * g + i])
    {
      RoundAt(10_000_000, 80_000_000, hash, ["R2", "R3"], 8, used, flat, g, i);
    }
  }

  /** The report compares with the set before allocation, and says PASS on every input. */
  method BuildAs009(found: set<int>, hash: Hash) returns (flat: seq<int>, proof: Proof)
    ensures IsAllocation(GroupStarts(10_000_000, 80_000_000, hash, ["R2", "R3"], 8), FORBIDDEN + found, flat)
    ensures |flat| == 16 && Distinct(flat) && SetOf(flat) !! FORBIDDEN + found
    ensures forall g, i | 0 <= g < 2 && 0 <= i < 8 ::
              FirstFree(10_000_000 + hash(["R2", "R3"][g], i) % 80_000_000, FORBIDDEN + found + SetOf(flat[..8 * g + i]), flat[8 * g + i])
    ensures proof == Proof(true, {}, {}, true)
  {
    hide IsAllocation, GroupStarts, FirstFree;
    var historical := FORBIDDEN + found;
    var pool := new UsedSeeds(historical);
    flat := AllocateGroups(pool, 10_000_000, 80_000_000, hash, ["R2", "R3"], 8);
    var starts := GroupStarts(10_000_000, 80_000_000, hash, ["R2", "R3"], 8);
    GroupSize(10_000_000, 80_000_000, hash, ["R2", "R3"], 8);
    AllocationSize(starts, historical, flat);
    AllocationDisjoint(starts, historical, flat);
    As009Rounds(hash, FORBIDDEN + found, flat);
    hide Distinct, SetOf;
    var all := SetOf(flat);
    proof := Proof(
      |all| == |flat|, all * historical, all * FORBIDDEN,
      |flat| == 16 && |all| == 16 && all * historical == {});
  }

  // ------------------------------------------------------------ AS-010

  datatype CountedProof = CountedProof(historicalCount: int, unique: bool, overlap: set<int>, explicitOverlap: set<int>, pass: bool)

  lemma As010Rounds(hash: Hash, used: set<int>, flat: seq<int>)
    requires IsAllocation(GroupStarts(10_000_000, 80_000_000, hash, REGIMES, 8), used, flat)
    ensures |flat| == 32
    ensures forall g, i | 0 <= g < 4 && 0 <= i < 8 ::
              FirstFree(10_000_000 + hash(["R0", "R1", "R2", "R3"][g], i) % 80_000_000,
                        used + SetOf(flat[..8 * g + i]), flat[8 * g + i])
  {
    GroupSize(10_000_000, 80_000_000, hash, REGIMES, 8);
    hide FirstFree, GroupStarts, SetOf;
    forall g: nat, i: nat | g < 4 && i < 8
      ensures FirstFree(10_000_000 + hash(["R0", "R1", "R2", "R3"][g], i) % 80_000_000,
                        used + SetOf(flat[..8 * g + i]), flat[8 * g + i])
    {
      RoundAt(10_000_000, 80_000_000, hash, REGIMES, 8, used, flat, g, i);
    }
  }

  /** The seeds are disjoint from the history, and the reported historical count is its size. */
  method BuildAs010(found: set<int>, hash: Hash) returns (flat: seq<int>, proof: CountedProof)
    ensures IsAllocation(GroupStarts(10_000_000, 80_000_000, hash, REGIMES, 8), FORBIDDEN + found, flat)
    ensures |flat| == 32 && Distinct(flat) && SetOf(flat) !! FORBIDDEN + found
    ensures forall g, i | 0 <= g < 4 && 0 <= i < 8 ::
              FirstFree(10_000_000 + hash(["R0", "R1", "R2", "R3"][g], i) % 80_000_000,
                        FORBIDDEN + found + SetOf(flat[..8 * g + i]), flat[8 * g + i])
    ensures proof == CountedProof(|FORBIDDEN + found|, true, {}, {}, true)
  {
    hide IsAllocation, GroupStarts, FirstFree;
    var historical := FORBIDDEN + found;
    var pool := new UsedSeeds(historical);
    flat := AllocateGroups(pool, 10_000_000, 80_000_000, hash, REGIMES, 8);
    GroupSize(10_000_000, 80_000_000, hash, REGIMES, 8);
    AllocationSize(GroupStarts(10_000_000, 80_000_000, hash, REGIMES, 8), historical, flat);
    AllocationDisjoint(GroupStarts(10_000_000, 80_000_000, hash, REGIMES, 8), historical, flat);
    As010Rounds(hash, FORBIDDEN + found, flat);
    hide Distinct, SetOf;
    var all := SetOf(flat);
    assert |historical + all| == |historical| + |all|;
    proof := CountedProof(
      |pool.used| - 32, |flat| == |all|, all * (pool.used - all), all * FORBIDDEN,
      |flat| == 32 && |all| == 32);
  }

  /** The reported overlap removes the new seeds from the set it compares with, so it is empty for any seeds at all. */
  lemma As010OverlapSaysNothing(seeds: seq<int>, used: set<int>)
    ensures SetOf(seeds) * (used - SetOf(seeds)) == {}
    ensures exists repeated: seq<int>, history: set<int> ::
              SetOf(repeated) * history != {} && SetOf(repeated) * ((history + SetOf(repeated)) - SetOf(repeated)) == {}
  {
    assert 7 in SetOf([7]) * {7};
    assert SetOf([7]) * (({7} + SetOf([7])) - SetOf([7])) == {};
  }

  const DOWNSTREAM_GROUPS := [("lifecycle", 1), ("boundedness", 1), ("soak", 1), ("ablation", 4)]

  function DownstreamStarts(hash: Hash, groups: seq<(string, nat)>): seq<int> {
    if groups == [] then []
    else DownstreamStarts(hash, groups[..|groups| - 1])
         + Starts(10_000_000, 80_000_000, hash, groups[|groups| - 1].0, groups[|groups| - 1].1)
  }

  lemma DownstreamRounds(hash: Hash, used: set<int>, flat: seq<int>)
    requires IsAllocation(DownstreamStarts(hash, DOWNSTREAM_GROUPS), used, flat)
    ensures |flat| == 7
    ensures forall g | 0 <= g < 3 ::
              FirstFree(10_000_000 + hash(["lifecycle", "boundedness", "soak"][g], 0) % 80_000_000, used + SetOf(flat[..g]), flat[g])
    ensures forall i | 0 <= i < 4 ::
              FirstFree(10_000_000 + hash("ablation", i) % 80_000_000, used + SetOf(flat[..3 + i]), flat[3 + i])
  {
    DownstreamStartsAre(hash);
    hide FirstFree, DownstreamStarts, SetOf;
    var starts := DownstreamStarts(hash, DOWNSTREAM_GROUPS);
    forall i | 0 <= i < 4
      ensures FirstFree(10_000_000 + hash("ablation", i) % 80_000_000, used + SetOf(flat[..3 + i]), flat[3 + i])
    {
      assert FirstFree(starts[3 + i], used + SetOf(flat[..3 + i]), flat[3 + i]);
    }
    forall g | 0 <= g < 3
      ensures FirstFree(10_000_000 + hash(["lifecycle", "boundedness", "soak"][g], 0) % 80_000_000, used + SetOf(flat[..g]), flat[g])
    {
      assert FirstFree(starts[g], used + SetOf(flat[..g]), flat[g]);
    }
  }

  /** One start each for the first three groups and four for the last. */
  lemma DownstreamStartsAre(hash: Hash)
    ensures var starts := DownstreamStarts(hash, DOWNSTREAM_GROUPS);
            && |starts| == 7
            && (forall g | 0 <= g < 3 :: starts[g] == 10_000_000 + hash(["lifecycle", "boundedness", "soak"][g], 0) % 80_000_000)
            && (forall i | 0 <= i < 4 :: starts[3 + i] == 10_000_000 + hash("ablation", i) % 80_000_000)
  {
    var groups := DOWNSTREAM_GROUPS;
    assert groups[..3][..2] == groups[..2] && groups[..2][..1] == groups[..1] && groups[..1][..0] == [];
    assert DownstreamStarts(hash, groups[..1]) == Starts(10_000_000, 80_000_000, hash, "lifecycle", 1);
    assert DownstreamStarts(hash, groups[..2])
        == DownstreamStarts(hash, groups[..1]) + Starts(10_000_000, 80_000_000, hash, "boundedness", 1);
    assert DownstreamStarts(hash, groups[..3])
        == DownstreamStarts(hash, groups[..2]) + Starts(10_000_000, 80_000_000, hash, "soak", 1);
    assert DownstreamStarts(hash, groups)
        == DownstreamStarts(hash, groups[..3]) + Starts(10_000_000, 80_000_000, hash, "ablation", 4);
  }

  /**
   The downstream manifest compares with the explicit exclusions, always avoided,
   and with the formal seeds, which are avoided when they were collected.
   */
  method BuildDownstream(collected: set<int>, formal: set<int>, hash: Hash) returns (flat: seq<int>, proof: Proof)
    ensures IsAllocation(DownstreamStarts(hash, DOWNSTREAM_GROUPS), FORBIDDEN + collected, flat)
    ensures |flat| == 7 && Distinct(flat) && SetOf(flat) !! FORBIDDEN + collected
    ensures forall g | 0 <= g < 3 ::
              FirstFree(10_000_000 + hash(["lifecycle", "boundedness", "soak"][g], 0) % 80_000_000,
                        FORBIDDEN + collected + SetOf(flat[..g]), flat[g])
    ensures forall i | 0 <= i < 4 ::
              FirstFree(10_000_000 + hash("ablation", i) % 80_000_000, FORBIDDEN + collected + SetOf(flat[..3 + i]), flat[3 + i])
    ensures proof.unique && proof.explicitOverlap == {} && proof.overlap == SetOf(flat) * formal
    ensures proof.pass <==> SetOf(flat) !! formal
    ensures proof.pass <==>
              forall v | v in formal && v !in FORBIDDEN + collected ::
                !Reached(DownstreamStarts(hash, DOWNSTREAM_GROUPS), FORBIDDEN + collected, v)
    ensures formal <= FORBIDDEN + collected ==> proof.pass
  {
    hide IsAllocation, FirstFree, Distinct, SetOf, DownstreamStarts, Reached;
    flat := AllocateDownstream(FORBIDDEN + collected, hash);
    DownstreamRounds(hash, FORBIDDEN + collected, flat);
    AllocationDisjoint(DownstreamStarts(hash, DOWNSTREAM_GROUPS), FORBIDDEN + collected, flat);
    MissesExactly(DownstreamStarts(hash, DOWNSTREAM_GROUPS), FORBIDDEN + collected, flat, formal);
    var all := SetOf(flat);
    var unique := |flat| == |all|;
    assert all * FORBIDDEN == {};
    proof := Proof(unique, all * formal, all * FORBIDDEN, unique && all * FORBIDDEN == {} && all * formal == {});
  }

  /** The grouped loop over the shared used set. */
  method AllocateDownstream(used: set<int>, hash: Hash) returns (flat: seq<int>)
    ensures IsAllocation(DownstreamStarts(hash, DOWNSTREAM_GROUPS), used, flat)
  {
    hide IsAllocation;
    var pool := new UsedSeeds(used);
    flat := [];
    EmptyAllocation(pool.used);
    var groups := DOWNSTREAM_GROUPS;
    var i := 0;
    while i < |groups|
      invariant 0 <= i <= |groups|
      invariant IsAllocation(DownstreamStarts(hash, groups[..i]), used, flat)
      invariant pool.used == used + SetOf(flat)
    {
      var starts := Starts(10_000_000, 80_000_000, hash, groups[i].0, groups[i].1);
      var values := pool.FreshBatch(starts);
      AllocationAppend(DownstreamStarts(hash, groups[..i]), starts, used, flat, values);
      assert groups[..i + 1][..i] == groups[..i];
      flat := flat + values;
      i := i + 1;
    }
    assert groups[..|groups|] == groups;
  }

  /** The seeds miss a set exactly when none of its free members is reached. */
  lemma MissesExactly(starts: seq<int>, used: set<int>, seeds: seq<int>, others: set<int>)
    requires IsAllocation(starts, used, seeds)
    ensures SetOf(seeds) !! others <==> forall v | v in others && v !in used :: !Reached(starts, used, v)
  {
    AllocationDisjoint(starts, used, seeds);
    forall v | v !in used ensures v in SetOf(seeds) <==> Reached(starts, used, v) {
      TakenExactly(starts, used, seeds, v);
    }
  }

  // ------------------------------------------------------------ AS-011

  const AS011_LABELS := [
    "BOUNDEDNESS", "SOAK", "ABLATION:full", "ABLATION:terminal_readiness_disabled",
    "ABLATION:continuation_disabled", "ABLATION:route_learning_disabled"]

  const PREFLIGHT := [30911001, 30911002, 30911020]

  /** No preflight seed is historical, and the starts crowd no stretch that ends at one. */
  ghost predicate PreflightClear(starts: seq<int>, historical: set<int>) {
    forall v | v in PREFLIGHT :: v !in historical && !Reached(starts, historical, v)
  }

  lemma PreflightClearExactly(starts: seq<int>, historical: set<int>, seeds: seq<int>)
    requires IsAllocation(starts, historical, seeds)
    ensures PreflightClear(starts, historical) <==> SetOf(PREFLIGHT) !! historical && SetOf(PREFLIGHT) !! SetOf(seeds)
  {
    forall v | v in PREFLIGHT && v !in historical ensures v in SetOf(seeds) <==> Reached(starts, historical, v) {
      TakenExactly(starts, historical, seeds, v);
    }
    hide IsAllocation, Reached;
    assert forall v :: v in SetOf(PREFLIGHT) <==> v in PREFLIGHT;
    if SetOf(PREFLIGHT) !! historical && SetOf(PREFLIGHT) !! SetOf(seeds) {
      forall v | v in PREFLIGHT ensures v !in historical && v !in SetOf(seeds) {
        assert v in SetOf(PREFLIGHT);
      }
    }
  }

  /** The flag is false for every history with a preflight seed and for every hash that starts at one. */
  lemma PreflightCanCollide(starts: seq<int>, historical: set<int>, v: int)
    requires v in PREFLIGHT && (v in historical || v in starts)
    ensures !PreflightClear(starts, historical)
  {
    if v !in historical {
      var k :| 0 <= k < |starts| && starts[k] == v;
      StartCounts(starts, k);
      assert Stretch(v, v) - historical == {v};
      assert Crowded(starts, historical, v, v);
    }
  }

  lemma {:induction false} StartCounts(starts: seq<int>, k: nat)
    requires k < |starts|
    ensures StartsIn(starts, starts[k], starts[k]) >= 1
  {
    if k < |starts| - 1 {
      StartCounts(starts[..|starts| - 1], k);
    }
  }

  /**
   Six new seeds plus three fixed preflight seeds: whether the report says
   disjoint is settled by the starts and the history alone.
   */
  method BuildAs011(historical: set<int>, hash: Hash) returns (seeds: seq<int>, collisions: set<int>, disjoint: bool)
    ensures IsAllocation(GroupStarts(10_000_000, 80_000_000, hash, AS011_LABELS, 1), historical, seeds)
    ensures |seeds| == 6 && Distinct(seeds) && SetOf(seeds) !! historical
    ensures forall g | 0 <= g < 6 ::
              FirstFree(10_000_000 + hash(AS011_LABELS[g], 0) % 80_000_000, historical + SetOf(seeds[..g]), seeds[g])
    ensures collisions == SetOf(PREFLIGHT) * historical
    ensures disjoint <==> PreflightClear(GroupStarts(10_000_000, 80_000_000, hash, AS011_LABELS, 1), historical)
  {
    hide IsAllocation, FirstFree, Distinct, SetOf, GroupStarts, PreflightClear;
    var pool := new UsedSeeds(historical);
    seeds := AllocateGroups(pool, 10_000_000, 80_000_000, hash, AS011_LABELS, 1);
    AllocationDisjoint(GroupStarts(10_000_000, 80_000_000, hash, AS011_LABELS, 1), historical, seeds);
    As011Rounds(hash, historical, seeds);
    collisions, disjoint := ReportAs011(GroupStarts(10_000_000, 80_000_000, hash, AS011_LABELS, 1), historical, seeds);
  }

  lemma As011Rounds(hash: Hash, historical: set<int>, seeds: seq<int>)
    requires IsAllocation(GroupStarts(10_000_000, 80_000_000, hash, AS011_LABELS, 1), historical, seeds)
    ensures |seeds| == 6
    ensures forall g | 0 <= g < 6 ::
              FirstFree(10_000_000 + hash(AS011_LABELS[g], 0) % 80_000_000, historical + SetOf(seeds[..g]), seeds[g])
  {
    hide IsAllocation, FirstFree, SetOf, GroupStarts;
    SingleRounds(10_000_000, 80_000_000, hash, AS011_LABELS, historical, seeds);
  }

  /** The report over the generated and the preflight seeds together. */
  method ReportAs011(ghost starts: seq<int>, historical: set<int>, seeds: seq<int>) returns (collisions: set<int>, disjoint: bool)
    requires IsAllocation(starts, historical, seeds)
    ensures collisions == SetOf(PREFLIGHT) * historical
    ensures disjoint <==> PreflightClear(starts, historical)
  {
    hide IsAllocation, Distinct, PreflightClear;
    AllocationDisjoint(starts, historical, seeds);
    var generated := seeds + PREFLIGHT;
    PreflightClearExactly(starts, historical, seeds);
    PreflightAdds(seeds);
    UnionSize(SetOf(seeds), SetOf(PREFLIGHT));
    hide SetOf;
    collisions := SetOf(generated) * historical;
    disjoint := collisions == {} && |generated| == |SetOf(generated)|;
  }

  lemma PreflightAdds(seeds: seq<int>)
    ensures SetOf(seeds + PREFLIGHT) == SetOf(seeds) + SetOf(PREFLIGHT)
    ensures |SetOf(PREFLIGHT)| == |PREFLIGHT|
  {
    assert SetOf(PREFLIGHT) == {30911001, 30911002, 30911020};
  }

  lemma UnionSize(a: set<int>, b: set<int>)
    ensures |a + b| == |a| + |b| <==> a !! b
  {
    assert a + b == a + (b - a);
    assert |a + (b - a)| == |a| + |b - a|;
    assert b == (b - a) + (b * a);
    assert |b| == |b - a| + |b * a|;
  }

  // ------------------------------------------------------------ AS-012

  const AS012_LABELS := ["BOUNDEDNESS", "SOAK", "ABLATION_BASE"]

  /**
   The report compares the new seeds with the set that already holds them: it
   names all three as collisions and says not disjoint on every input, although
   they do avoid the set as it was before allocation.
   */
  method BuildAs012(historical: set<int>, hash: Hash)
    returns (seeds: seq<int>, preflight: int, collisions: set<int>, disjoint: bool)
    ensures IsAllocation(GroupStarts(20_000, 80_000_000, hash, AS012_LABELS, 1), historical, seeds)
    ensures |seeds| == 3 && Distinct(seeds) && SetOf(seeds) !! historical
    ensures forall g | 0 <= g < 3 ::
              FirstFree(20_000 + hash(["BOUNDEDNESS", "SOAK", "ABLATION_BASE"][g], 0) % 80_000_000, historical + SetOf(seeds[..g]), seeds[g])
    ensures FirstFree(39124000, historical + SetOf(seeds), preflight)
    ensures collisions == SetOf(seeds) && !disjoint
  {
    hide IsAllocation, FirstFree, Distinct, SetOf, GroupStarts;
    var pool := new UsedSeeds(historical);
    seeds := AllocateGroups(pool, 20_000, 80_000_000, hash, AS012_LABELS, 1);
    AllocationDisjoint(GroupStarts(20_000, 80_000_000, hash, AS012_LABELS, 1), historical, seeds);
    As012Rounds(hash, historical, seeds);
    preflight := ProbeUp(39124000, pool.used);
    collisions := SetOf(seeds) * pool.used;
    assert collisions == SetOf(seeds);
    SomeSeed(seeds);
    disjoint := collisions == {} && |seeds| == |SetOf(seeds)|;
  }

  lemma SomeSeed(seeds: seq<int>)
    requires seeds != []
    ensures SetOf(seeds) != {}
  {
    assert seeds[0] in SetOf(seeds);
  }

  lemma As012Rounds(hash: Hash, historical: set<int>, seeds: seq<int>)
    requires IsAllocation(GroupStarts(20_000, 80_000_000, hash, AS012_LABELS, 1), historical, seeds)
    ensures |seeds| == 3
    ensures forall g | 0 <= g < 3 ::
              FirstFree(20_000 + hash(["BOUNDEDNESS", "SOAK", "ABLATION_BASE"][g], 0) % 80_000_000, historical + SetOf(seeds[..g]), seeds[g])
  {
    hide IsAllocation, FirstFree, SetOf, GroupStarts;
    SingleRounds(20_000, 80_000_000, hash, AS012_LABELS, historical, seeds);
  }
}
