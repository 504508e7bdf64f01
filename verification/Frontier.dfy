/**
 Frontiers and winners over candidate pools: the production resolution and the
 offline audit of its pair table.
 */
module Frontier {
  import opened TextOrder
  import opened Dominance
  import opened PartialOrder
  import DominanceOrder
  import opened Wrappers

  datatype View = View(identity: string, channels: Channels, term: real)

  /** A pool of candidates with unique identities. */
  type Pool = map<string, View>

  const MAX_ORDINARY_CANDIDATES := 256

  datatype Failure = NoCandidate | TooManyCandidates | DuplicateIdentity | EmptyFrontier

  /** `attempts[x][y]` is the attempt of `x` to eliminate `y`. */
  type Table = map<string, map<string, Attempt>>

  datatype Resolution =
    | Resolved(selected: string, frontier: seq<string>, dominated: seq<string>, attempts: Table, stochasticRequired: bool)
    | Failed(failure: Failure)

  // ---------------------------------------------------------------- meaning

  ghost predicate Eliminates(pool: Pool, x: string, y: string) {
    x in pool && y in pool && Passes(pool[x].channels, pool[y].channels, PRODUCTION)
  }

  ghost function Survivors(pool: Pool): set<string> {
    set y | y in pool && forall x | x in pool :: !Eliminates(pool, x, y)
  }

  /** Greatest term first, then the smaller identity. */
  ghost predicate Wins(pool: Pool, among: set<string>, w: string)
    requires among <= pool.Keys
  {
    w in among && forall x | x in among :: pool[x].term < pool[w].term || (pool[x].term == pool[w].term && Le(w, x))
  }

  ghost predicate IsRow(pool: Pool, x: string, row: map<string, Attempt>) {
    && x in pool
    && row.Keys == pool.Keys - {x}
    && (forall y | y in row :: row[y] == AttemptOf(pool[x].channels, pool[y].channels))
  }

  ghost predicate IsTable(pool: Pool, attempts: Table) {
    attempts.Keys == pool.Keys && forall x | x in pool :: IsRow(pool, x, attempts[x])
  }

  /** What a successful resolution of a pool means. */
  ghost predicate IsResolution(pool: Pool, r: Resolution) {
    && r.Resolved?
    && r.frontier == Sorted(Survivors(pool))
    && r.dominated == Sorted(pool.Keys - Survivors(pool))
    && Wins(pool, Survivors(pool), r.selected)
    && IsTable(pool, r.attempts)
    && r.stochasticRequired == (|r.frontier| > 1)
  }

  /** The pool a list of views denotes; the order of the list plays no part. */
  ghost predicate Denotes(views: seq<View>, pool: Pool) {
    && (forall x | x in views :: x.identity in pool && pool[x.identity] == x)
    && (forall id | id in pool :: pool[id] in views && pool[id].identity == id)
  }

  // ------------------------------------------------------------ the theorems

  ghost function Elimination(pool: Pool): (string, string) -> bool {
    (x: string, y: string) => Eliminates(pool, x, y)
  }

  lemma EliminationIsStrictOrder(pool: Pool)
    ensures StrictOrderOn(pool.Keys, Elimination(pool))
  {
    var beats := Elimination(pool);
    forall x | x in pool ensures !beats(x, x) {
      DominanceOrder.Irreflexive(pool[x].channels, PRODUCTION);
    }
    forall x, y, z | x in pool && y in pool && z in pool && beats(x, y) && beats(y, z) ensures beats(x, z) {
      DominanceOrder.Transitive(pool[x].channels, pool[y].channels, pool[z].channels, None);
    }
  }

  /** Every eliminated candidate is eliminated by one that survives. */
  lemma EveryEliminationHasSurvivor(pool: Pool, y: string)
    requires y in pool
    ensures y in Survivors(pool) || exists x :: x in Survivors(pool) && Eliminates(pool, x, y)
  {
    EliminationIsStrictOrder(pool);
    var x := DominatedBySurvivor(pool.Keys, Elimination(pool), y);
    hide Passes;
    assert x in Survivors(pool);
  }

  lemma FrontierNonEmpty(pool: Pool)
    requires pool != map[]
    ensures Survivors(pool) != {}
  {
    var y :| y in pool;
    EveryEliminationHasSurvivor(pool, y);
  }

  lemma RowUnique(pool: Pool, x: string, row: map<string, Attempt>, row': map<string, Attempt>)
    requires IsRow(pool, x, row) && IsRow(pool, x, row')
    ensures row == row'
  {}

  lemma TableUnique(pool: Pool, attempts: Table, attempts': Table)
    requires IsTable(pool, attempts) && IsTable(pool, attempts')
    ensures attempts == attempts'
  {
    hide IsRow;
    forall x | x in pool ensures attempts[x] == attempts'[x] {
      RowUnique(pool, x, attempts[x], attempts'[x]);
    }
  }

  lemma ResolutionUnique(pool: Pool, r: Resolution, r': Resolution)
    requires IsResolution(pool, r) && IsResolution(pool, r')
    ensures r == r'
  {
    hide Survivors, IsTable, Le, Sorted, StrictlySorted;
    TableUnique(pool, r.attempts, r'.attempts);
    LeAntisymmetric(r.selected, r'.selected);
  }

  // ---------------------------------------------------------- the resolution

  /** All attempts of one candidate, and the identities it eliminates. */
  method AttemptsFrom(x: string, ids: seq<string>, pool: Pool) returns (row: map<string, Attempt>, beaten: set<string>)
    requires x in pool && forall id :: id in ids <==> id in pool
    ensures IsRow(pool, x, row)
    ensures beaten == set y | y in pool && Eliminates(pool, x, y)
  {
    hide AttemptOf;
    hide Passes;
    row, beaten := map[], {};
    var j := 0;
    while j < |ids|
      invariant 0 <= j <= |ids|
      invariant forall y :: y in row <==> y in ids[..j] && y != x
      invariant forall y | y in row :: row[y] == AttemptOf(pool[x].channels, pool[y].channels)
      invariant forall y :: y in beaten <==> y in ids[..j] && Eliminates(pool, x, y)
    {
      var y := ids[j];
      assert ids[..j + 1] == ids[..j] + [y];
      if y != x {
        var attempt := SupportedDominance(pool[x].channels, pool[y].channels);
        ReconstructionMatchesExactlyWhenNotPassed(pool[x].channels, pool[y].channels);
        row := row[y := attempt];
        if attempt.passed {
          beaten := beaten + {y};
        }
      } else {
        DominanceOrder.Irreflexive(pool[x].channels, PRODUCTION);
      }
      j := j + 1;
    }
    assert ids[..|ids|] == ids;
  }

  /** The whole pair table and the eliminated identities. */
  method PairTable(ids: seq<string>, pool: Pool) returns (attempts: Table, dominated: set<string>)
    requires forall id :: id in ids <==> id in pool
    ensures IsTable(pool, attempts)
    ensures dominated == pool.Keys - Survivors(pool)
  {
    hide IsRow, Eliminates;
    attempts, dominated := map[], {};
    var i := 0;
    while i < |ids|
      invariant 0 <= i <= |ids|
      invariant forall x :: x in attempts <==> x in ids[..i]
      invariant forall x | x in attempts :: IsRow(pool, x, attempts[x])
      invariant forall y :: y in dominated <==> y in pool && exists x | x in ids[..i] :: Eliminates(pool, x, y)
    {
      assert ids[..i + 1] == ids[..i] + [ids[i]];
      var row, beaten := AttemptsFrom(ids[i], ids, pool);
      attempts := attempts[ids[i] := row];
      dominated := dominated + beaten;
      i := i + 1;
    }
    assert ids[..|ids|] == ids;
  }

  method SelectWinner(frontier: seq<string>, pool: Pool) returns (best: string)
    requires frontier != []
    requires forall id | id in frontier :: id in pool
    ensures Wins(pool, (set id | id in frontier), best)
  {
    hide Le;
    best := frontier[0];
    LeTotal(best, best);
    var i := 1;
    while i < |frontier|
      invariant 1 <= i <= |frontier|
      invariant best in frontier
      invariant forall k | 0 <= k < i ::
                  pool[frontier[k]].term < pool[best].term
                  || (pool[frontier[k]].term == pool[best].term && Le(best, frontier[k]))
    {
      var next := frontier[i];
      LeTotal(next, next);
      LeTotal(next, best);
      if pool[next].term > pool[best].term || (pool[next].term == pool[best].term && Le(next, best)) {
        forall k | 0 <= k < i && pool[frontier[k]].term == pool[next].term ensures Le(next, frontier[k]) {
          LeTransitive(next, best, frontier[k]);
        }
        best := next;
      }
      i := i + 1;
    }
  }

  ghost function IdentitiesUpTo(views: seq<View>, n: nat): set<string>
    requires n <= |views|
  {
    set i | 0 <= i < n :: views[i].identity
  }

  ghost predicate DistinctUpTo(views: seq<View>, n: nat)
    requires n <= |views|
  {
    forall i, j | 0 <= i < j < n :: views[i].identity != views[j].identity
  }

  ghost predicate Distinct(views: seq<View>) {
    DistinctUpTo(views, |views|)
  }

  lemma DistinctStep(views: seq<View>, n: nat)
    requires n < |views|
    ensures DistinctUpTo(views, n + 1) <==> DistinctUpTo(views, n) && views[n].identity !in IdentitiesUpTo(views, n)
  {}

  lemma {:induction false} DistinctByCount(views: seq<View>, n: nat)
    requires n <= |views|
    ensures |IdentitiesUpTo(views, n)| <= n
    ensures |IdentitiesUpTo(views, n)| == n <==> DistinctUpTo(views, n)
  {
    if n > 0 {
      DistinctByCount(views, n - 1);
      DistinctStep(views, n - 1);
      hide DistinctUpTo;
      assert IdentitiesUpTo(views, n) == IdentitiesUpTo(views, n - 1) + {views[n - 1].identity};
    }
  }

  lemma DistinctIndexDenotes(views: seq<View>, pool: Pool)
    requires Distinct(views)
    requires pool.Keys == IdentitiesUpTo(views, |views|)
    requires forall id | id in pool :: pool[id] in views && pool[id].identity == id
    ensures Denotes(views, pool)
  {}

  method IndexByIdentity(views: seq<View>) returns (pool: Pool)
    ensures |pool| == |views| <==> Distinct(views)
    ensures Distinct(views) ==> Denotes(views, pool)
  {
    pool := BuildIndex(views);
    hide DistinctUpTo, Denotes, IdentitiesUpTo;
    DistinctByCount(views, |views|);
    assert |pool| == |pool.Keys|;
    if Distinct(views) {
      DistinctIndexDenotes(views, pool);
    }
  }

  method BuildIndex(views: seq<View>) returns (pool: Pool)
    ensures pool.Keys == IdentitiesUpTo(views, |views|)
    ensures forall id | id in pool :: pool[id] in views && pool[id].identity == id
  {
    pool := map[];
    var i := 0;
    while i < |views|
      invariant 0 <= i <= |views|
      invariant pool.Keys == IdentitiesUpTo(views, i)
      invariant forall id | id in pool :: pool[id] in views && pool[id].identity == id
    {
      assert IdentitiesUpTo(views, i + 1) == IdentitiesUpTo(views, i) + {views[i].identity};
      pool := pool[views[i].identity := views[i]];
      i := i + 1;
    }
  }

  /** What the resolution of a list of views is, failures included. */
  ghost predicate Resolves(views: seq<View>, r: Resolution) {
    if views == [] then r == Failed(NoCandidate)
    else if |views| > MAX_ORDINARY_CANDIDATES then r == Failed(TooManyCandidates)
    else if !Distinct(views) then r == Failed(DuplicateIdentity)
    else exists pool: Pool :: Denotes(views, pool) && IsResolution(pool, r)
  }

  lemma DistinctIgnoresOrder(views: seq<View>, views': seq<View>)
    requires multiset(views) == multiset(views')
    ensures |views| == |views'| && (Distinct(views) <==> Distinct(views'))
  {
    assert |views| == |multiset(views)| == |multiset(views')| == |views'|;
    DistinctByCount(views, |views|);
    DistinctByCount(views', |views'|);
    SameMembers(views, views');
    IdentitiesOfMembers(views, views');
    IdentitiesOfMembers(views', views);
    assert IdentitiesUpTo(views, |views|) == IdentitiesUpTo(views', |views'|);
  }

  lemma IdentitiesOfMembers(views: seq<View>, views': seq<View>)
    requires forall x | x in views :: x in views'
    ensures IdentitiesUpTo(views, |views|) <= IdentitiesUpTo(views', |views'|)
  {
    forall id | id in IdentitiesUpTo(views, |views|) ensures id in IdentitiesUpTo(views', |views'|) {
      var i :| 0 <= i < |views| && views[i].identity == id;
      assert views[i] in views';
      var j :| 0 <= j < |views'| && views'[j] == views[i];
      assert views'[j].identity == id;
    }
  }

  lemma SamePool(views: seq<View>, views': seq<View>, pool: Pool, pool': Pool)
    requires forall x :: x in views <==> x in views'
    requires Denotes(views, pool) && Denotes(views', pool')
    ensures pool == pool'
  {}

  lemma SameMembers(views: seq<View>, views': seq<View>)
    requires multiset(views) == multiset(views')
    ensures forall x :: x in views <==> x in views'
  {
    assert forall x :: x in views <==> x in multiset(views);
    assert forall x :: x in views' <==> x in multiset(views');
  }

  /** Views arriving in another order resolve to the same outcome, the failures included. */
  lemma OrderIndependent(views: seq<View>, views': seq<View>, r: Resolution, r': Resolution)
    requires multiset(views) == multiset(views')
    requires Resolves(views, r) && Resolves(views', r')
    ensures r == r'
  {
    DistinctIgnoresOrder(views, views');
    SameMembers(views, views');
    hide IsResolution, Distinct, Denotes;
    if 0 < |views| <= MAX_ORDINARY_CANDIDATES && Distinct(views) {
      var pool: Pool :| Denotes(views, pool) && IsResolution(pool, r);
      var pool': Pool :| Denotes(views', pool') && IsResolution(pool', r');
      SamePool(views, views', pool, pool');
      ResolutionUnique(pool, r, r');
    }
  }

  /**
   The production resolution of one snapshot: every failure it can report and,
   otherwise, the resolution of the pool. The empty-frontier error is never reported.
   */
  method Resolve(views: seq<View>) returns (r: Resolution, ghost pool: Pool)
    ensures Resolves(views, r)
    ensures 0 < |views| <= MAX_ORDINARY_CANDIDATES && Distinct(views) ==> Denotes(views, pool) && IsResolution(pool, r)
  {
    pool := map[];
    if |views| == 0 {
      r := Failed(NoCandidate);
      return;
    }
    if |views| > MAX_ORDINARY_CANDIDATES {
      r := Failed(TooManyCandidates);
      return;
    }
    hide IsResolution;
    var byIdentity := IndexByIdentity(views);
    if |byIdentity| != |views| {
      r := Failed(DuplicateIdentity);
      return;
    }
    pool := byIdentity;
    r := ResolvePool(byIdentity);
  }

  method ResolvePool(pool: Pool) returns (r: Resolution)
    requires pool != map[]
    ensures IsResolution(pool, r)
  {
    hide Survivors, IsTable, Sorted, StrictlySorted, Le;
    var ids := SortNames(pool.Keys);
    var attempts, dominated := PairTable(ids, pool);
    SurvivorsInPool(pool);
    var frontier := SortNames(pool.Keys - dominated);
    assert pool.Keys - dominated == Survivors(pool);
    FrontierNonEmpty(pool);
    if frontier == [] {
      return Failed(EmptyFrontier);
    }
    var best := SelectWinner(frontier, pool);
    assert (set id | id in frontier) == Survivors(pool);
    var eliminated := SortNames(dominated);
    r := Resolved(best, frontier, eliminated, attempts, |frontier| > 1);
  }

  lemma SurvivorsInPool(pool: Pool)
    ensures Survivors(pool) <= pool.Keys
  {}

  /** A resolution, said of the candidates: who survives, who is eliminated, and what each attempt says. */
  lemma ResolutionMeans(pool: Pool, r: Resolution)
    requires IsResolution(pool, r)
    ensures StrictlySorted(r.frontier) && StrictlySorted(r.dominated)
    ensures forall y :: y in r.frontier <==> y in pool && forall x | x in pool :: !Passes(pool[x].channels, pool[y].channels, PRODUCTION)
    ensures forall y :: y in r.dominated <==> y in pool && exists x | x in pool :: Passes(pool[x].channels, pool[y].channels, PRODUCTION)
    ensures forall x, y | x in pool && y in pool && x != y ::
              && x in r.attempts && y in r.attempts[x]
              && (r.attempts[x][y].passed <==> Passes(pool[x].channels, pool[y].channels, PRODUCTION))
    ensures r.selected in r.frontier
    ensures forall x | x in r.frontier && x != r.selected ::
              pool[x].term < pool[r.selected].term || (pool[x].term == pool[r.selected].term && Lt(r.selected, x))
  {
    forall x, y | x in pool && y in pool && x != y
      ensures x in r.attempts && y in r.attempts[x]
           && (r.attempts[x][y].passed <==> Passes(pool[x].channels, pool[y].channels, PRODUCTION))
    {
      assert IsRow(pool, x, r.attempts[x]);
      ReconstructionMatchesExactlyWhenNotPassed(pool[x].channels, pool[y].channels);
    }
    hide Passes, AttemptOf, Le;
  }

  // ------------------------------------------------------ the offline audit

  ghost predicate RetainsRow(pool: Pool, retained: Table, x: string) {
    forall y | y in pool && y != x :: x in retained && y in retained[x]
  }

  /** Every ordered pair of candidates has a retained attempt. */
  ghost predicate Retains(pool: Pool, retained: Table) {
    forall x | x in pool :: RetainsRow(pool, retained, x)
  }

  /** The audit of one ordered pair: the reconstruction differs from what was retained. */
  ghost predicate Mismatch(pool: Pool, retained: Table, x: string, y: string) {
    && x in pool && y in pool && x != y && x in retained && y in retained[x]
    && Reconstructed(Explain(pool[x].channels, pool[y].channels, PRODUCTION)) != retained[x][y]
  }

  /**
   The offline audit of a retained pair table against its own reconstruction.
   `None` stands for the key error of a pair that was not retained.
   */
  method AuditPairs(pool: Pool, retained: Table) returns (mismatches: Option<map<string, set<string>>>)
    ensures mismatches.None? <==> !Retains(pool, retained)
    ensures mismatches.Some? ==>
              && mismatches.value.Keys == pool.Keys
              && forall x, y | x in pool :: y in mismatches.value[x] <==> Mismatch(pool, retained, x, y)
  {
    hide Mismatch, RetainsRow;
    var found: map<string, set<string>> := map[];
    var ids := SortNames(pool.Keys);
    var i := 0;
    while i < |ids|
      invariant 0 <= i <= |ids|
      invariant forall x :: x in found <==> x in ids[..i]
      invariant forall x | x in found :: RetainsRow(pool, retained, x)
      invariant forall x, y | x in found :: y in found[x] <==> Mismatch(pool, retained, x, y)
    {
      assert ids[..i + 1] == ids[..i] + [ids[i]];
      assert ids[i] in ids;
      var row := AuditRow(ids[i], ids, pool, retained);
      if row.None? {
        return None;
      }
      found := found[ids[i] := row.value];
      i := i + 1;
    }
    assert ids[..|ids|] == ids;
    mismatches := Some(found);
  }

  method AuditRow(x: string, ids: seq<string>, pool: Pool, retained: Table) returns (mismatched: Option<set<string>>)
    requires x in pool && forall id :: id in ids <==> id in pool
    ensures mismatched.None? <==> !RetainsRow(pool, retained, x)
    ensures mismatched.Some? ==> forall y :: y in mismatched.value <==> Mismatch(pool, retained, x, y)
  {
    hide Explain;
    var found: set<string> := {};
    var j := 0;
    while j < |ids|
      invariant 0 <= j <= |ids|
      invariant forall y | y in ids[..j] && y != x :: x in retained && y in retained[x]
      invariant forall y :: y in found <==> y in ids[..j] && Mismatch(pool, retained, x, y)
    {
      var y := ids[j];
      assert ids[..j + 1] == ids[..j] + [y];
      if x != y {
        if x !in retained || y !in retained[x] {
          assert y in ids;
          return None;
        }
        var explanation := ChannelPairs(pool[x].channels, pool[y].channels, PRODUCTION);
        if Reconstructed(explanation) != retained[x][y] {
          found := found + {y};
        }
      }
      j := j + 1;
    }
    assert ids[..|ids|] == ids;
    mismatched := Some(found);
  }

  /** On a genuine production table every pair is retained and the mismatches are precisely the eliminations. */
  lemma AuditOfProduction(pool: Pool, retained: Table, x: string, y: string)
    requires IsTable(pool, retained)
    ensures Retains(pool, retained)
    ensures Mismatch(pool, retained, x, y) <==> Eliminates(pool, x, y)
  {
    hide AttemptOf, Explain;
    assert forall z | z in pool :: IsRow(pool, z, retained[z]);
    if x in pool && y in pool {
      ReconstructionMatchesExactlyWhenNotPassed(pool[x].channels, pool[y].channels);
      DominanceOrder.Irreflexive(pool[x].channels, PRODUCTION);
    }
  }
}
