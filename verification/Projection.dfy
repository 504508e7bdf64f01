/**
 The prefix projection of one retained decision: who is eliminated, who wins,
 and when that differs from the full pool or from the production choice.
 */
module Projection {
  import opened TextOrder
  import opened Dominance
  import opened PartialOrder
  import DominanceOrder
  import F = Frontier
  import opened Wrappers

  type View = F.View

  datatype Row = Row(
    relationCount: nat,
    eliminatedCount: nat,
    frontierSize: nat,
    fullFrontier: bool,
    selected: string,
    fullPool: string)

  // ---------------------------------------------------------------- meaning

  ghost predicate Beats(views: seq<View>, prefixes: seq<string>, i: nat, j: nat) {
    && i < |views| && j < |views| && views[i].identity != views[j].identity
    && Passes(views[i].channels, views[j].channels, PrefixOptions(views[i].channels, views[j].channels, prefixes))
  }

  /** The positions the candidate at position `i` eliminates. */
  ghost function BeatenBy(views: seq<View>, prefixes: seq<string>, i: nat): set<nat> {
    set j | 0 <= j < |views| && Beats(views, prefixes, i, j)
  }

  ghost function NamesAt(views: seq<View>, positions: set<nat>): set<string> {
    set j | j in positions && j < |views| :: views[j].identity
  }

  /** The eliminated identities after the first `n` candidates have been compared with everybody. */
  ghost function Dominated(views: seq<View>, prefixes: seq<string>, n: nat): set<string> {
    if n == 0 then {} else Dominated(views, prefixes, n - 1) + NamesAt(views, BeatenBy(views, prefixes, n - 1))
  }

  ghost function RelationTotal(views: seq<View>, prefixes: seq<string>, n: nat): nat {
    if n == 0 then 0 else RelationTotal(views, prefixes, n - 1) + |BeatenBy(views, prefixes, n - 1)|
  }

  function Keep(views: seq<View>, dominated: set<string>): seq<View> {
    if views == [] then []
    else if views[0].identity in dominated then Keep(views[1..], dominated)
    else [views[0]] + Keep(views[1..], dominated)
  }

  ghost function FrontierOf(views: seq<View>, prefixes: seq<string>): seq<View> {
    Keep(views, Dominated(views, prefixes, |views|))
  }

  /** `max` by term, then by the greater identity. */
  ghost predicate MaxOf(views: seq<View>, w: View) {
    w in views && forall x | x in views :: x.term < w.term || (x.term == w.term && Le(x.identity, w.identity))
  }

  // -------------------------------------------------------------- the method

  method CompareWithAll(views: seq<View>, prefixes: seq<string>, i: nat) returns (count: nat, beaten: set<string>)
    requires i < |views|
    ensures count == |BeatenBy(views, prefixes, i)|
    ensures beaten == NamesAt(views, BeatenBy(views, prefixes, i))
  {
    hide Passes, PrefixOptions;
    count, beaten := 0, {};
    ghost var positions: set<nat> := {};
    var j := 0;
    while j < |views|
      invariant 0 <= j <= |views|
      invariant forall k: nat :: k in positions <==> k < j && Beats(views, prefixes, i, k)
      invariant count == |positions| && beaten == NamesAt(views, positions)
    {
      if views[i].identity != views[j].identity {
        var relation := PairRelation(views[i].channels, views[j].channels, prefixes);
        if relation.passed {
          assert NamesAt(views, positions + {j}) == NamesAt(views, positions) + {views[j].identity};
          positions := positions + {j};
          count := count + 1;
          beaten := beaten + {views[j].identity};
        }
      }
      j := j + 1;
    }
    assert positions == BeatenBy(views, prefixes, i);
  }

  method Maximum(views: seq<View>) returns (best: View)
    requires views != []
    ensures MaxOf(views, best)
  {
    hide Le;
    best := views[0];
    LeTotal(best.identity, best.identity);
    var i := 1;
    while i < |views|
      invariant 1 <= i <= |views|
      invariant best in views
      invariant forall k | 0 <= k < i :: views[k].term < best.term || (views[k].term == best.term && Le(views[k].identity, best.identity))
    {
      var next := views[i];
      LeTotal(next.identity, next.identity);
      LeTotal(next.identity, best.identity);
      if next.term > best.term || (next.term == best.term && Lt(best.identity, next.identity)) {
        forall k | 0 <= k < i && views[k].term == next.term ensures Le(views[k].identity, next.identity) {
          LeTransitive(views[k].identity, best.identity, next.identity);
        }
        best := next;
      }
      i := i + 1;
    }
  }

  /** One decision of the projection; `None` is the error of taking a maximum over nothing. */
  method ProjectDecision(views: seq<View>, prefixes: seq<string>) returns (row: Option<Row>)
    ensures row.None? <==> FrontierOf(views, prefixes) == []
    ensures row.Some? ==>
              && row.value.relationCount == RelationTotal(views, prefixes, |views|)
              && row.value.eliminatedCount == |Dominated(views, prefixes, |views|)|
              && row.value.frontierSize == |FrontierOf(views, prefixes)|
              && (row.value.fullFrontier <==> |FrontierOf(views, prefixes)| == |views|)
              && (exists w :: MaxOf(FrontierOf(views, prefixes), w) && w.identity == row.value.selected)
              && (exists w :: MaxOf(views, w) && w.identity == row.value.fullPool)
  {
    hide MaxOf, BeatenBy, NamesAt;
    var relations, dominated: set<string> := 0, {};
    var i := 0;
    while i < |views|
      invariant 0 <= i <= |views|
      invariant relations == RelationTotal(views, prefixes, i)
      invariant dominated == Dominated(views, prefixes, i)
    {
      var count, beaten := CompareWithAll(views, prefixes, i);
      relations, dominated := relations + count, dominated + beaten;
      i := i + 1;
    }
    var frontier := Keep(views, dominated);
    if frontier == [] {
      return None;
    }
    var selected := Maximum(frontier);
    var fullPool := Maximum(views);
    row := Some(Row(relations, |dominated|, |frontier|, |frontier| == |views|, selected.identity, fullPool.identity));
  }

  // ------------------------------------------------------------ the theorems

  ghost predicate UniqueIdentities(views: seq<View>) {
    forall i, j | 0 <= i < |views| && 0 <= j < |views| && views[i].identity == views[j].identity :: i == j
  }

  lemma {:induction false} DominatedMeans(views: seq<View>, prefixes: seq<string>, n: nat, name: string)
    requires n <= |views|
    ensures name in Dominated(views, prefixes, n) <==>
              exists i, j | 0 <= i < n && 0 <= j < |views| :: Beats(views, prefixes, i, j) && views[j].identity == name
  {
    hide Beats;
    if n > 0 {
      DominatedMeans(views, prefixes, n - 1, name);
      if name in NamesAt(views, BeatenBy(views, prefixes, n - 1)) {
        var j :| j in BeatenBy(views, prefixes, n - 1) && views[j].identity == name;
        assert Beats(views, prefixes, n - 1, j);
      }
      if i, j :| 0 <= i < n && 0 <= j < |views| && Beats(views, prefixes, i, j) && views[j].identity == name {
        if i == n - 1 {
          assert j in BeatenBy(views, prefixes, n - 1);
        }
      }
    }
  }

  lemma {:induction false} KeepMembers(views: seq<View>, dominated: set<string>)
    ensures forall x :: x in Keep(views, dominated) <==> x in views && x.identity !in dominated
  {
    if views != [] {
      KeepMembers(views[1..], dominated);
    }
  }

  lemma PrefixTransitive(a: Channels, b: Channels, c: Channels, prefixes: seq<string>)
    requires Passes(a, b, PrefixOptions(a, b, prefixes)) && Passes(b, c, PrefixOptions(b, c, prefixes))
    ensures Passes(a, c, PrefixOptions(a, c, prefixes))
  {
    hide Passes;
    var chosen := set key | key in a.Keys + b.Keys + c.Keys && StartsWithAny(key, prefixes);
    PrefixRelationIsRestrictedPass(a, b, prefixes, chosen);
    PrefixRelationIsRestrictedPass(b, c, prefixes, chosen);
    PrefixRelationIsRestrictedPass(a, c, prefixes, chosen);
    DominanceOrder.Transitive(a, b, c, Some(chosen));
  }

  ghost function Positions(views: seq<View>): set<nat> {
    set i {:trigger views[i]} | 0 <= i < |views|
  }

  lemma PositionsOrdered(views: seq<View>, prefixes: seq<string>)
    requires UniqueIdentities(views)
    ensures StrictOrderOn(Positions(views), (i: nat, j: nat) => Beats(views, prefixes, i, j))
  {
    hide Passes, PrefixOptions;
    forall i: nat, j: nat, k: nat | Beats(views, prefixes, i, j) && Beats(views, prefixes, j, k) ensures Beats(views, prefixes, i, k) {
      PrefixTransitive(views[i].channels, views[j].channels, views[k].channels, prefixes);
      if i == k {
        DominanceOrder.Irreflexive(views[i].channels, PrefixOptions(views[i].channels, views[i].channels, prefixes));
      }
    }
  }

  /** With unique identities somebody always survives, and every eliminated candidate is beaten by a survivor. */
  lemma UniquePoolSurvives(views: seq<View>, prefixes: seq<string>, x: View)
    requires UniqueIdentities(views) && x in views
    ensures x in FrontierOf(views, prefixes)
         || exists s :: s in FrontierOf(views, prefixes) && Passes(s.channels, x.channels, PrefixOptions(s.channels, x.channels, prefixes))
  {
    hide Beats;
    var k: nat :| k < |views| && views[k] == x;
    var s := SurvivingPosition(views, prefixes, k);
    NotDominated(views, prefixes, s);
    KeepMembers(views, Dominated(views, prefixes, |views|));
    hide Dominated;
    assert views[s] in FrontierOf(views, prefixes);
    BeatsPasses(views, prefixes, s, k);
  }

  lemma BeatsPasses(views: seq<View>, prefixes: seq<string>, i: nat, j: nat)
    requires i < |views| && j < |views|
    ensures Beats(views, prefixes, i, j) ==>
              Passes(views[i].channels, views[j].channels, PrefixOptions(views[i].channels, views[j].channels, prefixes))
  {}

  lemma SurvivingPosition(views: seq<View>, prefixes: seq<string>, k: nat) returns (s: nat)
    requires UniqueIdentities(views) && k < |views|
    ensures s < |views| && (s == k || Beats(views, prefixes, s, k))
    ensures forall i: nat | i < |views| :: !Beats(views, prefixes, i, s)
  {
    PositionsOrdered(views, prefixes);
    hide Beats;
    var beats := (i: nat, j: nat) => Beats(views, prefixes, i, j);
    s := DominatedBySurvivor(Positions(views), beats, k);
    forall i: nat | i < |views| ensures !Beats(views, prefixes, i, s) {
      assert !beats(i, s);
    }
  }

  lemma NotDominated(views: seq<View>, prefixes: seq<string>, s: nat)
    requires UniqueIdentities(views) && s < |views|
    requires forall i: nat | i < |views| :: !Beats(views, prefixes, i, s)
    ensures views[s].identity !in Dominated(views, prefixes, |views|)
  {
    hide Beats;
    DominatedMeans(views, prefixes, |views|, views[s].identity);
  }

  // ----- exactly which identity lists are safe

  ghost predicate Named(views: seq<View>, ids: seq<string>) {
    |views| == |ids| && forall i | 0 <= i < |ids| :: views[i].identity == ids[i]
  }

  ghost predicate NeverEmpty(ids: seq<string>, prefixes: seq<string>) {
    forall views | Named(views, ids) :: FrontierOf(views, prefixes) != []
  }

  ghost predicate AllDistinct(ids: seq<string>) {
    forall i, j | 0 <= i < j < |ids| :: ids[i] != ids[j]
  }

  ghost predicate AllSame(ids: seq<string>) {
    forall i, j | 0 <= i < j < |ids| :: ids[i] == ids[j]
  }

  /**
   The maximum over the frontier is defined for every evidence exactly when no
   identity repeats, or when there is only one identity and so nothing to compare.
   */
  lemma FrontierDefinedExactly(ids: seq<string>, prefixes: seq<string>)
    requires ids != [] && prefixes != []
    ensures NeverEmpty(ids, prefixes) <==> AllDistinct(ids) || AllSame(ids)
  {
    if AllDistinct(ids) || AllSame(ids) {
      forall views | Named(views, ids) ensures FrontierOf(views, prefixes) != [] {
        SafeIdentities(views, ids, prefixes);
      }
    } else {
      var p, q :| 0 <= p < q < |ids| && ids[p] == ids[q];
      var other :| 0 <= other < |ids| && ids[other] != ids[p];
      EmptiedFrontier(ids, prefixes, p, q, other);
    }
  }

  lemma SafeIdentities(views: seq<View>, ids: seq<string>, prefixes: seq<string>)
    requires ids != [] && Named(views, ids)
    requires AllDistinct(ids) || AllSame(ids)
    ensures FrontierOf(views, prefixes) != []
  {
    hide Passes, PrefixOptions;
    if AllDistinct(ids) {
      UniquePoolSurvives(views, prefixes, views[0]);
    } else {
      DominatedMeans(views, prefixes, |views|, views[0].identity);
      KeepMembers(views, Dominated(views, prefixes, |views|));
      assert views[0] in FrontierOf(views, prefixes);
    }
  }

  /** The one-channel evidence that empties the frontier: the second copy beats all others, one of which beats the first copy. */
  ghost function OneChannel(ids: seq<string>, key: string, p: nat, q: nat): seq<View>
    requires p < |ids| && q < |ids|
  {
    seq(|ids|, i requires 0 <= i < |ids| =>
      F.View(ids[i], map[key := Supported(if i == q then 2.0 else if ids[i] == ids[p] then 0.0 else 1.0)], 0.0))
  }

  lemma OneChannelPasses(x: real, y: real, key: string, prefixes: seq<string>)
    requires prefixes != [] && key == prefixes[0] && x > y
    ensures var a: Channels, b: Channels := map[key := Supported(x)], map[key := Supported(y)];
            Passes(a, b, PrefixOptions(a, b, prefixes))
  {
    var a: Channels, b: Channels := map[key := Supported(x)], map[key := Supported(y)];
    assert StartsWithAny(key, prefixes);
    assert key in PrefixScope(a, b, prefixes) && Compare(a, b, key).Better?;
  }

  lemma EmptiedFrontier(ids: seq<string>, prefixes: seq<string>, p: nat, q: nat, other: nat)
    requires prefixes != []
    requires p < q < |ids| && ids[p] == ids[q]
    requires other < |ids| && ids[other] != ids[p]
    ensures !NeverEmpty(ids, prefixes)
  {
    hide Passes, PrefixOptions;
    var key := prefixes[0];
    var views := OneChannel(ids, key, p, q);
    assert Named(views, ids);
    OneChannelPasses(2.0, 1.0, key, prefixes);
    OneChannelPasses(1.0, 0.0, key, prefixes);
    forall j | 0 <= j < |views| ensures views[j].identity in Dominated(views, prefixes, |views|) {
      DominatedMeans(views, prefixes, |views|, ids[j]);
      if ids[j] == ids[p] {
        assert Beats(views, prefixes, other, p);
      } else {
        assert Beats(views, prefixes, q, j);
      }
    }
    KeepsNothing(views, Dominated(views, prefixes, |views|));
  }

  lemma {:induction false} KeepsNothing(views: seq<View>, dominated: set<string>)
    requires forall j | 0 <= j < |views| :: views[j].identity in dominated
    ensures Keep(views, dominated) == []
  {
    if views != [] {
      KeepsNothing(views[1..], dominated);
    }
  }

  // ----- winners

  /** The projection changes the winner exactly when it eliminates the full-pool winner. */
  lemma WinnerChangesExactly(views: seq<View>, prefixes: seq<string>, selected: View, fullPool: View)
    requires UniqueIdentities(views)
    requires MaxOf(FrontierOf(views, prefixes), selected) && MaxOf(views, fullPool)
    ensures selected.identity != fullPool.identity <==> fullPool.identity in Dominated(views, prefixes, |views|)
  {
    hide Dominated, Le;
    KeepMembers(views, Dominated(views, prefixes, |views|));
    if fullPool.identity !in Dominated(views, prefixes, |views|) {
      assert fullPool in FrontierOf(views, prefixes);
      LeAntisymmetric(selected.identity, fullPool.identity);
    }
  }

  /**
   Production breaks ties between equal terms towards the smaller identity and
   the projection towards the greater one, so on the same survivors they agree
   exactly when the greatest term is attained once.
   */
  lemma TieBreaksAgreeExactly(pool: F.Pool, views: seq<View>, production: string, projected: View)
    requires F.Denotes(views, pool)
    requires F.Wins(pool, pool.Keys, production) && MaxOf(views, projected)
    ensures production == projected.identity <==>
              forall x, y | x in views && y in views && x.term == y.term == projected.term :: x == y
  {
    hide Le;
    var w := pool[production];
    assert w in views && w.identity == production;
    if production == projected.identity {
      forall x | x in views && x.term == projected.term ensures x == w {
        LeAntisymmetric(x.identity, w.identity);
        assert pool[x.identity] == x;
      }
    } else {
      assert w.term == projected.term && projected in views && w != projected;
    }
  }

  /** Two candidates with the same term: production takes the smaller name and the projection the greater. */
  lemma TiedPairDiffers(x: string, y: string, a: Channels, b: Channels, term: real)
    requires Lt(x, y)
    ensures var views, pool := [F.View(x, a, term), F.View(y, b, term)], map[x := F.View(x, a, term), y := F.View(y, b, term)];
            && F.Denotes(views, pool) && F.Wins(pool, pool.Keys, x) && MaxOf(views, views[1])
            && views[1].identity != x
  {
    LeTotal(x, x);
    LeTotal(y, y);
  }

  // ----- counts

  /** No relation, no eliminated candidate and a full frontier are the same thing. */
  lemma NoRelationExactly(views: seq<View>, prefixes: seq<string>)
    ensures |Dominated(views, prefixes, |views|)| <= RelationTotal(views, prefixes, |views|)
    ensures RelationTotal(views, prefixes, |views|) == 0 <==> Dominated(views, prefixes, |views|) == {}
    ensures Dominated(views, prefixes, |views|) == {} <==> |FrontierOf(views, prefixes)| == |views|
  {
    Totals(views, prefixes, |views|);
    KeepsAllExactly(views, Dominated(views, prefixes, |views|));
    if name :| name in Dominated(views, prefixes, |views|) {
      DominatedMeans(views, prefixes, |views|, name);
    }
  }

  lemma NamesBounded(views: seq<View>, positions: set<nat>)
    requires forall j | j in positions :: j < |views|
    ensures |NamesAt(views, positions)| <= |positions|
    ensures NamesAt(views, positions) == {} <==> positions == {}
  {
    if positions != {} {
      var j :| j in positions;
      NamesBounded(views, positions - {j});
      assert NamesAt(views, positions) == NamesAt(views, positions - {j}) + {views[j].identity};
    }
  }

  lemma {:induction false} Totals(views: seq<View>, prefixes: seq<string>, n: nat)
    ensures |Dominated(views, prefixes, n)| <= RelationTotal(views, prefixes, n)
    ensures RelationTotal(views, prefixes, n) == 0 <==> Dominated(views, prefixes, n) == {}
  {
    hide Beats;
    if n > 0 {
      Totals(views, prefixes, n - 1);
      NamesBounded(views, BeatenBy(views, prefixes, n - 1));
    }
  }

  lemma {:induction false} KeepsAllExactly(views: seq<View>, dominated: set<string>)
    ensures |Keep(views, dominated)| <= |views|
    ensures |Keep(views, dominated)| == |views| <==> forall x | x in views :: x.identity !in dominated
  {
    if views != [] {
      KeepsAllExactly(views[1..], dominated);
    }
  }

  /** With unique identities every candidate is counted once, as eliminated or as surviving. */
  lemma EliminatedPlusSurviving(views: seq<View>, dominated: set<string>)
    requires UniqueIdentities(views)
    requires forall name | name in dominated :: exists x :: x in views && x.identity == name
    ensures |dominated| + |Keep(views, dominated)| == |views|
  {
    if views != [] {
      var head, tail := views[0], views[1..];
      forall x | x in tail ensures x.identity != head.identity {}
      if head.identity in dominated {
        SameKeep(tail, dominated, dominated - {head.identity});
        EliminatedPlusSurviving(tail, dominated - {head.identity});
      } else {
        EliminatedPlusSurviving(tail, dominated);
      }
    } else if name :| name in dominated {
      assert false;
    }
  }

  lemma {:induction false} SameKeep(views: seq<View>, dominated: set<string>, dominated': set<string>)
    requires forall x | x in views :: x.identity in dominated <==> x.identity in dominated'
    ensures Keep(views, dominated) == Keep(views, dominated')
  {
    if views != [] {
      SameKeep(views[1..], dominated, dominated');
    }
  }

  ghost function BeatingPairs(views: seq<View>, prefixes: seq<string>, n: nat): set<(nat, nat)> {
    set i: nat, j: nat | i < n && j < |views| && Beats(views, prefixes, i, j) :: (i, j)
  }

  ghost function BeatingRow(views: seq<View>, prefixes: seq<string>, i: nat, m: nat): set<(nat, nat)> {
    set j: nat | j < m && Beats(views, prefixes, i, j) :: (i, j)
  }

  lemma {:induction false} BeatingRowNumbers(views: seq<View>, prefixes: seq<string>, i: nat, m: nat)
    ensures |BeatingRow(views, prefixes, i, m)| == |set j: nat | j < m && Beats(views, prefixes, i, j)|
  {
    hide Beats;
    var now := set j: nat | j < m && Beats(views, prefixes, i, j);
    if m == 0 {
      assert BeatingRow(views, prefixes, i, 0) == {} && now == {};
    } else {
      BeatingRowNumbers(views, prefixes, i, m - 1);
      var before := set j: nat | j < m - 1 && Beats(views, prefixes, i, j);
      if Beats(views, prefixes, i, m - 1) {
        assert BeatingRow(views, prefixes, i, m) == BeatingRow(views, prefixes, i, m - 1) + {(i, m - 1)};
        assert now == before + {m - 1};
      } else {
        assert BeatingRow(views, prefixes, i, m) == BeatingRow(views, prefixes, i, m - 1);
        assert now == before;
      }
    }
  }

  /** The relation count is the number of ordered pairs of positions of which the first beats the second. */
  lemma {:induction false} RelationsNumber(views: seq<View>, prefixes: seq<string>, n: nat)
    requires n <= |views|
    ensures RelationTotal(views, prefixes, n) == |BeatingPairs(views, prefixes, n)|
  {
    hide Beats;
    if n == 0 {
      assert BeatingPairs(views, prefixes, 0) == {};
    } else {
      RelationsNumber(views, prefixes, n - 1);
      var last: nat := n - 1;
      BeatingRowNumbers(views, prefixes, last, |views|);
      assert BeatenBy(views, prefixes, last) == set j: nat | j < |views| && Beats(views, prefixes, last, j);
      var before, row := BeatingPairs(views, prefixes, last), BeatingRow(views, prefixes, last, |views|);
      assert BeatingPairs(views, prefixes, n) == before + row && before !! row;
      assert |before + row| == |before| + |row|;
    }
  }
}
