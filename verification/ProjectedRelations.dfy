/**
 The counters of the projected relations over retained decisions, under every
 analysis mode, and what can be said of them for all decisions.
 */
module ProjectedRelations {
  import opened Dominance
  import opened Frontier
  import opened AnalysisModes
  import DominanceOrder
  import opened Wrappers

  /** Which ordered pairs of positions are counted: all with different identities, or those a mode reports. */
  datatype Relation = Different | Reported(mode: Mode)

  ghost predicate Holds(views: seq<View>, r: Relation, i: nat, j: nat)
    requires i < |views| && j < |views|
  {
    && views[i].identity != views[j].identity
    && (r.Reported? ==> Passes(views[i].channels, views[j].channels, ModeOptions(views, r.mode)))
  }

  ghost function One(holds: bool): nat {
    if holds then 1 else 0
  }

  ghost function Row(views: seq<View>, r: Relation, i: nat, m: nat): nat
    requires i < |views| && m <= |views|
  {
    if m == 0 then 0 else Row(views, r, i, m - 1) + One(Holds(views, r, i, m - 1))
  }

  /** The pairs counted by the nested loop after `n` turns of the outer one, the inner one running to `m`. */
  ghost function Pairs(views: seq<View>, r: Relation, n: nat, m: nat): nat
    requires n <= |views| && m <= |views|
  {
    if n == 0 then 0 else Pairs(views, r, n - 1, m) + Row(views, r, n - 1, m)
  }

  ghost function PairsOf(views: seq<View>, r: Relation): nat {
    Pairs(views, r, |views|, |views|)
  }

  ghost function Total(decisions: seq<seq<View>>, r: Relation): nat {
    if decisions == [] then 0 else Total(decisions[..|decisions| - 1], r) + PairsOf(decisions[|decisions| - 1], r)
  }

  ghost function DecisionsWith(decisions: seq<seq<View>>, r: Relation): nat {
    if decisions == [] then 0
    else DecisionsWith(decisions[..|decisions| - 1], r) + One(PairsOf(decisions[|decisions| - 1], r) > 0)
  }

  datatype Counts = Counts(orderedPairs: nat, relations: nat, decisionsWithRelation: nat)

  /** Counts, over all decisions, the ordered pairs and the relations a mode reports. */
  method CountRelations(decisions: seq<seq<View>>, mode: Mode) returns (c: Counts)
    ensures c.orderedPairs == Total(decisions, Different)
    ensures c.relations == Total(decisions, Reported(mode))
    ensures c.decisionsWithRelation == DecisionsWith(decisions, Reported(mode))
  {
    c := Counts(0, 0, 0);
    for k := 0 to |decisions|
      invariant c.orderedPairs == Total(decisions[..k], Different)
      invariant c.relations == Total(decisions[..k], Reported(mode))
      invariant c.decisionsWithRelation == DecisionsWith(decisions[..k], Reported(mode))
    {
      hide PairsOf;
      assert decisions[..k + 1][..k] == decisions[..k];
      var pairs, passes := CountDecision(decisions[k], mode);
      c := Counts(c.orderedPairs + pairs, c.relations + passes, c.decisionsWithRelation + if passes > 0 then 1 else 0);
    }
    assert decisions[..|decisions|] == decisions;
  }

  method CountDecision(views: seq<View>, mode: Mode) returns (pairs: nat, passes: nat)
    ensures pairs == PairsOf(views, Different) && passes == PairsOf(views, Reported(mode))
  {
    var options := ModeOptions(views, mode);
    hide ModeOptions, Explain, Passes;
    pairs, passes := 0, 0;
    for i := 0 to |views|
      invariant pairs == Pairs(views, Different, i, |views|)
      invariant passes == Pairs(views, Reported(mode), i, |views|)
    {
      ghost var pairsBefore, passesBefore := pairs, passes;
      for j := 0 to |views|
        invariant pairs == pairsBefore + Row(views, Different, i, j)
        invariant passes == passesBefore + Row(views, Reported(mode), i, j)
      {
        if views[i].identity != views[j].identity {
          pairs := pairs + 1;
          var explanation := ChannelPairs(views[i].channels, views[j].channels, options);
          ExplanationMeaning(views[i].channels, views[j].channels, options);
          if explanation.passed {
            passes := passes + 1;
          }
        }
      }
    }
  }

  // -------------------------------------------- counting a square by corners

  ghost function Column(views: seq<View>, r: Relation, j: nat, n: nat): nat
    requires j < |views| && n <= |views|
  {
    if n == 0 then 0 else Column(views, r, j, n - 1) + One(Holds(views, r, n - 1, j))
  }

  lemma {:induction false} WiderByColumn(views: seq<View>, r: Relation, n: nat, m: nat)
    requires n <= |views| && m < |views|
    ensures Pairs(views, r, n, m + 1) == Pairs(views, r, n, m) + Column(views, r, m, n)
  {
    hide Holds;
    if n > 0 {
      WiderByColumn(views, r, n - 1, m);
    }
  }

  /** One direction at most is reported between two positions. */
  lemma OneDirection(views: seq<View>, mode: Mode, i: nat, j: nat)
    requires i < |views| && j < |views|
    ensures One(Holds(views, Reported(mode), i, j)) + One(Holds(views, Reported(mode), j, i)) <= One(Holds(views, Different, i, j))
    ensures Holds(views, Different, i, j) <==> Holds(views, Different, j, i)
  {}

  lemma {:induction false} CornerHalf(views: seq<View>, mode: Mode, k: nat, n: nat)
    requires k < |views| && n <= |views|
    ensures 2 * (Row(views, Reported(mode), k, n) + Column(views, Reported(mode), k, n))
         <= Row(views, Different, k, n) + Column(views, Different, k, n)
  {
    hide Holds;
    if n > 0 {
      CornerHalf(views, mode, k, n - 1);
      OneDirection(views, mode, k, n - 1);
    }
  }

  lemma {:induction false} SquareHalf(views: seq<View>, mode: Mode, n: nat)
    requires n <= |views|
    ensures 2 * Pairs(views, Reported(mode), n, n) <= Pairs(views, Different, n, n)
  {
    if n > 0 {
      var r := Reported(mode);
      SquareHalf(views, mode, n - 1);
      WiderByColumn(views, r, n - 1, n - 1);
      WiderByColumn(views, Different, n - 1, n - 1);
      CornerHalf(views, mode, n - 1, n - 1);
      assert !Holds(views, r, n - 1, n - 1) && !Holds(views, Different, n - 1, n - 1);
      hide Holds;
      assert Row(views, r, n - 1, n) == Row(views, r, n - 1, n - 1);
      assert Row(views, Different, n - 1, n) == Row(views, Different, n - 1, n - 1);
    }
  }

  /** In no mode and on no decisions does the relation rate exceed one half. */
  lemma {:induction false} RateAtMostHalf(decisions: seq<seq<View>>, mode: Mode)
    ensures 2 * Total(decisions, Reported(mode)) <= Total(decisions, Different)
  {
    if decisions != [] {
      RateAtMostHalf(decisions[..|decisions| - 1], mode);
      var last := decisions[|decisions| - 1];
      SquareHalf(last, mode, |last|);
    }
  }

  // ---------------------------------------------------- comparing the modes

  ghost predicate Within(views: seq<View>, r: Relation, wider: Relation) {
    forall i, j | 0 <= i < |views| && 0 <= j < |views| && Holds(views, r, i, j) :: Holds(views, wider, i, j)
  }

  lemma {:induction false} RowWithin(views: seq<View>, r: Relation, wider: Relation, i: nat, m: nat)
    requires Within(views, r, wider) && i < |views| && m <= |views|
    ensures Row(views, r, i, m) <= Row(views, wider, i, m)
  {
    if m > 0 {
      RowWithin(views, r, wider, i, m - 1);
    }
  }

  lemma {:induction false} PairsWithin(views: seq<View>, r: Relation, wider: Relation, n: nat)
    requires Within(views, r, wider) && n <= |views|
    ensures Pairs(views, r, n, |views|) <= Pairs(views, wider, n, |views|)
  {
    hide Within;
    if n > 0 {
      PairsWithin(views, r, wider, n - 1);
      RowWithin(views, r, wider, n - 1, |views|);
    }
  }

  lemma {:induction false} TotalWithin(decisions: seq<seq<View>>, r: Relation, wider: Relation)
    requires forall views | views in decisions :: Within(views, r, wider)
    ensures Total(decisions, r) <= Total(decisions, wider)
    ensures DecisionsWith(decisions, r) <= DecisionsWith(decisions, wider)
  {
    hide Within;
    if decisions != [] {
      TotalWithin(decisions[..|decisions| - 1], r, wider);
      var last := decisions[|decisions| - 1];
      PairsWithin(last, r, wider, |last|);
    }
  }

  /** Leaving unknown channels out of the block never reports fewer relations than production does. */
  lemma ExcludingUnknownReportsNoLess(decisions: seq<seq<View>>)
    ensures Total(decisions, Reported(FullChannels)) <= Total(decisions, Reported(ExcludeUnknown))
    ensures DecisionsWith(decisions, Reported(FullChannels)) <= DecisionsWith(decisions, Reported(ExcludeUnknown))
  {
    forall views: seq<View> | views in decisions ensures Within(views, Reported(FullChannels), Reported(ExcludeUnknown)) {
      hide Passes;
      forall i, j | 0 <= i < |views| && 0 <= j < |views| && Holds(views, Reported(FullChannels), i, j)
        ensures Holds(views, Reported(ExcludeUnknown), i, j)
      {
        DominanceOrder.IgnoringUnknownExtends(views[i].channels, views[j].channels, None);
      }
    }
    TotalWithin(decisions, Reported(FullChannels), Reported(ExcludeUnknown));
  }

  // ------------------------------------------------ when a mode reports nothing

  ghost predicate SomePair(views: seq<View>, r: Relation) {
    exists i, j | 0 <= i < |views| && 0 <= j < |views| :: Holds(views, r, i, j)
  }

  lemma {:induction false} RowPositive(views: seq<View>, r: Relation, i: nat, m: nat)
    requires i < |views| && m <= |views|
    ensures Row(views, r, i, m) > 0 <==> exists j | 0 <= j < m :: Holds(views, r, i, j)
  {
    hide Holds;
    if m > 0 {
      RowPositive(views, r, i, m - 1);
    }
  }

  lemma {:induction false} PairsPositive(views: seq<View>, r: Relation, n: nat)
    requires n <= |views|
    ensures Pairs(views, r, n, |views|) > 0 <==> exists i, j | 0 <= i < n && 0 <= j < |views| :: Holds(views, r, i, j)
  {
    hide Holds;
    if n > 0 {
      PairsPositive(views, r, n - 1);
      RowPositive(views, r, n - 1, |views|);
    }
  }

  /** A relation is counted exactly when it holds of some pair in some decision. */
  lemma {:induction false} TotalPositive(decisions: seq<seq<View>>, r: Relation)
    ensures Total(decisions, r) > 0 <==> exists views | views in decisions :: SomePair(views, r)
  {
    if decisions != [] {
      var rest, last := decisions[..|decisions| - 1], decisions[|decisions| - 1];
      assert decisions == rest + [last];
      TotalPositive(rest, r);
      PairsPositive(last, r, |last|);
      hide Holds;
      assert last in decisions;
    }
  }

  /** Two candidates of a decision that no channel separates one-sidedly, the first nowhere worse and somewhere better where a third is lacking. */
  ghost predicate Isolates(views: seq<View>, i: nat, j: nat)
    requires i < |views| && j < |views|
  {
    var a, b := views[i].channels, views[j].channels;
    && views[i].identity != views[j].identity
    && (forall key :: !Compare(a, b, key).OneSided?)
    && (forall key | LackedBySome(views, key) :: !Compare(a, b, key).Worse?)
    && (exists key :: LackedBySome(views, key) && Compare(a, b, key).Better?)
  }

  /** Over any decisions, the isolation mode counts nothing exactly when no pair of any decision is isolated like this. */
  lemma IsolationReportsNothingExactly(decisions: seq<seq<View>>)
    ensures Total(decisions, Reported(IsolateOneSided)) == 0 <==>
              forall views, i, j | views in decisions && 0 <= i < |views| && 0 <= j < |views| :: !Isolates(views, i, j)
  {
    var r := Reported(IsolateOneSided);
    TotalPositive(decisions, r);
    forall views: seq<View>, i, j | 0 <= i < |views| && 0 <= j < |views| ensures Holds(views, r, i, j) <==> Isolates(views, i, j) {
      IsolationReportsExactly(views, views[i], views[j]);
    }
    hide Holds, Isolates;
  }

  /** So it counts nothing over decisions between two candidates. */
  lemma IsolationOfPairsReportsNothing(decisions: seq<seq<View>>)
    requires forall views | views in decisions :: |views| <= 2
    ensures Total(decisions, Reported(IsolateOneSided)) == 0
  {
    IsolationReportsNothingExactly(decisions);
  }

  /** With a third candidate that lacks the channel it does report. */
  lemma IsolationOfThreeReports(x: string, y: string, z: string, key: string, more: real, less: real, term: real)
    requires x != y && more > less
    ensures var decision := [View(x, map[key := Supported(more)], term), View(y, map[key := Supported(less)], term), View(z, map[], term)];
            Total([decision], Reported(IsolateOneSided)) > 0
  {
    var decision := [View(x, map[key := Supported(more)], term), View(y, map[key := Supported(less)], term), View(z, map[], term)];
    assert decision[2] in decision && LackedBySome(decision, key);
    assert Compare(decision[0].channels, decision[1].channels, key).Better?;
    assert Isolates(decision, 0, 1);
    assert decision in [decision];
    IsolationReportsNothingExactly([decision]);
  }

  // --------------------------------------------- what the counters number

  ghost function RowPairs(views: seq<View>, r: Relation, i: nat, m: nat): set<(nat, nat)>
    requires i < |views| && m <= |views|
  {
    set j: nat | j < m && Holds(views, r, i, j) :: (i, j)
  }

  ghost function PairSet(views: seq<View>, r: Relation, n: nat): set<(nat, nat)>
    requires n <= |views|
  {
    set i: nat, j: nat | i < n && j < |views| && Holds(views, r, i, j) :: (i, j)
  }

  lemma {:induction false} RowNumbers(views: seq<View>, r: Relation, i: nat, m: nat)
    requires i < |views| && m <= |views|
    ensures Row(views, r, i, m) == |RowPairs(views, r, i, m)|
  {
    hide Holds;
    if m == 0 {
      assert RowPairs(views, r, i, 0) == {};
    } else {
      RowNumbers(views, r, i, m - 1);
      assert RowPairs(views, r, i, m) == RowPairs(views, r, i, m - 1) + if Holds(views, r, i, m - 1) then {(i, m - 1)} else {};
    }
  }

  /** The loop counts every pair of positions in the relation once. */
  lemma {:induction false} PairsNumber(views: seq<View>, r: Relation, n: nat)
    requires n <= |views|
    ensures Pairs(views, r, n, |views|) == |PairSet(views, r, n)|
  {
    hide Holds;
    if n == 0 {
      assert PairSet(views, r, 0) == {};
    } else {
      PairsNumber(views, r, n - 1);
      RowNumbers(views, r, n - 1, |views|);
      var before, row := PairSet(views, r, n - 1), RowPairs(views, r, n - 1, |views|);
      assert PairSet(views, r, n) == before + row && before !! row;
      assert |before + row| == |before| + |row|;
    }
  }

  ghost predicate DistinctNames(views: seq<View>) {
    forall i, j | 0 <= i < |views| && 0 <= j < |views| && views[i].identity == views[j].identity :: i == j
  }

  lemma {:induction false} RowOfAll(views: seq<View>, i: nat, m: nat)
    requires DistinctNames(views) && i < |views| && m <= |views|
    ensures Row(views, Different, i, m) == if i < m then m - 1 else m
  {
    if m > 0 {
      RowOfAll(views, i, m - 1);
    }
  }

  /** Among n candidates of different names there are n(n-1) ordered pairs. */
  lemma {:induction false} AllOrderedPairs(views: seq<View>, n: nat)
    requires DistinctNames(views) && n <= |views|
    ensures Pairs(views, Different, n, |views|) == n * (|views| - 1)
  {
    if n > 0 {
      AllOrderedPairs(views, n - 1);
      RowOfAll(views, n - 1, |views|);
      assert n * (|views| - 1) == (n - 1) * (|views| - 1) + (|views| - 1);
    }
  }
}
