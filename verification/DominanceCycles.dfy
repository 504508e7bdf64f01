/**
 Cycles of eliminations when UNKNOWN is ignored: exactly which statuses allow
 one, for any number of candidates.
 */
module DominanceCycles {
  import opened Dominance
  import opened DominanceOrder

  function Next(i: nat, n: nat): (next: nat)
    requires i < n
    ensures next < n
  {
    if i + 1 < n then i + 1 else 0
  }

  /** Each view eliminates the next one, and the last the first. */
  ghost predicate Cycle(views: seq<Channels>) {
    |views| > 0 && forall i | 0 <= i < |views| :: Passes(views[i], views[Next(i, |views|)], IGNORING_UNKNOWN)
  }

  ghost predicate FollowAll(views: seq<Channels>, patterns: seq<Pattern>) {
    |views| == |patterns| && forall i | 0 <= i < |views| :: Follows(views[i], patterns[i])
  }

  /** Some orders turn these statuses into a cycle. */
  ghost predicate CanCycle(patterns: seq<Pattern>) {
    exists views :: FollowAll(views, patterns) && Cycle(views)
  }

  /** Some member of the cycle does not know the channel. */
  ghost predicate HiddenFrom(patterns: seq<Pattern>, key: string, m: nat) {
    m < |patterns| && !StatusAt(patterns[m], key).IsSupported?
  }

  ghost predicate Hidden(patterns: seq<Pattern>, key: string) {
    exists m :: HiddenFrom(patterns, key, m)
  }

  /** Neighbours have the same applicability, and share a known channel that some member does not know. */
  ghost predicate LinkPossible(patterns: seq<Pattern>, i: nat)
    requires i < |patterns|
  {
    var p, q := patterns[i], patterns[Next(i, |patterns|)];
    SameApplicability(p, q) && exists key :: Both(p, q, key) && Hidden(patterns, key)
  }

  // ------------------------------------------------------------ necessity

  /** Along the list the orders of a channel everybody knows never rise. */
  lemma {:induction false} NeverRises(views: seq<Channels>, patterns: seq<Pattern>, key: string, j: nat, k: nat)
    requires FollowAll(views, patterns) && Cycle(views) && !Hidden(patterns, key) && j <= k < |views|
    ensures At(views[j], key).Supported? && At(views[k], key).Supported?
    ensures At(views[j], key).order >= At(views[k], key).order
  {
    KnownAt(views, patterns, key, j);
    KnownAt(views, patterns, key, k);
    if j < k {
      NeverRises(views, patterns, key, j, k - 1);
      NotWorseAt(views, key, k - 1);
    }
  }

  lemma KnownAt(views: seq<Channels>, patterns: seq<Pattern>, key: string, j: nat)
    requires FollowAll(views, patterns) && !Hidden(patterns, key) && j < |views|
    ensures At(views[j], key).Supported?
  {
    assert !HiddenFrom(patterns, key, j);
    assert Follows(views[j], patterns[j]);
    assert HasStatus(At(views[j], key), StatusAt(patterns[j], key));
  }

  lemma NotWorseAt(views: seq<Channels>, key: string, i: nat)
    requires Cycle(views) && i < |views|
    ensures !Compare(views[i], views[Next(i, |views|)], key).Worse?
  {
    assert Passes(views[i], views[Next(i, |views|)], IGNORING_UNKNOWN);
  }

  /** A channel everybody knows is equal all the way round, so it improves no link. */
  lemma NothingGained(views: seq<Channels>, patterns: seq<Pattern>, key: string, i: nat)
    requires FollowAll(views, patterns) && Cycle(views) && !Hidden(patterns, key) && i < |views|
    ensures !Compare(views[i], views[Next(i, |views|)], key).Better?
  {
    var n := |views|;
    NeverRises(views, patterns, key, 0, i);
    NeverRises(views, patterns, key, Next(i, n), n - 1);
    NeverRises(views, patterns, key, 0, n - 1);
    NotWorseAt(views, key, n - 1);
  }

  lemma CycleNeedsLinks(views: seq<Channels>, patterns: seq<Pattern>, i: nat)
    requires FollowAll(views, patterns) && Cycle(views) && i < |views|
    ensures LinkPossible(patterns, i)
  {
    var next := Next(i, |views|);
    assert Follows(views[i], patterns[i]) && Follows(views[next], patterns[next]);
    LinkGivesChain(views[i], views[next], patterns[i], patterns[next]);
    var key :| Both(patterns[i], patterns[next], key) && Compare(views[i], views[next], key).Better?;
    hide Both, Compare;
    if !Hidden(patterns, key) {
      NothingGained(views, patterns, key, i);
    }
  }

  // ----------------------------------------------------------- sufficiency

  ghost function Gap(patterns: seq<Pattern>, key: string): (m: nat)
    requires Hidden(patterns, key)
    ensures HiddenFrom(patterns, key, m)
  {
    var m :| HiddenFrom(patterns, key, m);
    m
  }

  /** Steps round the cycle from the gap to member `i`. */
  function StepsFrom(gap: nat, i: nat, n: nat): nat
    requires gap < n && i < n
  {
    if i > gap then i - gap else i + n - gap
  }

  /** Orders fall from one member to the next, starting after the gap; a channel known to all is level. */
  ghost function OrderAt(patterns: seq<Pattern>, i: nat, key: string): real
    requires i < |patterns|
  {
    if Hidden(patterns, key) then (|patterns| - StepsFrom(Gap(patterns, key), i, |patterns|)) as real else 0.0
  }

  ghost function Orders(patterns: seq<Pattern>, i: nat): map<string, real>
    requires i < |patterns|
  {
    map key | key in patterns[i] :: OrderAt(patterns, i, key)
  }

  ghost function Arranged(patterns: seq<Pattern>): (views: seq<Channels>)
    ensures |views| == |patterns|
  {
    seq(|patterns|, i requires 0 <= i < |patterns| => Realise(patterns[i], Orders(patterns, i)))
  }

  lemma ArrangedFollows(patterns: seq<Pattern>)
    ensures FollowAll(Arranged(patterns), patterns)
  {
    forall i | 0 <= i < |patterns| ensures Follows(Arranged(patterns)[i], patterns[i]) {
      Realised(patterns[i], Orders(patterns, i));
    }
  }

  /** Between neighbours that both know a channel: better if some member does not know it, level otherwise. */
  lemma LinkAt(patterns: seq<Pattern>, i: nat, key: string)
    requires i < |patterns| && LinkPossible(patterns, i)
    ensures var a, b := Arranged(patterns)[i], Arranged(patterns)[Next(i, |patterns|)];
            && !Compare(a, b, key).Worse? && !Compare(a, b, key).OneSided?
            && (Both(patterns[i], patterns[Next(i, |patterns|)], key) && Hidden(patterns, key) ==> Compare(a, b, key).Better?)
  {
    var n, next := |patterns|, Next(i, |patterns|);
    var p, q := patterns[i], patterns[next];
    assert SameApplicability(p, q);
    assert StatusAt(p, key).IsInapplicable? <==> StatusAt(q, key).IsInapplicable?;
    if Both(p, q, key) {
      assert At(Arranged(patterns)[i], key) == Supported(OrderAt(patterns, i, key));
      assert At(Arranged(patterns)[next], key) == Supported(OrderAt(patterns, next, key));
      if Hidden(patterns, key) {
        var gap := Gap(patterns, key);
        assert gap != i && gap != next;
        assert StepsFrom(gap, next, n) == StepsFrom(gap, i, n) + 1;
      }
    }
  }

  lemma LinksGiveCycle(patterns: seq<Pattern>)
    requires |patterns| > 0 && forall i: nat | i < |patterns| :: LinkPossible(patterns, i)
    ensures Cycle(Arranged(patterns))
  {
    hide LinkPossible;
    forall i: nat | i < |patterns|
      ensures Passes(Arranged(patterns)[i], Arranged(patterns)[Next(i, |patterns|)], IGNORING_UNKNOWN)
    {
      LinkPasses(patterns, i);
    }
  }

  lemma LinkPasses(patterns: seq<Pattern>, i: nat)
    requires i < |patterns| && LinkPossible(patterns, i)
    ensures Passes(Arranged(patterns)[i], Arranged(patterns)[Next(i, |patterns|)], IGNORING_UNKNOWN)
  {
    var key :| Both(patterns[i], patterns[Next(i, |patterns|)], key) && Hidden(patterns, key);
    hide LinkPossible, Arranged, Hidden, Both, Compare;
    forall other {
      LinkAt(patterns, i, other);
    }
    LinkAt(patterns, i, key);
  }

  // ------------------------------------------------------------ the theorem

  /**
   A cyclic list of statuses of any length can be ordered into a cycle if and only
   if neighbours have the same applicability and every link has a channel known to
   both its ends and not to some member.
   */
  lemma CanCycleExactly(patterns: seq<Pattern>)
    requires patterns != []
    ensures CanCycle(patterns) <==> forall i: nat | i < |patterns| :: LinkPossible(patterns, i)
  {
    hide LinkPossible, Cycle, FollowAll;
    if CanCycle(patterns) {
      var views :| FollowAll(views, patterns) && Cycle(views);
      SameLength(views, patterns);
      forall i: nat | i < |patterns| ensures LinkPossible(patterns, i) {
        CycleNeedsLinks(views, patterns, i);
      }
    }
    if forall i: nat | i < |patterns| :: LinkPossible(patterns, i) {
      ArrangedFollows(patterns);
      LinksGiveCycle(patterns);
    }
  }

  lemma SameLength(views: seq<Channels>, patterns: seq<Pattern>)
    requires FollowAll(views, patterns)
    ensures |views| == |patterns|
  {}

  /** Nobody survives over the members of a cycle. */
  lemma CycleEmptiesFrontier(views: seq<Channels>)
    requires Cycle(views)
    ensures SurvivorsIgnoringUnknown(set v | v in views) == {}
  {
    hide Passes;
    var pool := set v | v in views;
    forall v | v in pool ensures v !in SurvivorsIgnoringUnknown(pool) {
      var i :| 0 <= i < |views| && views[i] == v;
      var before := if i > 0 then i - 1 else |views| - 1;
      assert Next(before, |views|) == i && views[before] in pool;
      assert Passes(views[before], views[Next(before, |views|)], IGNORING_UNKNOWN);
    }
  }
}
