/**
 The order theory of supported dominance: a strict partial order when UNKNOWN
 blocks, and exactly when it stays transitive once UNKNOWN is ignored.
 */
module DominanceOrder {
  import opened Dominance
  import opened Wrappers

  lemma Irreflexive(a: Channels, options: Options)
    ensures !Passes(a, a, options)
  {}

  lemma Asymmetric(a: Channels, b: Channels, options: Options)
    requires Passes(a, b, options)
    ensures !Passes(b, a, options)
  {}

  /** Transitivity although UNKNOWN and one-sided absence are not values. */
  lemma Transitive(a: Channels, b: Channels, c: Channels, only: Option<set<string>>)
    requires Passes(a, b, Options(only, false, false)) && Passes(b, c, Options(only, false, false))
    ensures Passes(a, c, Options(only, false, false))
  {}

  /** Ignoring UNKNOWN only adds relations on the same channels. */
  lemma IgnoringUnknownExtends(a: Channels, b: Channels, only: Option<set<string>>)
    requires Passes(a, b, Options(only, false, false))
    ensures Passes(a, b, Options(only, true, false))
  {}

  /** Removing channels keeps a relation exactly when a strictly better channel remains. */
  lemma RemovingChannels(a: Channels, b: Channels, kept: set<string>)
    requires Passes(a, b, PRODUCTION)
    ensures Passes(a, b, Options(Some(kept), false, false)) <==> exists key | key in kept :: Compare(a, b, key).Better?
  {}

  const IGNORING_UNKNOWN := Options(None, true, false)

  lemma CyclingViews(x: string, y: string, z: string) returns (a: Channels, b: Channels, c: Channels)
    requires x != y && y != z && x != z
    ensures Passes(a, b, IGNORING_UNKNOWN) && Passes(b, c, IGNORING_UNKNOWN) && Passes(c, a, IGNORING_UNKNOWN)
    ensures !Passes(a, c, IGNORING_UNKNOWN)
  {
    a := map[x := Supported(1.0), y := Unknown, z := Supported(0.0)];
    b := map[x := Supported(0.0), y := Supported(1.0), z := Unknown];
    c := map[x := Unknown, y := Supported(0.0), z := Supported(1.0)];
    assert Compare(a, b, x).Better? && Compare(b, c, y).Better? && Compare(c, a, z).Better?;
    assert Compare(a, c, z).Worse?;
  }

  /** With UNKNOWN ignored three views can eliminate each other in a circle, and none eliminates the other way. */
  lemma IgnoringUnknownCycle(x: string, y: string, z: string)
    requires x != y && y != z && x != z
    ensures exists a, b, c: Channels ::
              && Passes(a, b, IGNORING_UNKNOWN) && Passes(b, c, IGNORING_UNKNOWN) && Passes(c, a, IGNORING_UNKNOWN)
              && !Passes(a, c, IGNORING_UNKNOWN)
  {
    hide Passes;
    var a, b, c := CyclingViews(x, y, z);
  }

  /** The views of a pool that nobody in it eliminates under the mode. */
  ghost function SurvivorsIgnoringUnknown(pool: set<Channels>): set<Channels> {
    set v | v in pool && forall w | w in pool :: !Passes(w, v, IGNORING_UNKNOWN)
  }

  lemma CycleLeavesNobody(a: Channels, b: Channels, c: Channels)
    requires Passes(a, b, IGNORING_UNKNOWN) && Passes(b, c, IGNORING_UNKNOWN) && Passes(c, a, IGNORING_UNKNOWN)
    ensures SurvivorsIgnoringUnknown({a, b, c}) == {} && a != b && b != c && a != c
  {
    Irreflexive(a, IGNORING_UNKNOWN);
    Irreflexive(b, IGNORING_UNKNOWN);
    Irreflexive(c, IGNORING_UNKNOWN);
    hide Passes;
  }

  lemma ThreeMembers<T>(a: T, b: T, c: T)
    requires a != b && b != c && a != c
    ensures |{a, b, c}| == 3
  {}

  /** Over the three views of such a cycle the frontier is empty. */
  lemma IgnoringUnknownEmptiesFrontier(x: string, y: string, z: string)
    requires x != y && y != z && x != z
    ensures exists pool: set<Channels> :: |pool| == 3 && SurvivorsIgnoringUnknown(pool) == {}
  {
    hide Passes, SurvivorsIgnoringUnknown;
    var a, b, c := CyclingViews(x, y, z);
    CycleLeavesNobody(a, b, c);
    ThreeMembers(a, b, c);
  }

  // ------------------------------ when ignoring UNKNOWN is still transitive

  datatype Status = IsSupported | IsUnknown | IsInapplicable

  /** The statuses of a view without its orders; absent names are inapplicable. */
  type Pattern = map<string, Status>

  function StatusAt(pattern: Pattern, key: string): Status {
    if key in pattern then pattern[key] else IsInapplicable
  }

  predicate HasStatus(evidence: Evidence, status: Status) {
    match status
    case IsSupported => evidence.Supported?
    case IsUnknown => evidence.Unknown?
    case IsInapplicable => evidence.NotApplicable?
  }

  ghost predicate Follows(channels: Channels, pattern: Pattern) {
    forall key :: HasStatus(At(channels, key), StatusAt(pattern, key))
  }

  ghost predicate TransitiveForEveryOrder(p: Pattern, q: Pattern, r: Pattern) {
    forall a, b, c: Channels | Follows(a, p) && Follows(b, q) && Follows(c, r) ::
      Passes(a, b, IGNORING_UNKNOWN) && Passes(b, c, IGNORING_UNKNOWN) ==> Passes(a, c, IGNORING_UNKNOWN)
  }

  predicate Both(p: Pattern, q: Pattern, key: string) {
    StatusAt(p, key).IsSupported? && StatusAt(q, key).IsSupported?
  }

  ghost predicate SameApplicability(p: Pattern, q: Pattern) {
    forall key :: StatusAt(p, key).IsInapplicable? <==> StatusAt(q, key).IsInapplicable?
  }

  /** The chain a over b over c can arise at all: same applicability and a common supported channel per link. */
  ghost predicate ChainPossible(p: Pattern, q: Pattern, r: Pattern) {
    && SameApplicability(p, q) && SameApplicability(q, r)
    && (exists key :: Both(p, q, key)) && (exists key :: Both(q, r, key))
  }

  /** The middle view knows every channel the outer two know, and one link's knowledge lies inside the other outer view. */
  ghost predicate KnowledgeCovers(p: Pattern, q: Pattern, r: Pattern) {
    && (forall key | Both(p, r, key) :: StatusAt(q, key).IsSupported?)
    && ((forall key | Both(p, q, key) :: StatusAt(r, key).IsSupported?)
        || (forall key | Both(q, r, key) :: StatusAt(p, key).IsSupported?))
  }

  function Realise(pattern: Pattern, orders: map<string, real>): Channels {
    map key | key in pattern ::
      match pattern[key]
      case IsSupported => Supported(if key in orders then orders[key] else 0.0)
      case IsUnknown => Unknown
      case IsInapplicable => NotApplicable
  }

  /**
   Ignoring UNKNOWN is transitive for all orders exactly when the statuses make
   the chain impossible or make the known channels cover each other.
   */
  lemma IgnoringUnknownTransitiveExactly(p: Pattern, q: Pattern, r: Pattern)
    ensures TransitiveForEveryOrder(p, q, r) <==> (ChainPossible(p, q, r) ==> KnowledgeCovers(p, q, r))
  {
    if ChainPossible(p, q, r) ==> KnowledgeCovers(p, q, r) {
      forall a, b, c: Channels
        | Follows(a, p) && Follows(b, q) && Follows(c, r)
          && Passes(a, b, IGNORING_UNKNOWN) && Passes(b, c, IGNORING_UNKNOWN)
        ensures Passes(a, c, IGNORING_UNKNOWN)
      {
        CoveredChain(a, b, c, p, q, r);
      }
    } else {
      UncoveredChain(p, q, r);
    }
  }

  lemma LinkGivesChain(a: Channels, b: Channels, p: Pattern, q: Pattern)
    requires Follows(a, p) && Follows(b, q) && Passes(a, b, IGNORING_UNKNOWN)
    ensures SameApplicability(p, q)
    ensures exists key :: Both(p, q, key) && Compare(a, b, key).Better?
  {
    forall key ensures StatusAt(p, key).IsInapplicable? <==> StatusAt(q, key).IsInapplicable? {
      assert !Blocks(IGNORING_UNKNOWN, Compare(a, b, key));
    }
    var key :| Compare(a, b, key).Better?;
    assert Both(p, q, key);
  }

  /** One channel along a chain whose middle view knows what the outer views know. */
  lemma ChainAtKey(a: Channels, b: Channels, c: Channels, key: string)
    requires !Compare(a, b, key).Worse? && !Compare(a, b, key).OneSided?
    requires !Compare(b, c, key).Worse? && !Compare(b, c, key).OneSided?
    requires At(a, key).Supported? && At(c, key).Supported? ==> At(b, key).Supported?
    ensures !Compare(a, c, key).Worse? && !Compare(a, c, key).OneSided?
    ensures Compare(a, b, key).Better? && At(c, key).Supported? ==> Compare(a, c, key).Better?
    ensures Compare(b, c, key).Better? && At(a, key).Supported? ==> Compare(a, c, key).Better?
  {}

  lemma CoveredChain(a: Channels, b: Channels, c: Channels, p: Pattern, q: Pattern, r: Pattern)
    requires Follows(a, p) && Follows(b, q) && Follows(c, r)
    requires Passes(a, b, IGNORING_UNKNOWN) && Passes(b, c, IGNORING_UNKNOWN)
    requires ChainPossible(p, q, r) ==> KnowledgeCovers(p, q, r)
    ensures Passes(a, c, IGNORING_UNKNOWN)
  {
    LinkGivesChain(a, b, p, q);
    LinkGivesChain(b, c, q, r);
    assert KnowledgeCovers(p, q, r);
    forall key
      ensures !Compare(a, c, key).Worse? && !Blocks(IGNORING_UNKNOWN, Compare(a, c, key))
      ensures Compare(a, b, key).Better? && At(c, key).Supported? ==> Compare(a, c, key).Better?
      ensures Compare(b, c, key).Better? && At(a, key).Supported? ==> Compare(a, c, key).Better?
    {
      assert !Compare(a, b, key).Worse? && !Blocks(IGNORING_UNKNOWN, Compare(a, b, key));
      assert !Compare(b, c, key).Worse? && !Blocks(IGNORING_UNKNOWN, Compare(b, c, key));
      assert Both(p, r, key) ==> StatusAt(q, key).IsSupported?;
      assert HasStatus(At(a, key), StatusAt(p, key)) && HasStatus(At(b, key), StatusAt(q, key));
      assert HasStatus(At(c, key), StatusAt(r, key));
      ChainAtKey(a, b, c, key);
    }
    var x :| Both(p, q, x) && Compare(a, b, x).Better?;
    var y :| Both(q, r, y) && Compare(b, c, y).Better?;
    assert HasStatus(At(c, x), StatusAt(r, x)) && HasStatus(At(a, y), StatusAt(p, y));
    assert Compare(a, c, x).Better? || Compare(a, c, y).Better?;
  }

  lemma Realised(pattern: Pattern, orders: map<string, real>)
    ensures Follows(Realise(pattern, orders), pattern)
  {}

  /** Orders that break the chain whenever the statuses do not cover each other. */
  lemma UncoveredChain(p: Pattern, q: Pattern, r: Pattern)
    requires ChainPossible(p, q, r) && !KnowledgeCovers(p, q, r)
    ensures !TransitiveForEveryOrder(p, q, r)
  {
    var x, y;
    if forall key | Both(p, r, key) :: StatusAt(q, key).IsSupported? {
      x :| Both(p, q, x) && !StatusAt(r, x).IsSupported?;
      y :| Both(q, r, y) && !StatusAt(p, y).IsSupported?;
      Broken(p, q, r, map[x := 1.0], map[y := 1.0], map[], x, y);
    } else {
      var hidden :| Both(p, r, hidden) && !StatusAt(q, hidden).IsSupported?;
      x :| Both(p, q, x);
      y :| Both(q, r, y);
      // Even with x == y the two links hold, at orders 2, 1 and 0.
      var pOrders, qOrders, rOrders := map[x := 2.0, y := 2.0], map[x := 1.0, y := 1.0], map[hidden := 1.0];
      assert Compare(Realise(p, pOrders), Realise(r, rOrders), hidden).Worse?;
      Broken(p, q, r, pOrders, qOrders, rOrders, x, y);
    }
  }

  lemma Broken(
    p: Pattern, q: Pattern, r: Pattern,
    pOrders: map<string, real>, qOrders: map<string, real>, rOrders: map<string, real>, x: string, y: string)
    requires SameApplicability(p, q) && SameApplicability(q, r)
    requires Both(p, q, x) && Both(q, r, y)
    requires var a, b, c := Realise(p, pOrders), Realise(q, qOrders), Realise(r, rOrders);
             && Compare(a, b, x).Better? && Compare(b, c, y).Better?
             && (forall key :: !Compare(a, b, key).Worse? && !Compare(b, c, key).Worse?)
             && !Passes(a, c, IGNORING_UNKNOWN)
    ensures !TransitiveForEveryOrder(p, q, r)
  {
    var a, b, c := Realise(p, pOrders), Realise(q, qOrders), Realise(r, rOrders);
    Realised(p, pOrders);
    Realised(q, qOrders);
    Realised(r, rOrders);
    assert Passes(a, b, IGNORING_UNKNOWN) && Passes(b, c, IGNORING_UNKNOWN);
  }
}
