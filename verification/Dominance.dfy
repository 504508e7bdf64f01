/**
 Supported dominance between candidate consequence views: the production
 relation, the offline single-pass reconstruction with its analysis modes, the
 prefix-projected relation and the literal four-drive relation.
 */
module Dominance {
  import opened TextOrder
  import opened Wrappers

  /** One ordinal value inside one channel; orders are exact reals here. */
  datatype Evidence = Supported(order: real) | Unknown | NotApplicable

  type Channels = map<string, Evidence>

  datatype Comparison = BothInapplicable | OneSided | Unsupported | Worse | Better | Equal

  /** The analysis options of `channel_pairs`; the default ones are the production relation. */
  datatype Options = Options(only: Option<set<string>>, ignoreUnknown: bool, ignoreOneSided: bool)

  const PRODUCTION := Options(None, false, false)

  datatype Reason = WorseInSupportedChannel | UnknownOrInapplicableBlocks | NoStrictImprovement | StrictlyBetterNowhereWorse

  datatype Blocker = Blocker(reason: Reason, channels: seq<string>)

  datatype Category = WorseCategory | UnknownBlock | OneSidedBlock | NoStrictSupportedImprovement | MultipleBlockers

  datatype Explanation = Explanation(
    strict: seq<string>,
    productionStrict: seq<string>,
    worse: seq<string>,
    unknown: seq<string>,
    oneSided: seq<string>,
    categories: seq<Category>,
    classification: Category,
    first: Blocker,
    passed: bool)

  datatype Attempt = Attempt(passed: bool, reason: Reason, strict: seq<string>, blocking: seq<string>)

  // ---------------------------------------------------------------- meaning

  function At(channels: Channels, key: string): Evidence {
    if key in channels then channels[key] else NotApplicable
  }

  function Compare(a: Channels, b: Channels, key: string): Comparison {
    var av, bv := At(a, key), At(b, key);
    if av.NotApplicable? && bv.NotApplicable? then BothInapplicable
    else if av.NotApplicable? || bv.NotApplicable? then OneSided
    else if !av.Supported? || !bv.Supported? then Unsupported
    else if av.order < bv.order then Worse
    else if av.order > bv.order then Better
    else Equal
  }

  predicate Allowed(options: Options, key: string) {
    options.only.None? || key in options.only.value
  }

  function Scope(a: Channels, b: Channels, options: Options): set<string> {
    set key | key in a.Keys + b.Keys && Allowed(options, key)
  }

  predicate Blocks(options: Options, comparison: Comparison) {
    (comparison.OneSided? && !options.ignoreOneSided) || (comparison.Unsupported? && !options.ignoreUnknown)
  }

  /** What it means for `a` to eliminate `b`: quantified over all channel names, in no order. */
  ghost predicate Passes(a: Channels, b: Channels, options: Options) {
    && (forall key | Allowed(options, key) :: !Compare(a, b, key).Worse? && !Blocks(options, Compare(a, b, key)))
    && (exists key :: Allowed(options, key) && Compare(a, b, key).Better?)
  }

  /** What a pass collects: the keys with one comparison, or the keys that block elimination. */
  datatype Kind = Only(comparison: Comparison) | Blocking(options: Options)

  predicate Has(kind: Kind, comparison: Comparison) {
    match kind
    case Only(wanted) => comparison == wanted
    case Blocking(options) => Blocks(options, comparison)
  }

  /** The keys of a kind, in listing order. */
  function Pick(keys: seq<string>, a: Channels, b: Channels, kind: Kind): seq<string> {
    if keys == [] then []
    else
      var rest := Pick(keys[..|keys| - 1], a, b, kind);
      var last := keys[|keys| - 1];
      if Has(kind, Compare(a, b, last)) then rest + [last] else rest
  }

  lemma {:induction false} PickMembers(keys: seq<string>, a: Channels, b: Channels, kind: Kind)
    ensures forall key :: key in Pick(keys, a, b, kind) <==> key in keys && Has(kind, Compare(a, b, key))
  {
    if keys != [] {
      PickMembers(keys[..|keys| - 1], a, b, kind);
      assert keys == keys[..|keys| - 1] + [keys[|keys| - 1]];
    }
  }

  /** The position of the first worse key, or the length when there is none. */
  function FirstWorse(keys: seq<string>, a: Channels, b: Channels): (first: nat)
    ensures first <= |keys|
    ensures forall i | 0 <= i < first :: !Compare(a, b, keys[i]).Worse?
    ensures first < |keys| ==> Compare(a, b, keys[first]).Worse?
  {
    if keys == [] then 0
    else if Compare(a, b, keys[0]).Worse? then 0
    else
      var rest := FirstWorse(keys[1..], a, b);
      assert forall i | 1 <= i < rest + 1 :: keys[i] == keys[1..][i - 1];
      rest + 1
  }

  /** The verdict in priority order: first worse key, then every blocked key, then strictness. */
  function FirstBlocker(keys: seq<string>, a: Channels, b: Channels, options: Options): Blocker {
    var w := FirstWorse(keys, a, b);
    var blocked := Pick(keys, a, b, Blocking(options));
    var strict := Pick(keys, a, b, Only(Better));
    if w < |keys| then Blocker(WorseInSupportedChannel, [keys[w]])
    else if blocked != [] then Blocker(UnknownOrInapplicableBlocks, blocked)
    else if strict == [] then Blocker(NoStrictImprovement, [])
    else Blocker(StrictlyBetterNowhereWorse, strict)
  }

  function Categories(worse: seq<string>, unknown: seq<string>, oneSided: seq<string>, strict: seq<string>): seq<Category> {
    var found :=
      (if worse != [] then [WorseCategory] else [])
      + (if unknown != [] then [UnknownBlock] else [])
      + (if oneSided != [] then [OneSidedBlock] else []);
    if found == [] && strict == [] then [NoStrictSupportedImprovement] else found
  }

  ghost function Explain(a: Channels, b: Channels, options: Options): Explanation {
    var keys := Sorted(Scope(a, b, options));
    var strict, worse := Pick(keys, a, b, Only(Better)), Pick(keys, a, b, Only(Worse));
    var unknown, oneSided := Pick(keys, a, b, Only(Unsupported)), Pick(keys, a, b, Only(OneSided));
    var categories := Categories(worse, unknown, oneSided, strict);
    var first := FirstBlocker(keys, a, b, options);
    Explanation(
      strict, Pick(keys[..FirstWorse(keys, a, b)], a, b, Only(Better)), worse, unknown, oneSided, categories,
      if |categories| == 1 then categories[0] else MultipleBlockers,
      first, first.reason.StrictlyBetterNowhereWorse?)
  }

  /** The production attempt record for an ordered pair. */
  ghost function AttemptOf(a: Channels, b: Channels): Attempt {
    AttemptIn(Sorted(Scope(a, b, PRODUCTION)), a, b)
  }

  function AttemptIn(keys: seq<string>, a: Channels, b: Channels): Attempt {
    var first := FirstBlocker(keys, a, b, PRODUCTION);
    Attempt(
      first.reason.StrictlyBetterNowhereWorse?, first.reason,
      Pick(keys[..FirstWorse(keys, a, b)], a, b, Only(Better)),
      if first.reason.StrictlyBetterNowhereWorse? then [] else first.channels)
  }

  lemma PickStep(keys: seq<string>, n: nat, a: Channels, b: Channels)
    requires n < |keys|
    ensures forall kind :: Pick(keys[..n + 1], a, b, kind)
                        == Pick(keys[..n], a, b, kind) + if Has(kind, Compare(a, b, keys[n])) then [keys[n]] else []
  {
    assert keys[..n + 1][..n] == keys[..n];
  }

  lemma FirstWorseIs(keys: seq<string>, n: nat, a: Channels, b: Channels)
    requires n < |keys| && Compare(a, b, keys[n]).Worse?
    requires forall i | 0 <= i < n :: !Compare(a, b, keys[i]).Worse?
    ensures FirstWorse(keys, a, b) == n
  {}

  // ------------------------------------------------------- the three passes

  /** What the offline pass has collected so far. */
  datatype Scan = Scan(
    strict: seq<string>,
    worse: seq<string>,
    unknown: seq<string>,
    oneSided: seq<string>,
    blocked: seq<string>,
    productionStrict: seq<string>,
    first: Option<Blocker>)

  ghost predicate Scanned(keys: seq<string>, n: nat, a: Channels, b: Channels, options: Options, scan: Scan)
    requires n <= |keys|
  {
    && scan.strict == Pick(keys[..n], a, b, Only(Better))
    && scan.worse == Pick(keys[..n], a, b, Only(Worse))
    && scan.unknown == Pick(keys[..n], a, b, Only(Unsupported))
    && scan.oneSided == Pick(keys[..n], a, b, Only(OneSided))
    && scan.blocked == Pick(keys[..n], a, b, Blocking(options))
    && var w := FirstWorse(keys, a, b);
       if w < n
       then scan.first == Some(Blocker(WorseInSupportedChannel, [keys[w]]))
            && scan.productionStrict == Pick(keys[..w], a, b, Only(Better))
       else scan.first == None && scan.productionStrict == scan.strict
  }

  ghost predicate ScannedAll(keys: seq<string>, a: Channels, b: Channels, options: Options, scan: Scan) {
    var w := FirstWorse(keys, a, b);
    && scan.strict == Pick(keys, a, b, Only(Better))
    && scan.worse == Pick(keys, a, b, Only(Worse))
    && scan.unknown == Pick(keys, a, b, Only(Unsupported))
    && scan.oneSided == Pick(keys, a, b, Only(OneSided))
    && scan.blocked == Pick(keys, a, b, Blocking(options))
    && scan.productionStrict == Pick(keys[..w], a, b, Only(Better))
    && scan.first == if w < |keys| then Some(Blocker(WorseInSupportedChannel, [keys[w]])) else None
  }

  /** The loop over the sorted keys with its first-blocker bookkeeping. */
  method ScanKeys(keys: seq<string>, a: Channels, b: Channels, options: Options) returns (scan: Scan)
    ensures ScannedAll(keys, a, b, options, scan)
  {
    var strict: seq<string>, worse: seq<string>, unknown: seq<string>, oneSided: seq<string> := [], [], [], [];
    var blocked: seq<string>, productionStrict: seq<string> := [], [];
    var first: Option<Blocker> := None;
    var i := 0;
    while i < |keys|
      invariant 0 <= i <= |keys|
      invariant Scanned(keys, i, a, b, options, Scan(strict, worse, unknown, oneSided, blocked, productionStrict, first))
    {
      var key := keys[i];
      PickStep(keys, i, a, b);
      match Compare(a, b, key) {
        case BothInapplicable =>
        case OneSided =>
          oneSided := oneSided + [key];
          if !options.ignoreOneSided {
            blocked := blocked + [key];
          }
        case Unsupported =>
          unknown := unknown + [key];
          if !options.ignoreUnknown {
            blocked := blocked + [key];
          }
        case Worse =>
          worse := worse + [key];
          if first.None? {
            FirstWorseIs(keys, i, a, b);
            first := Some(Blocker(WorseInSupportedChannel, [key]));
          }
        case Better =>
          strict := strict + [key];
          if first.None? {
            productionStrict := productionStrict + [key];
          }
        case Equal =>
      }
      i := i + 1;
    }
    assert keys[..|keys|] == keys;
    scan := Scan(strict, worse, unknown, oneSided, blocked, productionStrict, first);
  }

  /** The offline reconstruction of one ordered pair. */
  method ChannelPairs(a: Channels, b: Channels, options: Options) returns (explanation: Explanation)
    ensures explanation == Explain(a, b, options)
  {
    var keys := SortNames(Scope(a, b, options));
    var scan := ScanKeys(keys, a, b, options);
    var first :=
      if scan.first.Some? then scan.first.value
      else if scan.blocked != [] then Blocker(UnknownOrInapplicableBlocks, scan.blocked)
      else if scan.productionStrict == [] then Blocker(NoStrictImprovement, [])
      else Blocker(StrictlyBetterNowhereWorse, scan.productionStrict);
    assert keys[..|keys|] == keys;
    assert first == FirstBlocker(keys, a, b, options);
    var categories := CategoriesOf(scan);
    var classification := if |categories| == 1 then categories[0] else MultipleBlockers;
    explanation := Explanation(
      scan.strict, scan.productionStrict, scan.worse, scan.unknown, scan.oneSided,
      categories, classification, first, first.reason.StrictlyBetterNowhereWorse?);
  }

  function Rank(category: Category): nat {
    match category
    case WorseCategory => 0
    case UnknownBlock => 1
    case OneSidedBlock => 2
    case NoStrictSupportedImprovement => 3
    case MultipleBlockers => 4
  }

  /** Each kind of blocker that occurs is listed once, in a fixed order; no improvement only when nothing else is found. */
  method CategoriesOf(scan: Scan) returns (categories: seq<Category>)
    ensures WorseCategory in categories <==> scan.worse != []
    ensures UnknownBlock in categories <==> scan.unknown != []
    ensures OneSidedBlock in categories <==> scan.oneSided != []
    ensures NoStrictSupportedImprovement in categories
       <==> scan.worse == [] && scan.unknown == [] && scan.oneSided == [] && scan.strict == []
    ensures MultipleBlockers !in categories
    ensures forall i, j | 0 <= i < j < |categories| :: Rank(categories[i]) < Rank(categories[j])
    ensures categories == Categories(scan.worse, scan.unknown, scan.oneSided, scan.strict)
  {
    categories := [];
    if scan.worse != [] {
      categories := categories + [WorseCategory];
    }
    if scan.unknown != [] {
      categories := categories + [UnknownBlock];
    }
    if scan.oneSided != [] {
      categories := categories + [OneSidedBlock];
    }
    if categories == [] && scan.strict == [] {
      categories := categories + [NoStrictSupportedImprovement];
    }
  }

  /** The production relation, which returns from the loop at the first worse key. */
  method SupportedDominance(a: Channels, b: Channels) returns (attempt: Attempt)
    ensures attempt == AttemptOf(a, b)
  {
    var keys := SortNames(Scope(a, b, PRODUCTION));
    attempt := AttemptOver(keys, a, b);
  }

  method AttemptOver(keys: seq<string>, a: Channels, b: Channels) returns (attempt: Attempt)
    ensures attempt == AttemptIn(keys, a, b)
  {
    var strict: seq<string>, blocked: seq<string> := [], [];
    assert keys[..0] == [];
    assert forall kind :: Pick([], a, b, kind) == [];
    hide Pick, FirstWorse;
    var i := 0;
    while i < |keys|
      invariant 0 <= i <= |keys|
      invariant strict == Pick(keys[..i], a, b, Only(Better))
      invariant blocked == Pick(keys[..i], a, b, Blocking(PRODUCTION))
      invariant i <= FirstWorse(keys, a, b)
    {
      var key := keys[i];
      PickStep(keys, i, a, b);
      match Compare(a, b, key) {
        case BothInapplicable =>
        case OneSided => blocked := blocked + [key];
        case Unsupported => blocked := blocked + [key];
        case Worse =>
          FirstWorseIs(keys, i, a, b);
          return Attempt(false, WorseInSupportedChannel, strict, [key]);
        case Better => strict := strict + [key];
        case Equal =>
      }
      i := i + 1;
    }
    assert keys[..|keys|] == keys;
    if blocked != [] {
      return Attempt(false, UnknownOrInapplicableBlocks, strict, blocked);
    }
    if strict == [] {
      return Attempt(false, NoStrictImprovement, [], []);
    }
    return Attempt(true, StrictlyBetterNowhereWorse, strict, []);
  }

  predicate StartsWithAny(key: string, prefixes: seq<string>) {
    exists i | 0 <= i < |prefixes| :: prefixes[i] <= key
  }

  function PrefixScope(a: Channels, b: Channels, prefixes: seq<string>): set<string> {
    set key | key in a.Keys + b.Keys && StartsWithAny(key, prefixes)
  }

  datatype PrefixRelation = PrefixRelation(
    passed: bool, keys: seq<string>, strict: seq<string>, blockers: seq<string>, worse: seq<string>)

  /** The projection of the relation to the channels under the allowed prefixes. */
  function PrefixOptions(a: Channels, b: Channels, prefixes: seq<string>): Options {
    Options(Some(PrefixScope(a, b, prefixes)), false, false)
  }

  method PairRelation(a: Channels, b: Channels, prefixes: seq<string>) returns (relation: PrefixRelation)
    ensures relation.keys == Sorted(PrefixScope(a, b, prefixes))
    ensures relation.strict == Pick(relation.keys, a, b, Only(Better))
    ensures relation.worse == Pick(relation.keys, a, b, Only(Worse))
    ensures relation.blockers == Pick(relation.keys, a, b, Blocking(PRODUCTION))
    ensures relation.passed <==> Passes(a, b, PrefixOptions(a, b, prefixes))
  {
    var keys := SortNames(PrefixScope(a, b, prefixes));
    var strict: seq<string>, blockers: seq<string>, worse: seq<string> := [], [], [];
    var i := 0;
    while i < |keys|
      invariant 0 <= i <= |keys|
      invariant strict == Pick(keys[..i], a, b, Only(Better))
      invariant worse == Pick(keys[..i], a, b, Only(Worse))
      invariant blockers == Pick(keys[..i], a, b, Blocking(PRODUCTION))
    {
      var key := keys[i];
      PickStep(keys, i, a, b);
      match Compare(a, b, key) {
        case BothInapplicable =>
        case OneSided => blockers := blockers + [key];
        case Unsupported => blockers := blockers + [key];
        case Worse => worse := worse + [key];
        case Better => strict := strict + [key];
        case Equal =>
      }
      i := i + 1;
    }
    assert keys[..|keys|] == keys;
    relation := PrefixRelation(keys != [] && blockers == [] && worse == [] && strict != [], keys, strict, blockers, worse);
    assert Scope(a, b, PrefixOptions(a, b, prefixes)) == PrefixScope(a, b, prefixes);
    PassesByPicks(keys, a, b, PrefixOptions(a, b, prefixes), Blocking(PRODUCTION));
  }

  // ------------------------------------------------------------- agreement

  lemma Emptiness(keys: seq<string>, a: Channels, b: Channels, options: Options, kind: Kind)
    requires forall key :: key in keys <==> key in Scope(a, b, options)
    requires !Has(kind, BothInapplicable)
    ensures Pick(keys, a, b, kind) == [] <==> forall key | Allowed(options, key) :: !Has(kind, Compare(a, b, key))
  {
    PickMembers(keys, a, b, kind);
    var picked := Pick(keys, a, b, kind);
    if picked != [] {
      assert picked[0] in picked;
    }
    forall key | Allowed(options, key) && key !in keys ensures Compare(a, b, key).BothInapplicable? {
      assert key !in Scope(a, b, options);
    }
  }

  lemma PassesByPicks(keys: seq<string>, a: Channels, b: Channels, options: Options, blocking: Kind)
    requires forall key :: key in keys <==> key in Scope(a, b, options)
    requires forall comparison :: Has(blocking, comparison) <==> Blocks(options, comparison)
    ensures Passes(a, b, options) <==>
              && Pick(keys, a, b, Only(Worse)) == []
              && Pick(keys, a, b, blocking) == []
              && Pick(keys, a, b, Only(Better)) != []
  {
    Emptiness(keys, a, b, options, Only(Worse));
    Emptiness(keys, a, b, options, blocking);
    Emptiness(keys, a, b, options, Only(Better));
  }

  lemma NoWorseByFirst(keys: seq<string>, a: Channels, b: Channels)
    ensures FirstWorse(keys, a, b) == |keys| <==> Pick(keys, a, b, Only(Worse)) == []
  {
    PickMembers(keys, a, b, Only(Worse));
    var w, picked := FirstWorse(keys, a, b), Pick(keys, a, b, Only(Worse));
    if w < |keys| {
      assert keys[w] in picked;
    }
    if picked != [] {
      assert picked[0] in picked;
    }
  }

  /** The single pass decides exactly the order-free relation, for every combination of modes. */
  lemma ExplanationMeaning(a: Channels, b: Channels, options: Options)
    ensures Explain(a, b, options).passed <==> Passes(a, b, options)
  {
    var keys := Sorted(Scope(a, b, options));
    PassesByPicks(keys, a, b, options, Blocking(options));
    NoWorseByFirst(keys, a, b);
  }

  /** The record the offline tool compares with the retained production attempt. */
  function Reconstructed(explanation: Explanation): Attempt {
    Attempt(explanation.passed, explanation.first.reason, explanation.productionStrict, explanation.first.channels)
  }

  /**
   The reconstruction equals the production attempt on every pair that does not
   pass, and on no pair that does: for a passing pair the tool reports the strict
   channels again as blocking channels, where production reports none.
   */
  lemma ReconstructionMatchesExactlyWhenNotPassed(a: Channels, b: Channels)
    ensures Reconstructed(Explain(a, b, PRODUCTION)) == AttemptOf(a, b) <==> !Passes(a, b, PRODUCTION)
    ensures AttemptOf(a, b).passed <==> Passes(a, b, PRODUCTION)
    ensures Passes(a, b, PRODUCTION) ==>
              Reconstructed(Explain(a, b, PRODUCTION)).(blocking := []) == AttemptOf(a, b)
              && Reconstructed(Explain(a, b, PRODUCTION)).blocking == AttemptOf(a, b).strict != []
  {
    ExplanationMeaning(a, b, PRODUCTION);
    var keys := Sorted(Scope(a, b, PRODUCTION));
    NoWorseByFirst(keys, a, b);
    assert keys[..|keys|] == keys;
  }

  /**
   The classification column: a pair is labelled as having multiple blockers
   exactly when two kinds of blocker occur or when it passes with none at all.
   */
  lemma ClassificationMeaning(a: Channels, b: Channels)
    ensures var e := Explain(a, b, PRODUCTION);
            var kinds := (if e.worse != [] then 1 else 0) + (if e.unknown != [] then 1 else 0) + (if e.oneSided != [] then 1 else 0);
            e.classification.MultipleBlockers? <==> kinds >= 2 || Passes(a, b, PRODUCTION)
  {
    PassingIsUncategorised(a, b);
  }

  lemma PassingIsUncategorised(a: Channels, b: Channels)
    ensures Passes(a, b, PRODUCTION) <==> Explain(a, b, PRODUCTION).categories == []
    ensures Passes(a, b, PRODUCTION) ==> Explain(a, b, PRODUCTION).classification == MultipleBlockers
  {
    var keys := Sorted(Scope(a, b, PRODUCTION));
    BlockedByEither(keys, a, b);
    PassesByPicks(keys, a, b, PRODUCTION, Blocking(PRODUCTION));
  }

  /** On one supported channel a better candidate passes, and the reconstruction and the label go wrong. */
  lemma PassingPairIsMisreported(key: string, x: real, y: real)
    requires x > y
    ensures var a: Channels, b: Channels := map[key := Supported(x)], map[key := Supported(y)];
            && Passes(a, b, PRODUCTION)
            && Reconstructed(Explain(a, b, PRODUCTION)) != AttemptOf(a, b)
            && Explain(a, b, PRODUCTION).classification == MultipleBlockers
  {
    var a: Channels, b: Channels := map[key := Supported(x)], map[key := Supported(y)];
    assert Compare(a, b, key).Better?;
    ReconstructionMatchesExactlyWhenNotPassed(a, b);
    PassingIsUncategorised(a, b);
  }

  lemma BlockedByEither(keys: seq<string>, a: Channels, b: Channels)
    ensures Pick(keys, a, b, Blocking(PRODUCTION)) == [] <==>
              Pick(keys, a, b, Only(OneSided)) == [] && Pick(keys, a, b, Only(Unsupported)) == []
  {}

  /** The reason column in words: each reason holds exactly under its declarative condition. */
  lemma ReasonMeaning(a: Channels, b: Channels, options: Options)
    ensures var reason := Explain(a, b, options).first.reason;
            var worse := exists key :: Allowed(options, key) && Compare(a, b, key).Worse?;
            var blocked := exists key :: Allowed(options, key) && Blocks(options, Compare(a, b, key));
            var better := exists key :: Allowed(options, key) && Compare(a, b, key).Better?;
            && (reason.WorseInSupportedChannel? <==> worse)
            && (reason.UnknownOrInapplicableBlocks? <==> !worse && blocked)
            && (reason.NoStrictImprovement? <==> !worse && !blocked && !better)
            && (reason.StrictlyBetterNowhereWorse? <==> !worse && !blocked && better)
  {
    var keys := Sorted(Scope(a, b, options));
    Emptiness(keys, a, b, options, Only(Worse));
    Emptiness(keys, a, b, options, Only(Better));
    Emptiness(keys, a, b, options, Blocking(options));
    NoWorseByFirst(keys, a, b);
  }

  /**
   The named channels: with a worse channel the least worse name is reported and
   the production strict list holds exactly the strict names before it; otherwise
   every blocking channel is reported and the production strict list is complete.
   */
  lemma ReportedChannelsMeaning(a: Channels, b: Channels, options: Options)
    ensures var e := Explain(a, b, options);
            if e.worse != []
            then |e.first.channels| == 1 && var w := e.first.channels[0];
                 && w in e.worse
                 && (forall other | other in e.worse :: Le(w, other))
                 && (forall key :: key in e.productionStrict <==> key in e.strict && Lt(key, w))
            else e.productionStrict == e.strict
                 && (e.first.reason.UnknownOrInapplicableBlocks? ==>
                       forall key :: key in e.first.channels <==> Allowed(options, key) && Blocks(options, Compare(a, b, key)))
  {
    var keys := Sorted(Scope(a, b, options));
    NoWorseByFirst(keys, a, b);
    if FirstWorse(keys, a, b) < |keys| {
      FirstWorseIsLeast(keys, a, b);
    } else {
      assert keys[..|keys|] == keys;
      PickMembers(keys, a, b, Blocking(options));
      forall key | Allowed(options, key) && key !in keys ensures !Blocks(options, Compare(a, b, key)) {
        assert key !in Scope(a, b, options);
      }
    }
  }

  lemma FirstWorseIsLeast(keys: seq<string>, a: Channels, b: Channels)
    requires StrictlySorted(keys) && FirstWorse(keys, a, b) < |keys|
    ensures var w := FirstWorse(keys, a, b);
            && keys[w] in Pick(keys, a, b, Only(Worse))
            && (forall other | other in Pick(keys, a, b, Only(Worse)) :: Le(keys[w], other))
            && (forall key :: key in Pick(keys[..w], a, b, Only(Better)) <==> key in Pick(keys, a, b, Only(Better)) && Lt(key, keys[w]))
  {
    var w := FirstWorse(keys, a, b);
    PickMembers(keys, a, b, Only(Worse));
    PickMembers(keys, a, b, Only(Better));
    PickMembers(keys[..w], a, b, Only(Better));
    LeTotal(keys[w], keys[w]);
    forall other | other in Pick(keys, a, b, Only(Worse)) ensures Le(keys[w], other) {
      var j :| 0 <= j < |keys| && keys[j] == other;
      assert j >= w;
    }
    forall key ensures key in keys[..w] <==> key in keys && Lt(key, keys[w]) {
      if key in keys && Lt(key, keys[w]) {
        var j :| 0 <= j < |keys| && keys[j] == key;
        if j > w {
          LeAntisymmetric(key, keys[w]);
        }
      }
    }
  }

  /** The prefix projection is the single pass restricted to the prefixed channels. */
  lemma PrefixRelationIsRestrictedPass(a: Channels, b: Channels, prefixes: seq<string>, chosen: set<string>)
    requires forall key | key in a.Keys + b.Keys :: key in chosen <==> StartsWithAny(key, prefixes)
    ensures Passes(a, b, PrefixOptions(a, b, prefixes)) <==> Passes(a, b, Options(Some(chosen), false, false))
    ensures Passes(a, b, PrefixOptions(a, b, prefixes)) <==> Explain(a, b, Options(Some(chosen), false, false)).passed
  {
    ExplanationMeaning(a, b, Options(Some(chosen), false, false));
    ExplanationMeaning(a, b, PrefixOptions(a, b, prefixes));
    assert Scope(a, b, Options(Some(chosen), false, false)) == Scope(a, b, PrefixOptions(a, b, prefixes));
  }

  const DRIVES := ["energy", "fatigue", "integrity", "stimulation"]

  type Levels = seq<Option<int>>

  /** The literal-matrix relation; `zip` stops at the shorter list. */
  predicate LevelsDominate(a: Levels, b: Levels) {
    var n := if |a| < |b| then |a| else |b|;
    && (forall i | 0 <= i < |a| :: a[i].Some?)
    && (forall i | 0 <= i < |b| :: b[i].Some?)
    && (forall i | 0 <= i < n :: a[i].value >= b[i].value)
    && (exists i | 0 <= i < n :: a[i].value > b[i].value)
  }

  function LevelEvidence(level: Option<int>): Evidence {
    if level.Some? then Supported(level.value as real) else Unknown
  }

  ghost function DriveIndex(key: string): (i: nat)
    requires key in DRIVES
    ensures i < |DRIVES| && DRIVES[i] == key
  {
    var i :| 0 <= i < |DRIVES| && DRIVES[i] == key;
    i
  }

  ghost function LevelChannels(levels: Levels): Channels
    requires |levels| == |DRIVES|
  {
    map key | key in DRIVES :: LevelEvidence(levels[DriveIndex(key)])
  }

  function CompareLevels(a: Option<int>, b: Option<int>): Comparison {
    if a.None? || b.None? then Unsupported
    else if a.value < b.value then Worse
    else if a.value > b.value then Better
    else Equal
  }

  lemma LevelComparisons(a: Levels, b: Levels)
    requires |a| == |b| == |DRIVES|
    ensures forall i | 0 <= i < |DRIVES| :: Compare(LevelChannels(a), LevelChannels(b), DRIVES[i]) == CompareLevels(a[i], b[i])
    ensures forall key | key !in DRIVES :: Compare(LevelChannels(a), LevelChannels(b), key).BothInapplicable?
  {}

  lemma PassesByDrives(ca: Channels, cb: Channels, a: Levels, b: Levels)
    requires |a| == |b| == |DRIVES|
    requires forall i | 0 <= i < |DRIVES| :: Compare(ca, cb, DRIVES[i]) == CompareLevels(a[i], b[i])
    requires forall key | key !in DRIVES :: Compare(ca, cb, key).BothInapplicable?
    ensures Passes(ca, cb, PRODUCTION) <==> LevelsDominate(a, b)
  {}

  /** On four-drive rows the literal relation is the production relation with a missing level as UNKNOWN. */
  lemma LevelsAgree(a: Levels, b: Levels)
    requires |a| == |b| == |DRIVES|
    ensures LevelsDominate(a, b) <==> Passes(LevelChannels(a), LevelChannels(b), PRODUCTION)
  {
    LevelComparisons(a, b);
    PassesByDrives(LevelChannels(a), LevelChannels(b), a, b);
  }
}
