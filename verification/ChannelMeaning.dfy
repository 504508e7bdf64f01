/**
 The relations of module Dominance said of the recorded channels themselves: what
 every reported list and label holds, in terms of statuses and orders alone.
 */
module ChannelMeaning {
  import opened TextOrder
  import opened Dominance
  import opened Wrappers

  /** The view does not have the channel, or has it as not applicable. */
  predicate Lacks(view: Channels, key: string) {
    key !in view || view[key] == NotApplicable
  }

  predicate Knows(view: Channels, key: string) {
    key in view && view[key].Supported?
  }

  /** The analysis looks at the channel. */
  predicate Included(options: Options, key: string) {
    match options.only
    case None => true
    case Some(names) => key in names
  }

  predicate OneSidedAt(a: Channels, b: Channels, key: string) {
    Lacks(a, key) != Lacks(b, key)
  }

  predicate UnknownAt(a: Channels, b: Channels, key: string) {
    !Lacks(a, key) && !Lacks(b, key) && !(Knows(a, key) && Knows(b, key))
  }

  predicate WorseAt(a: Channels, b: Channels, key: string) {
    Knows(a, key) && Knows(b, key) && a[key].order < b[key].order
  }

  predicate BetterAt(a: Channels, b: Channels, key: string) {
    Knows(a, key) && Knows(b, key) && a[key].order > b[key].order
  }

  lemma CompareMeans(a: Channels, b: Channels, key: string, options: Options)
    ensures Compare(a, b, key).OneSided? <==> OneSidedAt(a, b, key)
    ensures Compare(a, b, key).Unsupported? <==> UnknownAt(a, b, key)
    ensures Compare(a, b, key).Worse? <==> WorseAt(a, b, key)
    ensures Compare(a, b, key).Better? <==> BetterAt(a, b, key)
    ensures Blocks(options, Compare(a, b, key)) <==>
              (OneSidedAt(a, b, key) && !options.ignoreOneSided) || (UnknownAt(a, b, key) && !options.ignoreUnknown)
    ensures Allowed(options, key) <==> Included(options, key)
  {}

  /** Elimination, said of the channels: somewhere better, nowhere worse, and nothing that blocks. */
  lemma PassesMeans(a: Channels, b: Channels, options: Options)
    ensures Passes(a, b, options) <==>
              && (forall key | Included(options, key) :: !WorseAt(a, b, key))
              && (forall key | Included(options, key) && OneSidedAt(a, b, key) :: options.ignoreOneSided)
              && (forall key | Included(options, key) && UnknownAt(a, b, key) :: options.ignoreUnknown)
              && (exists key :: Included(options, key) && BetterAt(a, b, key))
  {
    forall key {
      CompareMeans(a, b, key, options);
    }
    hide Compare, Allowed, Blocks, Included, OneSidedAt, UnknownAt, WorseAt, BetterAt;
  }

  /** A kind of channel, picked from the listing, holds exactly the included channels of that kind, in order. */
  lemma PickedMeans(a: Channels, b: Channels, options: Options, kind: Kind)
    requires !Has(kind, BothInapplicable)
    ensures var picked := Pick(Sorted(Scope(a, b, options)), a, b, kind);
            StrictlySorted(picked) && forall key :: key in picked <==> Included(options, key) && Has(kind, Compare(a, b, key))
  {
    var keys := Sorted(Scope(a, b, options));
    PickMembers(keys, a, b, kind);
    PickSorted(keys, a, b, kind);
    forall key ensures Has(kind, Compare(a, b, key)) && Included(options, key) ==> key in keys {
      CompareMeans(a, b, key, options);
    }
  }

  lemma {:induction false} PickSorted(keys: seq<string>, a: Channels, b: Channels, kind: Kind)
    requires StrictlySorted(keys)
    ensures StrictlySorted(Pick(keys, a, b, kind))
  {
    if keys != [] {
      var rest := keys[..|keys| - 1];
      PickSorted(rest, a, b, kind);
      PickMembers(rest, a, b, kind);
      hide Compare, Has, Lt;
      var picked := Pick(rest, a, b, kind);
      forall i | 0 <= i < |picked| ensures Lt(picked[i], keys[|keys| - 1]) {
        assert picked[i] in rest;
      }
    }
  }

  /** Each reported list holds exactly its channels, in name order. */
  lemma ListsMean(a: Channels, b: Channels, options: Options)
    ensures var e := Explain(a, b, options);
            && StrictlySorted(e.oneSided) && StrictlySorted(e.unknown) && StrictlySorted(e.worse) && StrictlySorted(e.strict)
            && (forall key :: key in e.oneSided <==> Included(options, key) && OneSidedAt(a, b, key))
            && (forall key :: key in e.unknown <==> Included(options, key) && UnknownAt(a, b, key))
            && (forall key :: key in e.worse <==> Included(options, key) && WorseAt(a, b, key))
            && (forall key :: key in e.strict <==> Included(options, key) && BetterAt(a, b, key))
  {
    PickedMeans(a, b, options, Only(OneSided));
    PickedMeans(a, b, options, Only(Unsupported));
    PickedMeans(a, b, options, Only(Worse));
    PickedMeans(a, b, options, Only(Better));
    forall key {
      CompareMeans(a, b, key, options);
    }
    hide Pick, Compare, Scope, Included, Allowed, Blocks, OneSidedAt, UnknownAt, WorseAt, BetterAt;
  }

  /** Every category, and the classification, by the existence of such a channel. */
  lemma CategoriesMean(a: Channels, b: Channels, options: Options)
    ensures var e := Explain(a, b, options);
            var worse := exists key :: Included(options, key) && WorseAt(a, b, key);
            var unknown := exists key :: Included(options, key) && UnknownAt(a, b, key);
            var oneSided := exists key :: Included(options, key) && OneSidedAt(a, b, key);
            var better := exists key :: Included(options, key) && BetterAt(a, b, key);
            && (WorseCategory in e.categories <==> worse)
            && (UnknownBlock in e.categories <==> unknown)
            && (OneSidedBlock in e.categories <==> oneSided)
            && (NoStrictSupportedImprovement in e.categories <==> !worse && !unknown && !oneSided && !better)
            && (e.classification == WorseCategory <==> worse && !unknown && !oneSided)
            && (e.classification == UnknownBlock <==> unknown && !worse && !oneSided)
            && (e.classification == OneSidedBlock <==> oneSided && !worse && !unknown)
            && (e.classification == NoStrictSupportedImprovement <==> !worse && !unknown && !oneSided && !better)
  {
    ListsMean(a, b, options);
    var e := Explain(a, b, options);
    CategoriesByLists(e);
    hide Explain, Included, WorseAt, UnknownAt, OneSidedAt, BetterAt;
    assert e.worse != [] ==> e.worse[0] in e.worse;
    assert e.unknown != [] ==> e.unknown[0] in e.unknown;
    assert e.oneSided != [] ==> e.oneSided[0] in e.oneSided;
    assert e.strict != [] ==> e.strict[0] in e.strict;
  }

  lemma CategoriesByLists(e: Explanation)
    requires e.categories == Categories(e.worse, e.unknown, e.oneSided, e.strict)
    requires e.classification == if |e.categories| == 1 then e.categories[0] else MultipleBlockers
    ensures WorseCategory in e.categories <==> e.worse != []
    ensures UnknownBlock in e.categories <==> e.unknown != []
    ensures OneSidedBlock in e.categories <==> e.oneSided != []
    ensures NoStrictSupportedImprovement in e.categories <==> e.worse == [] && e.unknown == [] && e.oneSided == [] && e.strict == []
    ensures e.classification == WorseCategory <==> e.worse != [] && e.unknown == [] && e.oneSided == []
    ensures e.classification == UnknownBlock <==> e.worse == [] && e.unknown != [] && e.oneSided == []
    ensures e.classification == OneSidedBlock <==> e.worse == [] && e.unknown == [] && e.oneSided != []
    ensures e.classification == NoStrictSupportedImprovement
       <==> e.worse == [] && e.unknown == [] && e.oneSided == [] && e.strict == []
  {}

  /** The key prefixes a projection allows, said of the characters. */
  lemma StartsWithMeans(key: string, prefixes: seq<string>)
    ensures StartsWithAny(key, prefixes) <==>
              exists i | 0 <= i < |prefixes| :: |prefixes[i]| <= |key| && forall k | 0 <= k < |prefixes[i]| :: key[k] == prefixes[i][k]
  {
    forall i | 0 <= i < |prefixes|
      ensures prefixes[i] <= key <==> |prefixes[i]| <= |key| && forall k | 0 <= k < |prefixes[i]| :: key[k] == prefixes[i][k]
    {}
  }

  /** The prefix relation looks at exactly the recorded channels under a prefix. */
  lemma PrefixScopeMeans(a: Channels, b: Channels, prefixes: seq<string>, key: string)
    ensures Included(PrefixOptions(a, b, prefixes), key) <==> (key in a || key in b) && StartsWithAny(key, prefixes)
    ensures !PrefixOptions(a, b, prefixes).ignoreUnknown && !PrefixOptions(a, b, prefixes).ignoreOneSided
  {}
}
