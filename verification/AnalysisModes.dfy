/** The projection modes of the offline attribution and what each can report at all. */
module AnalysisModes {
  import opened Dominance
  import opened Frontier
  import opened Wrappers

  datatype Mode =
    | FullChannels
    | PhysiologyOnly
    | SharedSupportedOnly
    | Remove(removed: string)
    | ExcludeUnknown
    | IsolateOneSided

  function Family(channel: string): string {
    if "physiology." <= channel then "physiology"
    else if "body." <= channel then "SelfModel"
    else if "world." <= channel then "WorldModel"
    else if "temporal." <= channel then "temporal"
    else if "individuality." <= channel then "individuality"
    else if "continuity." <= channel || "context." <= channel then "continuity/context"
    else if "option." <= channel then "option/recoverability"
    else if "development." <= channel || "habit." <= channel || "memory." <= channel || "social." <= channel
    then "development/habit/memory/social"
    else "other"
  }

  function AllKeys(views: seq<View>): set<string> {
    set x, key | x in views && key in x.channels :: key
  }

  predicate Selected(views: seq<View>, mode: Mode, key: string) {
    match mode
    case FullChannels => true
    case PhysiologyOnly => Family(key) == "physiology"
    case SharedSupportedOnly => forall x | x in views :: At(x.channels, key).Supported?
    case Remove(removed) => Family(key) != removed
    case ExcludeUnknown => true
    case IsolateOneSided =>
      && (exists x | x in views :: At(x.channels, key).NotApplicable?)
      && (exists x | x in views :: !At(x.channels, key).NotApplicable?)
  }

  function ModeOptions(views: seq<View>, mode: Mode): Options {
    Options(
      if mode.FullChannels? || mode.ExcludeUnknown? then None else Some(set key | key in AllKeys(views) && Selected(views, mode, key)),
      mode.ExcludeUnknown? || mode.IsolateOneSided?,
      false)
  }

  /** On the universally shared channels nothing can block, so ignoring blocks makes no difference. */
  lemma SharedChannelsNeverBlock(views: seq<View>, a: View, b: View, ignoreUnknown: bool, ignoreOneSided: bool)
    requires a in views && b in views
    ensures var options := ModeOptions(views, SharedSupportedOnly);
            Passes(a.channels, b.channels, options) <==> Passes(a.channels, b.channels, options.(ignoreUnknown := ignoreUnknown, ignoreOneSided := ignoreOneSided))
  {}

  /** Removing a family keeps an elimination exactly when it was strictly better outside that family. */
  lemma RemovalKeepsExactly(views: seq<View>, a: View, b: View, removed: string)
    requires a in views && b in views
    requires Passes(a.channels, b.channels, PRODUCTION)
    ensures Passes(a.channels, b.channels, ModeOptions(views, Remove(removed)))
            <==> exists key :: Family(key) != removed && Compare(a.channels, b.channels, key).Better?
  {}

  /** In the removal mode a pair is reported exactly on the evidence outside that family. */
  lemma RemovalReportsExactly(views: seq<View>, a: View, b: View, removed: string)
    requires a in views && b in views
    ensures Passes(a.channels, b.channels, ModeOptions(views, Remove(removed))) <==>
              && (forall key | Family(key) != removed :: !Blocks(PRODUCTION, Compare(a.channels, b.channels, key)))
              && (forall key | Family(key) != removed :: !Compare(a.channels, b.channels, key).Worse?)
              && (exists key :: Family(key) != removed && Compare(a.channels, b.channels, key).Better?)
  {
    var options := ModeOptions(views, Remove(removed));
    forall key | !Compare(a.channels, b.channels, key).BothInapplicable? ensures Allowed(options, key) <==> Family(key) != removed {
      assert key in a.channels || key in b.channels;
    }
    hide Family;
  }

  /** Every candidate of the decision knows this channel. */
  ghost predicate SharedByAll(views: seq<View>, key: string) {
    forall x | x in views :: key in x.channels && x.channels[key].Supported?
  }

  /** On the universally shared channels a pair is reported exactly when none is lower and some is higher. */
  lemma SharedModeReportsExactly(views: seq<View>, a: View, b: View)
    requires a in views && b in views
    ensures Passes(a.channels, b.channels, ModeOptions(views, SharedSupportedOnly)) <==>
              && (forall key | SharedByAll(views, key) :: a.channels[key].order >= b.channels[key].order)
              && (exists key :: SharedByAll(views, key) && a.channels[key].order > b.channels[key].order)
  {
    var options := ModeOptions(views, SharedSupportedOnly);
    forall key
      ensures Allowed(options, key) <==> SharedByAll(views, key)
      ensures SharedByAll(views, key) ==>
                && (Compare(a.channels, b.channels, key).Worse? <==> a.channels[key].order < b.channels[key].order)
                && (Compare(a.channels, b.channels, key).Better? <==> a.channels[key].order > b.channels[key].order)
                && !Blocks(options, Compare(a.channels, b.channels, key))
    {
      assert SharedByAll(views, key) ==> key in AllKeys(views);
    }
    hide SharedByAll, Compare, Blocks, Allowed;
  }

  /** Some candidate of the decision does not have this channel. */
  ghost predicate LackedBySome(views: seq<View>, key: string) {
    exists x | x in views :: At(x.channels, key).NotApplicable?
  }

  /**
   On any decision the isolation mode reports a pair exactly when no channel is
   one-sided between the two, and on the channels some third candidate lacks the
   first is nowhere worse and somewhere better.
   */
  lemma IsolationReportsExactly(views: seq<View>, a: View, b: View)
    requires a in views && b in views
    ensures Passes(a.channels, b.channels, ModeOptions(views, IsolateOneSided)) <==>
              && (forall key :: !Compare(a.channels, b.channels, key).OneSided?)
              && (forall key | LackedBySome(views, key) :: !Compare(a.channels, b.channels, key).Worse?)
              && (exists key :: LackedBySome(views, key) && Compare(a.channels, b.channels, key).Better?)
  {
    var options := ModeOptions(views, IsolateOneSided);
    forall key
      ensures Compare(a.channels, b.channels, key).OneSided? ==> Allowed(options, key)
      ensures Compare(a.channels, b.channels, key).Worse? || Compare(a.channels, b.channels, key).Better? ==>
                (Allowed(options, key) <==> LackedBySome(views, key))
    {
      assert Compare(a.channels, b.channels, key).OneSided? ==> Selected(views, IsolateOneSided, key);
      assert At(a.channels, key).Supported? ==> key in AllKeys(views);
      assert At(b.channels, key).Supported? ==> key in AllKeys(views);
    }
  }

  // ------------------------------------------------- the modes and families

  /** The full mode is the production relation, and excluding unknown changes nothing but that they block. */
  lemma UnrestrictedModes(views: seq<View>, a: Channels, b: Channels)
    ensures Passes(a, b, ModeOptions(views, FullChannels)) <==> Passes(a, b, PRODUCTION)
    ensures Passes(a, b, ModeOptions(views, ExcludeUnknown)) <==> Passes(a, b, Options(None, true, false))
  {}

  /** The physiology mode is the prefix relation for "physiology.", as the other tool writes it. */
  lemma PhysiologyModeIsPrefix(views: seq<View>, a: View, b: View)
    requires a in views && b in views
    ensures Passes(a.channels, b.channels, ModeOptions(views, PhysiologyOnly)) <==>
              Passes(a.channels, b.channels, PrefixOptions(a.channels, b.channels, ["physiology."]))
  {
    var mode, prefix := ModeOptions(views, PhysiologyOnly), PrefixOptions(a.channels, b.channels, ["physiology."]);
    forall key | !Compare(a.channels, b.channels, key).BothInapplicable? ensures Allowed(mode, key) <==> Allowed(prefix, key) {
      assert StartsWithAny(key, ["physiology."]) <==> ["physiology."][0] <= key;
      assert key in a.channels || key in b.channels;
    }
  }

  const FAMILIES: seq<string> :=
    ["physiology", "SelfModel", "WorldModel", "temporal", "individuality", "continuity/context", "option/recoverability",
     "development/habit/memory/social"]

  const PREFIXES: seq<seq<string>> :=
    [["physiology."], ["body."], ["world."], ["temporal."], ["individuality."], ["continuity.", "context."], ["option."],
     ["development.", "habit.", "memory.", "social."]]

  predicate OpensWith(channel: string, k: nat)
    requires k < 8
  {
    exists i | 0 <= i < |PREFIXES[k]| :: PREFIXES[k][i] <= channel
  }

  /** The first letters of the prefixes already tell the families apart. */
  function FamilyLetter(c: char): nat {
    if c == 'p' then 0 else if c == 'b' then 1 else if c == 'w' then 2 else if c == 't' then 3 else if c == 'i' then 4
    else if c == 'c' then 5 else if c == 'o' then 6 else 7
  }

  lemma OpensByLetter(channel: string, k: nat)
    requires k < 8 && OpensWith(channel, k)
    ensures channel != "" && FamilyLetter(channel[0]) == k
  {
    var i :| 0 <= i < |PREFIXES[k]| && PREFIXES[k][i] <= channel;
    assert PREFIXES[k][i] != "" && FamilyLetter(PREFIXES[k][i][0]) == k;
    assert channel[0] == PREFIXES[k][i][0];
  }

  /** The first family whose prefix opens the channel. */
  lemma FamilyIsFirst(channel: string)
    ensures forall k: nat | k < 8 && OpensWith(channel, k) && (forall j: nat | j < k :: !OpensWith(channel, j)) :: Family(channel) == FAMILIES[k]
    ensures (forall k: nat | k < 8 :: !OpensWith(channel, k)) ==> Family(channel) == "other"
  {
    OpensEach(channel);
    hide OpensWith;
  }

  lemma OpensEach(channel: string)
    ensures OpensWith(channel, 0) <==> "physiology." <= channel
    ensures OpensWith(channel, 1) <==> "body." <= channel
    ensures OpensWith(channel, 2) <==> "world." <= channel
    ensures OpensWith(channel, 3) <==> "temporal." <= channel
    ensures OpensWith(channel, 4) <==> "individuality." <= channel
    ensures OpensWith(channel, 5) <==> "continuity." <= channel || "context." <= channel
    ensures OpensWith(channel, 6) <==> "option." <= channel
    ensures OpensWith(channel, 7) <==> "development." <= channel || "habit." <= channel || "memory." <= channel || "social." <= channel
  {
    assert PREFIXES[5][0] == "continuity." && PREFIXES[5][1] == "context.";
    assert PREFIXES[7][0] == "development." && PREFIXES[7][1] == "habit." && PREFIXES[7][2] == "memory." && PREFIXES[7][3] == "social.";
    assert PREFIXES[0][0] == "physiology." && PREFIXES[1][0] == "body." && PREFIXES[2][0] == "world." && PREFIXES[3][0] == "temporal.";
    assert PREFIXES[4][0] == "individuality." && PREFIXES[6][0] == "option.";
  }

  /** A channel belongs to a family exactly when it opens with one of the family's prefixes, and to "other" when with none. */
  lemma FamilyExactly(channel: string)
    ensures forall k: nat | k < 8 :: Family(channel) == FAMILIES[k] <==> OpensWith(channel, k)
    ensures Family(channel) == "other" <==> forall k: nat | k < 8 :: !OpensWith(channel, k)
  {
    FamilyIsFirst(channel);
    FamiliesDistinct();
    hide OpensWith, Family, FamilyLetter;
    if k: nat :| k < 8 && OpensWith(channel, k) {
      forall j: nat | j < 8 && OpensWith(channel, j) ensures j == k {
        OpensByLetter(channel, j);
        OpensByLetter(channel, k);
      }
      assert Family(channel) == FAMILIES[k];
    }
  }

  lemma FamiliesDistinct()
    ensures forall j: nat, k: nat | j < 8 && k < 8 && FAMILIES[j] == FAMILIES[k] :: j == k
    ensures forall k: nat | k < 8 :: FAMILIES[k] != "other"
  {
    assert forall k: nat | k < 8 :: FamilyName(FAMILIES[k]) == k;
  }

  function FamilyName(family: string): nat {
    if family == "physiology" then 0 else if family == "SelfModel" then 1 else if family == "WorldModel" then 2
    else if family == "temporal" then 3 else if family == "individuality" then 4 else if family == "continuity/context" then 5
    else if family == "option/recoverability" then 6 else if family == "development/habit/memory/social" then 7 else 8
  }
}
