/**
 The counters of the conflict-exposure analysis over a planning trace, and the
 reassessment derived from them.
 */
module TraceAccounting {
  import D = Dominance
  import Deadline
  import opened PairCounts
  import opened Services
  import opened TextOrder
  import opened Wrappers

  type Physiology = map<string, real>

  /** A channel of a retained view; `details` stands for whatever else the record says. */
  datatype Channel = Channel(evidence: D.Evidence, details: string)

  type Channels = map<string, Channel>

  /** A candidate profile; one without an identity is not counted. */
  datatype Profile = Profile(identity: string, classification: Option<string>)

  /** A complete planning row with the views of its decision. */
  datatype Row = Row(profiles: seq<Profile>, physiology: Physiology, views: seq<Channels>, frame: Frame)

  datatype PlanningRow = Complete(row: Row) | Incomplete

  const OWNERS: seq<string> := ["energy", "fatigue", "integrity", "stimulation"]

  const IDEAL: map<string, real> := map["energy" := 0.70, "fatigue" := 0.20, "integrity" := 0.85, "stimulation" := 0.55]

  // ------------------------------------------------------------- profiles

  /** The last profile of an identity counts. */
  function ProfileMap(profiles: seq<Profile>): map<string, string> {
    if profiles == [] then map[]
    else
      var rest, last := ProfileMap(profiles[..|profiles| - 1]), profiles[|profiles| - 1];
      if last.identity == "" then rest
      else rest[last.identity := if last.classification.Some? then last.classification.value else "UNKNOWN"]
  }

  /** The profile at this place is the last one of its identity. */
  ghost predicate LastOf(profiles: seq<Profile>, i: nat) {
    && i < |profiles| && profiles[i].identity != ""
    && forall j | i < j < |profiles| :: profiles[j].identity != profiles[i].identity
  }

  /** A profile without a classification counts as UNKNOWN. */
  predicate HasClass(profile: Profile, text: string) {
    profile.classification == Some(text) || (profile.classification == None && text == "UNKNOWN")
  }

  lemma LastOfNext(profiles: seq<Profile>, i: nat)
    requires profiles != []
    ensures var n := |profiles| - 1;
            LastOf(profiles, i) <==>
              || (i == n && profiles[n].identity != "")
              || (i < n && LastOf(profiles[..n], i) && profiles[i].identity != profiles[n].identity)
  {}

  /** The class of the last profile of each identity is in the map. */
  lemma {:induction false} LastIsMapped(profiles: seq<Profile>, i: nat)
    requires LastOf(profiles, i)
    ensures profiles[i].identity in ProfileMap(profiles) && HasClass(profiles[i], ProfileMap(profiles)[profiles[i].identity])
  {
    var n := |profiles| - 1;
    LastOfNext(profiles, i);
    hide LastOf;
    if i < n {
      LastIsMapped(profiles[..n], i);
    }
  }

  lemma {:induction false} MappedHasLast(profiles: seq<Profile>, name: string) returns (i: nat)
    requires name in ProfileMap(profiles)
    ensures LastOf(profiles, i) && profiles[i].identity == name
  {
    var n := |profiles| - 1;
    if profiles[n].identity == name && name != "" {
      i := n;
    } else {
      i := MappedHasLast(profiles[..n], name);
    }
    LastOfNext(profiles, i);
    hide LastOf;
  }

  /** The map names exactly the identities that occur, with the class of the last profile of each. */
  lemma ProfileMapExactly(profiles: seq<Profile>)
    ensures forall name :: name in ProfileMap(profiles) <==> exists i: nat :: LastOf(profiles, i) && profiles[i].identity == name
    ensures forall i: nat | LastOf(profiles, i) ::
              profiles[i].identity in ProfileMap(profiles) && HasClass(profiles[i], ProfileMap(profiles)[profiles[i].identity])
  {
    forall i: nat | LastOf(profiles, i)
      ensures profiles[i].identity in ProfileMap(profiles) && HasClass(profiles[i], ProfileMap(profiles)[profiles[i].identity])
    {
      LastIsMapped(profiles, i);
    }
    forall name | name in ProfileMap(profiles) ensures exists i: nat :: LastOf(profiles, i) && profiles[i].identity == name {
      var i := MappedHasLast(profiles, name);
    }
  }

  /** An identity occurs exactly when it is not empty and some profile bears it. */
  lemma {:induction false} LastExists(profiles: seq<Profile>, k: nat) returns (i: nat)
    requires k < |profiles| && profiles[k].identity != ""
    ensures LastOf(profiles, i) && profiles[i].identity == profiles[k].identity
    decreases |profiles| - k
  {
    if j :| k < j < |profiles| && profiles[j].identity == profiles[k].identity {
      i := LastExists(profiles, j);
    } else {
      i := k;
    }
  }

  lemma NamedExactly(profiles: seq<Profile>, name: string)
    ensures name in ProfileMap(profiles) <==> name != "" && exists k | 0 <= k < |profiles| :: profiles[k].identity == name
  {
    ProfileMapExactly(profiles);
    hide ProfileMap;
    if name != "" {
      if k :| 0 <= k < |profiles| && profiles[k].identity == name {
        var i := LastExists(profiles, k);
      }
    }
  }

  /** The last profiles of two identities have different classes. */
  ghost predicate ClassifiedApart(profiles: seq<Profile>) {
    exists i: nat, j: nat, x, y | LastOf(profiles, i) && LastOf(profiles, j) && HasClass(profiles[i], x) && HasClass(profiles[j], y) :: x != y
  }

  lemma TwoClassesExactly(profiles: seq<Profile>)
    ensures TwoClasses(ProfileMap(profiles)) <==> ClassifiedApart(profiles)
  {
    ProfileMapExactly(profiles);
    var classes := ProfileMap(profiles);
    hide ProfileMap;
    if a, b :| a in classes && b in classes && classes[a] != classes[b] {
      var i: nat :| LastOf(profiles, i) && profiles[i].identity == a;
      var j: nat :| LastOf(profiles, j) && profiles[j].identity == b;
      assert HasClass(profiles[i], classes[a]) && HasClass(profiles[j], classes[b]);
    }
    if i: nat, j: nat, x, y :| LastOf(profiles, i) && LastOf(profiles, j) && HasClass(profiles[i], x) && HasClass(profiles[j], y) && x != y {
      assert classes[profiles[i].identity] == x && classes[profiles[j].identity] == y;
    }
  }

  ghost function Labels(profiles: map<string, string>, names: seq<string>): seq<string>
    requires forall name | name in names :: name in profiles
  {
    seq(|names|, i requires 0 <= i < |names| => profiles[names[i]])
  }

  /** The pairs of candidates of one row whose classifications differ. */
  ghost function PairDistinctions(profiles: map<string, string>): nat {
    PairCount(Labels(profiles, Sorted(profiles.Keys)), Differs)
  }

  method CountPairDistinctions(profiles: map<string, string>) returns (count: nat)
    ensures count == PairDistinctions(profiles)
  {
    var names := SortNames(profiles.Keys);
    var labels: seq<string> := [];
    for i := 0 to |names|
      invariant |labels| == i && forall k | 0 <= k < i :: labels[k] == profiles[names[k]]
    {
      assert names[i] in names;
      labels := labels + [profiles[names[i]]];
    }
    assert labels == Labels(profiles, names);
    count := CountDistinctions(labels);
  }

  /** Two candidates of these profiles are classified differently. */
  ghost predicate TwoClasses(profiles: map<string, string>) {
    exists a, b | a in profiles && b in profiles :: profiles[a] != profiles[b]
  }

  /** A row has distinct pairs exactly when two of its candidates are classified differently. */
  lemma DistinctionsMeaning(profiles: map<string, string>)
    ensures PairDistinctions(profiles) > 0 <==> TwoClasses(profiles)
  {
    var names := Sorted(profiles.Keys);
    var labels := Labels(profiles, names);
    PairDistinctionsPositive(labels);
    if x, y :| x in labels && y in labels && x != y {
      var i :| 0 <= i < |labels| && labels[i] == x;
      var j :| 0 <= j < |labels| && labels[j] == y;
      assert names[i] in profiles && names[j] in profiles;
      assert profiles[names[i]] != profiles[names[j]];
    }
    if a, b :| a in profiles && b in profiles && profiles[a] != profiles[b] {
      var i :| 0 <= i < |names| && names[i] == a;
      var j :| 0 <= j < |names| && names[j] == b;
      assert labels[i] in labels && labels[j] in labels;
    }
  }

  // ----------------------------------------------------------- row facts

  /** Two views at least, and every owner present and within its viable band. */
  ghost predicate Ordinary(row: Row) {
    && |row.views| >= 2
    && forall owner | owner in Deadline.LAWS ::
         owner in row.physiology && Deadline.InBand(Deadline.LAWS[owner], row.physiology[owner])
  }

  function ChannelName(owner: string): string {
    "physiology." + owner
  }

  predicate Orders(view: Channels, owner: string) {
    ChannelName(owner) in view && view[ChannelName(owner)].evidence.Supported?
  }

  function OrderOn(view: Channels, owner: string): real
    requires Orders(view, owner)
  {
    view[ChannelName(owner)].evidence.order
  }

  /** An owner away from its ideal on which two views give different supported orders. */
  ghost predicate InConflict(row: Row, owner: string) {
    && owner in IDEAL && owner in row.physiology && row.physiology[owner] != IDEAL[owner]
    && exists v: Channels, w: Channels | v in row.views && w in row.views ::
         Orders(v, owner) && Orders(w, owner)
         && OrderOn(v, owner) != OrderOn(w, owner)
  }

  /** Conflict is read from the channels under the owner's physiology name, and from nothing else of the views. */
  lemma ConflictMeans(row: Row, owner: string)
    ensures InConflict(row, owner) <==>
              && owner in {"energy", "fatigue", "integrity", "stimulation"}
              && owner in row.physiology && row.physiology[owner] != IDEAL[owner]
              && exists v: Channels, w: Channels | v in row.views && w in row.views
                   && "physiology." + owner in v && "physiology." + owner in w ::
                   && v["physiology." + owner].evidence.Supported? && w["physiology." + owner].evidence.Supported?
                   && v["physiology." + owner].evidence.order != w["physiology." + owner].evidence.order
  {}

  ghost predicate MultiDrive(row: Row) {
    Ordinary(row) && exists a, b | InConflict(row, a) && InConflict(row, b) :: a != b
  }

  ghost predicate Owns(services: seq<AvailableService>, owner: string) {
    exists k | 0 <= k < |services| :: owner in services[k].owners
  }

  /** At least two services, and at least two owners among them. */
  ghost predicate MultipleServices(row: Row) {
    var services := Available(row.frame);
    |services| >= 2 && exists a, b | Owns(services, a) && Owns(services, b) :: a != b
  }

  ghost predicate ViewsDiffer(row: Row) {
    exists v: Channels, w: Channels | v in row.views && w in row.views :: v != w
  }

  ghost predicate Exposed(row: Row) {
    MultiDrive(row) && MultipleServices(row) && ViewsDiffer(row)
  }

  ghost predicate ExposedDistinct(row: Row) {
    Exposed(row) && Distinct(row)
  }

  ghost predicate Distinct(row: Row) {
    PairDistinctions(ProfileMap(row.profiles)) > 0
  }

  /** A conflict already makes two views differ, so the last condition of exposure adds nothing. */
  lemma MultiDriveViewsDiffer(row: Row)
    requires MultiDrive(row)
    ensures ViewsDiffer(row)
    ensures Exposed(row) <==> MultipleServices(row)
  {}

  method IsOrdinary(row: Row) returns (ordinary: bool)
    ensures ordinary <==> Ordinary(row)
  {
    ordinary := |row.views| >= 2;
    for i := 0 to |OWNERS|
      invariant ordinary <==> |row.views| >= 2 && forall owner | owner in OWNERS[..i] ::
                  owner in row.physiology && Deadline.InBand(Deadline.LAWS[owner], row.physiology[owner])
    {
      var owner := OWNERS[i];
      assert OWNERS[..i + 1] == OWNERS[..i] + [owner];
      if owner !in row.physiology || !Deadline.InBand(Deadline.LAWS[owner], row.physiology[owner]) {
        ordinary := false;
      }
    }
    assert OWNERS[..|OWNERS|] == OWNERS;
    assert forall owner :: owner in Deadline.LAWS <==> owner in OWNERS;
  }

  lemma MoreThanOne<T>(s: set<T>)
    ensures |s| > 1 <==> exists x, y | x in s && y in s :: x != y
  {
    if |s| > 1 {
      var x :| x in s;
      assert |s - {x}| > 0;
      var y :| y in s - {x};
    }
    if x, y :| x in s && y in s && x != y {
      assert |s| == 1 + |s - {x}|;
      assert y in s - {x};
    }
  }

  /** The owners in conflict, in name order. */
  method ConflictDimensions(row: Row) returns (dimensions: seq<string>)
    ensures StrictlySorted(dimensions)
    ensures forall owner :: owner in dimensions <==> InConflict(row, owner)
  {
    dimensions := [];
    for i := 0 to |OWNERS|
      invariant StrictlySorted(dimensions)
      invariant forall owner :: owner in dimensions <==> owner in OWNERS[..i] && InConflict(row, owner)
    {
      var owner := OWNERS[i];
      assert OWNERS[..i + 1] == OWNERS[..i] + [owner];
      OwnersSorted(i);
      hide InConflict;
      var conflict := ConflictOver(row, owner);
      if conflict {
        forall k | 0 <= k < |dimensions| ensures Lt(dimensions[k], owner) {
          assert dimensions[k] in OWNERS[..i];
        }
        dimensions := dimensions + [owner];
      }
    }
    assert OWNERS[..|OWNERS|] == OWNERS;
    assert forall owner :: owner in IDEAL <==> owner in OWNERS;
  }

  lemma OwnersSorted(i: nat)
    requires i < |OWNERS|
    ensures forall owner | owner in OWNERS[..i] :: Lt(owner, OWNERS[i])
    ensures OWNERS[i] in IDEAL && OWNERS[i] !in OWNERS[..i]
  {}

  method ConflictOver(row: Row, owner: string) returns (conflict: bool)
    requires owner in IDEAL
    ensures conflict <==> InConflict(row, owner)
  {
    var value := if owner in row.physiology then row.physiology[owner] else IDEAL[owner];
    if value == IDEAL[owner] {
      return false;
    }
    var orders: set<real> := {};
    for i := 0 to |row.views|
      invariant forall x :: x in orders <==>
                  exists k | 0 <= k < i :: Orders(row.views[k], owner) && OrderOn(row.views[k], owner) == x
    {
      var view := row.views[i];
      if Orders(view, owner) {
        orders := orders + {OrderOn(view, owner)};
      }
    }
    MoreThanOne(orders);
    conflict := |orders| > 1;
    OrdersConflict(row, owner, orders);
  }

  lemma OrdersConflict(row: Row, owner: string, orders: set<real>)
    requires owner in IDEAL && owner in row.physiology && row.physiology[owner] != IDEAL[owner]
    requires forall x :: x in orders <==>
               exists k | 0 <= k < |row.views| :: Orders(row.views[k], owner) && OrderOn(row.views[k], owner) == x
    ensures InConflict(row, owner) <==> exists x, y | x in orders && y in orders :: x != y
  {
    hide Orders;
    if x, y :| x in orders && y in orders && x != y {
      var k :| 0 <= k < |row.views| && Orders(row.views[k], owner) && OrderOn(row.views[k], owner) == x;
      var l :| 0 <= l < |row.views| && Orders(row.views[l], owner) && OrderOn(row.views[l], owner) == y;
      assert row.views[k] in row.views && row.views[l] in row.views;
    }
    if InConflict(row, owner) {
      var v: Channels, w: Channels :| v in row.views && w in row.views && Orders(v, owner) && Orders(w, owner)
                  && OrderOn(v, owner) != OrderOn(w, owner);
      assert OrderOn(v, owner) in orders && OrderOn(w, owner) in orders;
    }
  }
}
