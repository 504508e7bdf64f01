/**
 The tally loop of the conflict-exposure analysis, what its counters mean, and
 the reassessment derived from them.
 */
module TraceTally {
  import opened PairCounts
  import opened Services
  import opened TextOrder
  import opened TraceAccounting

  type Counter = map<string, nat>

  datatype Tally = Tally(
    candidates: nat, classes: Counter, framesWithDistinctions: nat, pairDistinctions: nat,
    ordinary: nat, multiDrive: nat, multipleServices: nat, differing: nat, exposed: nat, exposedDistinct: nat)

  // ----------------------------------------------------------- class counts

  function Count(counter: Counter, tag: string): nat {
    if tag in counter then counter[tag] else 0
  }

  ghost function SumValues(counter: Counter): nat {
    if counter == map[] then 0
    else
      var tag :| tag in counter;
      counter[tag] + SumValues(counter - {tag})
  }

  lemma {:induction false} TakeLabel(counter: Counter, tag: string)
    requires tag in counter
    ensures SumValues(counter) == counter[tag] + SumValues(counter - {tag})
    decreases |counter|
  {
    var first :| first in counter && SumValues(counter) == counter[first] + SumValues(counter - {first});
    if first != tag {
      TakeLabel(counter - {first}, tag);
      TakeLabel(counter - {tag}, first);
      assert counter - {first} - {tag} == counter - {tag} - {first};
    }
  }

  lemma Bump(counter: Counter, tag: string)
    ensures SumValues(counter[tag := Count(counter, tag) + 1]) == SumValues(counter) + 1
  {
    var bumped := counter[tag := Count(counter, tag) + 1];
    TakeLabel(bumped, tag);
    assert bumped - {tag} == counter - {tag};
    if tag in counter {
      TakeLabel(counter, tag);
    } else {
      assert counter - {tag} == counter;
    }
  }

  /** The candidates of one row under one tag. */
  ghost function Labelled(profiles: map<string, string>, tag: string): set<string> {
    set name | name in profiles && profiles[name] == tag
  }

  method AddClasses(before: Counter, profiles: map<string, string>) returns (classes: Counter)
    ensures SumValues(classes) == SumValues(before) + |profiles|
    ensures forall tag :: Count(classes, tag) == Count(before, tag) + |Labelled(profiles, tag)|
  {
    classes := before;
    var rest := profiles.Keys;
    ghost var done: map<string, string> := map[];
    while rest != {}
      invariant rest <= profiles.Keys && done == map name | name in profiles && name !in rest :: profiles[name]
      invariant SumValues(classes) == SumValues(before) + |profiles.Keys| - |rest|
      invariant forall tag :: Count(classes, tag) == Count(before, tag) + |Labelled(done, tag)|
      decreases |rest|
    {
      hide SumValues;
      var name :| name in rest;
      var tag := profiles[name];
      Bump(classes, tag);
      LabelledNext(done, name, tag);
      classes := classes[tag := Count(classes, tag) + 1];
      rest := rest - {name};
      done := done[name := tag];
    }
    assert done == profiles;
    assert |profiles.Keys| == |profiles|;
  }

  lemma LabelledNext(done: map<string, string>, name: string, tag: string)
    requires name !in done
    ensures forall other :: |Labelled(done[name := tag], other)| == |Labelled(done, other)| + if other == tag then 1 else 0
  {
    forall other ensures |Labelled(done[name := tag], other)| == |Labelled(done, other)| + if other == tag then 1 else 0 {
      assert Labelled(done[name := tag], other) == Labelled(done, other) + if other == tag then {name} else {};
    }
  }

  // ------------------------------------------------------------- the loop

  ghost function SumOver(rows: seq<Row>, amount: Row -> nat): nat {
    if rows == [] then 0 else SumOver(rows[..|rows| - 1], amount) + amount(rows[|rows| - 1])
  }

  ghost function Candidates(row: Row): nat {
    |ProfileMap(row.profiles)|
  }

  ghost function RowDistinctions(row: Row): nat {
    PairDistinctions(ProfileMap(row.profiles))
  }

  ghost function LabelTotal(rows: seq<Row>, tag: string): nat {
    if rows == [] then 0
    else LabelTotal(rows[..|rows| - 1], tag) + |Labelled(ProfileMap(rows[|rows| - 1].profiles), tag)|
  }

  /** What the summed counters mean for the rows read so far. */
  ghost predicate Summed(rows: seq<Row>, t: Tally) {
    && t.candidates == SumOver(rows, Candidates) == SumValues(t.classes)
    && (forall tag :: Count(t.classes, tag) == LabelTotal(rows, tag))
    && t.pairDistinctions == SumOver(rows, RowDistinctions)
  }

  /** What the counters of rows mean. */
  ghost predicate Counted(rows: seq<Row>, t: Tally) {
    && t.ordinary == CountWhere(rows, Ordinary) && t.multiDrive == CountWhere(rows, MultiDrive)
    && t.multipleServices == CountWhere(rows, MultipleServices) && t.differing == CountWhere(rows, ViewsDiffer)
    && t.exposed == CountWhere(rows, Exposed) && t.exposedDistinct == CountWhere(rows, ExposedDistinct)
    && t.framesWithDistinctions == CountWhere(rows, Distinct)
  }

  ghost predicate Tallied(rows: seq<Row>, t: Tally) {
    Summed(rows, t) && Counted(rows, t)
  }

  datatype Facts = Facts(ordinary: bool, multiDrive: bool, multipleServices: bool, differing: bool, exposed: bool, distinctions: nat)

  ghost predicate FactsHold(row: Row, f: Facts) {
    && (f.ordinary <==> Ordinary(row)) && (f.multiDrive <==> MultiDrive(row))
    && (f.multipleServices <==> MultipleServices(row)) && (f.differing <==> ViewsDiffer(row))
    && (f.exposed <==> Exposed(row)) && f.distinctions == RowDistinctions(row)
  }

  method HasMultipleServices(row: Row) returns (multiple: bool)
    ensures multiple <==> MultipleServices(row)
  {
    var services := AvailableServices(row.frame);
    var owners: set<string> := {};
    for i := 0 to |services|
      invariant forall a :: a in owners <==> Owns(services[..i], a)
    {
      OwnsNext(services, i);
      hide Owns;
      owners := owners + set a | a in services[i].owners;
    }
    assert services[..|services|] == services;
    MoreThanOne(owners);
    hide Owns;
    multiple := |services| >= 2 && |owners| >= 2;
    assert |owners| > 1 <==> exists a, b | Owns(services, a) && Owns(services, b) :: a != b;
  }

  lemma OwnsNext(services: seq<AvailableService>, i: nat)
    requires i < |services|
    ensures forall a :: Owns(services[..i + 1], a) <==> Owns(services[..i], a) || a in services[i].owners
  {}

  method RowFacts(row: Row) returns (f: Facts)
    ensures FactsHold(row, f)
  {
    hide InConflict, Ordinary, MultipleServices;
    var ordinary := IsOrdinary(row);
    var dimensions := ConflictDimensions(row);
    var multiple := HasMultipleServices(row);
    var signatures := set view | view in row.views;
    MoreThanOne(signatures);
    MoreThanOneListed(dimensions);
    var differing := |signatures| > 1;
    ViewsDifferBySignature(row, signatures);
    var distinctions := CountPairDistinctions(ProfileMap(row.profiles));
    var multiDrive := ordinary && |dimensions| >= 2;
    assert multiDrive <==> MultiDrive(row);
    f := Facts(ordinary, multiDrive, multiple, differing, multiDrive && multiple && differing, distinctions);
  }

  lemma ViewsDifferBySignature(row: Row, signatures: set<Channels>)
    requires forall view :: view in signatures <==> view in row.views
    ensures ViewsDiffer(row) <==> exists v, w | v in signatures && w in signatures :: v != w
  {}

  lemma MoreThanOneListed(names: seq<string>)
    requires StrictlySorted(names)
    ensures |names| >= 2 <==> exists a, b | a in names && b in names :: a != b
  {
    if |names| >= 2 {
      assert Lt(names[0], names[1]);
      assert names[0] in names && names[1] in names;
    }
  }

  function Plus(n: nat, more: bool): nat {
    if more then n + 1 else n
  }

  function AddRow(t: Tally, candidates: nat, classes: Counter, f: Facts): Tally {
    Tally(
      t.candidates + candidates, classes, Plus(t.framesWithDistinctions, f.distinctions > 0), t.pairDistinctions + f.distinctions,
      Plus(t.ordinary, f.ordinary), Plus(t.multiDrive, f.multiDrive), Plus(t.multipleServices, f.multipleServices),
      Plus(t.differing, f.differing), Plus(t.exposed, f.exposed), Plus(t.exposedDistinct, f.exposed && f.distinctions > 0))
  }

  lemma CountNext(rows: seq<Row>, row: Row, holds: Row -> bool)
    ensures CountWhere(rows + [row], holds) == Plus(CountWhere(rows, holds), holds(row))
  {}

  lemma SumNext(rows: seq<Row>, row: Row, amount: Row -> nat)
    ensures SumOver(rows + [row], amount) == SumOver(rows, amount) + amount(row)
    ensures forall tag :: LabelTotal(rows + [row], tag) == LabelTotal(rows, tag) + |Labelled(ProfileMap(row.profiles), tag)|
  {}

  lemma CountedNext(rows: seq<Row>, row: Row, t: Tally, candidates: nat, classes: Counter, f: Facts)
    requires Counted(rows, t) && FactsHold(row, f)
    ensures Counted(rows + [row], AddRow(t, candidates, classes, f))
  {
    assert Distinct(row) <==> f.distinctions > 0;
    assert ExposedDistinct(row) <==> f.exposed && f.distinctions > 0;
    hide MultiDrive, Ordinary, MultipleServices, ViewsDiffer, Exposed, Distinct, ExposedDistinct, CountWhere, RowDistinctions;
    CountNext(rows, row, Distinct);
    CountNext(rows, row, Ordinary);
    CountNext(rows, row, MultiDrive);
    CountNext(rows, row, MultipleServices);
    CountNext(rows, row, ViewsDiffer);
    CountNext(rows, row, Exposed);
    CountNext(rows, row, ExposedDistinct);
  }

  lemma SummedNext(rows: seq<Row>, row: Row, t: Tally, classes: Counter, f: Facts)
    requires Summed(rows, t) && f.distinctions == RowDistinctions(row)
    requires SumValues(classes) == SumValues(t.classes) + Candidates(row)
    requires forall tag :: Count(classes, tag) == Count(t.classes, tag) + |Labelled(ProfileMap(row.profiles), tag)|
    ensures Summed(rows + [row], AddRow(t, Candidates(row), classes, f))
  {
    hide SumValues, Candidates, Count, Labelled, ProfileMap, SumOver, LabelTotal, RowDistinctions;
    SumNext(rows, row, Candidates);
    SumNext(rows, row, RowDistinctions);
  }

  /** One turn of the loop. */
  method Read(t: Tally, row: Row, ghost rows: seq<Row>) returns (next: Tally)
    requires Summed(rows, t) && Counted(rows, t)
    ensures Summed(rows + [row], next) && Counted(rows + [row], next)
  {
    hide Summed, Counted, FactsHold, SumValues, Count, Labelled, ProfileMap, PairDistinctions;
    var profiles := ProfileMap(row.profiles);
    var classes := AddClasses(t.classes, profiles);
    var facts := RowFacts(row);
    FactsGiveDistinctions(row, facts);
    SummedNext(rows, row, t, classes, facts);
    CountedNext(rows, row, t, |profiles|, classes, facts);
    next := AddRow(t, |profiles|, classes, facts);
  }

  /** Reads the complete rows of a trace and counts. */
  method Analyze(rows: seq<Row>) returns (t: Tally)
    ensures Tallied(rows, t)
  {
    t := Tally(0, map[], 0, 0, 0, 0, 0, 0, 0, 0);
    for i := 0 to |rows|
      invariant Summed(rows[..i], t) && Counted(rows[..i], t)
    {
      hide Summed, Counted;
      assert rows[..i + 1] == rows[..i] + [rows[i]];
      t := Read(t, rows[i], rows[..i]);
    }
    assert rows[..|rows|] == rows;
  }

  lemma FactsGiveDistinctions(row: Row, f: Facts)
    requires FactsHold(row, f)
    ensures f.distinctions == RowDistinctions(row)
  {}

  /** The counters are nested: distinct within exposed within multi-drive within ordinary within all rows. */
  lemma CountersNest(rows: seq<Row>, t: Tally)
    requires Tallied(rows, t)
    ensures t.exposedDistinct <= t.exposed <= t.multiDrive <= t.ordinary <= |rows|
    ensures t.exposed <= t.multipleServices && t.multiDrive <= t.differing && t.exposedDistinct <= t.framesWithDistinctions
    ensures t.framesWithDistinctions <= t.pairDistinctions
  {
    forall row | MultiDrive(row) ensures ViewsDiffer(row) {
      MultiDriveViewsDiffer(row);
    }
    FramesWithinPairs(rows);
    hide Ordinary, InConflict, MultipleServices, ViewsDiffer, Distinct;
    CountMonotone(rows, ExposedDistinct, Exposed);
    CountMonotone(rows, Exposed, MultiDrive);
    CountMonotone(rows, MultiDrive, Ordinary);
    CountMonotone(rows, Ordinary, Ordinary);
    CountMonotone(rows, Exposed, MultipleServices);
    CountMonotone(rows, MultiDrive, ViewsDiffer);
    CountMonotone(rows, ExposedDistinct, Distinct);
  }

  lemma {:induction false} FramesWithinPairs(rows: seq<Row>)
    ensures CountWhere(rows, Distinct) <= SumOver(rows, RowDistinctions)
  {
    if rows != [] {
      FramesWithinPairs(rows[..|rows| - 1]);
    }
  }

  // ------------------------------------------- every candidate has one class

  ghost function RowCounts(profiles: map<string, string>, tags: set<string>): Counter {
    map tag | tag in tags :: |Labelled(profiles, tag)|
  }

  ghost function ClassCounts(rows: seq<Row>, tags: set<string>): Counter {
    map tag | tag in tags :: LabelTotal(rows, tag)
  }

  lemma {:induction false} SumsAdd(a: Counter, b: Counter, c: Counter)
    requires a.Keys == b.Keys == c.Keys && forall tag | tag in a :: c[tag] == a[tag] + b[tag]
    ensures SumValues(c) == SumValues(a) + SumValues(b)
    decreases |a|
  {
    if tag :| tag in a {
      TakeLabel(a, tag);
      TakeLabel(b, tag);
      TakeLabel(c, tag);
      hide SumValues;
      SumsAdd(a - {tag}, b - {tag}, c - {tag});
    } else {
      assert a == b == c == map[];
    }
  }

  ghost function Covered(profiles: map<string, string>, tags: set<string>): set<string> {
    set name | name in profiles && profiles[name] in tags
  }

  /** The candidates of a row, counted class by class. */
  lemma {:induction false} RowCountsSum(profiles: map<string, string>, tags: set<string>)
    ensures SumValues(RowCounts(profiles, tags)) == |Covered(profiles, tags)|
    decreases |tags|
  {
    if tag :| tag in tags {
      var counts := RowCounts(profiles, tags);
      TakeLabel(counts, tag);
      hide SumValues;
      RowCountsSum(profiles, tags - {tag});
      assert counts - {tag} == RowCounts(profiles, tags - {tag});
      assert Covered(profiles, tags) == Labelled(profiles, tag) + Covered(profiles, tags - {tag});
    } else {
      assert RowCounts(profiles, tags) == map[] && Covered(profiles, tags) == {};
    }
  }

  lemma {:induction false} NoRowsSum(tags: set<string>)
    ensures SumValues(ClassCounts([], tags)) == 0
    decreases |tags|
  {
    var counts := ClassCounts([], tags);
    if tag :| tag in tags {
      TakeLabel(counts, tag);
      NoRowsSum(tags - {tag});
      assert counts - {tag} == ClassCounts([], tags - {tag});
    } else {
      assert counts == map[];
    }
  }

  /** The candidates of all rows are as many as the class totals together, for any classes that cover them. */
  lemma {:induction false} ClassCountsAddUp(rows: seq<Row>, tags: set<string>)
    requires forall row, name | row in rows && name in ProfileMap(row.profiles) :: ProfileMap(row.profiles)[name] in tags
    ensures SumValues(ClassCounts(rows, tags)) == SumOver(rows, Candidates)
  {
    if rows == [] {
      NoRowsSum(tags);
    } else {
      var rest, last := rows[..|rows| - 1], rows[|rows| - 1];
      var profiles := ProfileMap(last.profiles);
      assert last in rows && forall row | row in rest :: row in rows;
      hide ProfileMap, SumValues, Labelled;
      ClassCountsAddUp(rest, tags);
      RowCountsSum(profiles, tags);
      SumsAdd(ClassCounts(rest, tags), RowCounts(profiles, tags), ClassCounts(rows, tags));
      assert Covered(profiles, tags) == profiles.Keys;
    }
  }

  // ---------------------------------------------------------- reassessment

  datatype Reassessment = EvidenceUnknown | BlockerExpressed | BlockerNotExpressedDespiteExposure | FixtureDidNotExposeBlocker

  function Reassess(rejected: nat, t: Tally): Reassessment {
    if rejected > 0 then EvidenceUnknown
    else if t.exposedDistinct > 0 then BlockerExpressed
    else if t.exposed > 0 then BlockerNotExpressedDespiteExposure
    else FixtureDidNotExposeBlocker
  }

  /** An exposed row: a conflict of at least two owners and services for at least two owners. */
  ghost predicate ConflictServed(row: Row) {
    MultiDrive(row) && MultipleServices(row)
  }

  lemma ExposedMeans(row: Row)
    ensures Exposed(row) <==> ConflictServed(row)
    ensures ExposedDistinct(row) <==> ConflictServed(row) && TwoClasses(ProfileMap(row.profiles))
  {
    if MultiDrive(row) {
      MultiDriveViewsDiffer(row);
    }
    DistinctionsMeaning(ProfileMap(row.profiles));
  }

  lemma ReassessmentMeans(rows: seq<Row>, t: Tally, rejected: nat)
    requires Tallied(rows, t)
    ensures Reassess(rejected, t) == BlockerExpressed <==>
              rejected == 0 && exists row | row in rows :: ConflictServed(row) && TwoClasses(ProfileMap(row.profiles))
    ensures Reassess(rejected, t) == FixtureDidNotExposeBlocker <==>
              rejected == 0 && forall row | row in rows :: !ConflictServed(row)
    ensures Reassess(rejected, t) == EvidenceUnknown <==> rejected > 0
  {
    CountPositive(rows, ExposedDistinct);
    CountPositive(rows, Exposed);
    CountersNest(rows, t);
    hide Exposed, ExposedDistinct, ConflictServed, TwoClasses, CountWhere, SumOver, SumValues, LabelTotal, ProfileMap;
    forall row: Row
      ensures Exposed(row) <==> ConflictServed(row)
      ensures ExposedDistinct(row) <==> ConflictServed(row) && TwoClasses(ProfileMap(row.profiles))
    {
      ExposedMeans(row);
    }
  }

  /** The complete rows of a trace, in order and with their repetitions. */
  function CompleteRows(planning: seq<PlanningRow>): seq<Row> {
    if planning == [] then []
    else
      var rest, last := CompleteRows(planning[..|planning| - 1]), planning[|planning| - 1];
      if last.Complete? then rest + [last.row] else rest
  }

  /** Splits a trace into its complete rows and the number of rejected ones. */
  method Split(planning: seq<PlanningRow>) returns (rows: seq<Row>, rejected: nat)
    ensures rows == CompleteRows(planning)
    ensures forall row :: row in rows <==> Complete(row) in planning
    ensures rejected > 0 <==> Incomplete in planning
    ensures |rows| + rejected == |planning|
  {
    rows, rejected := [], 0;
    for i := 0 to |planning|
      invariant rows == CompleteRows(planning[..i])
      invariant forall row :: row in rows <==> Complete(row) in planning[..i]
      invariant rejected > 0 <==> Incomplete in planning[..i]
      invariant |rows| + rejected == i
    {
      assert planning[..i + 1] == planning[..i] + [planning[i]];
      assert planning[..i + 1][..i] == planning[..i];
      match planning[i] {
        case Complete(row) => rows := rows + [row];
        case Incomplete => rejected := rejected + 1;
      }
    }
    assert planning[..|planning|] == planning;
  }

  /**
   The reassessment of a whole planning trace. An incomplete row leaves it unknown;
   otherwise the blocker is expressed exactly when some exposed row classifies two
   candidates apart, and the fixture falls short exactly when no row is exposed.
   */
  method ReassessTrace(planning: seq<PlanningRow>) returns (outcome: Reassessment)
    ensures outcome == EvidenceUnknown <==> Incomplete in planning
    ensures outcome == BlockerExpressed <==>
              && Incomplete !in planning
              && exists row | Complete(row) in planning :: ConflictServed(row) && ClassifiedApart(row.profiles)
    ensures outcome == FixtureDidNotExposeBlocker <==>
              Incomplete !in planning && forall row | Complete(row) in planning :: !ConflictServed(row)
  {
    forall row: Row ensures TwoClasses(ProfileMap(row.profiles)) <==> ClassifiedApart(row.profiles) {
      TwoClassesExactly(row.profiles);
    }
    hide Tallied, ConflictServed, TwoClasses, ProfileMap, ClassifiedApart;
    var rows, rejected := Split(planning);
    var t := Analyze(rows);
    ReassessmentMeans(rows, t, rejected);
    outcome := Reassess(rejected, t);
  }
}
