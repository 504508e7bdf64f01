/**
 Viable-loss deadlines: a closed form against the drift of a value tick by tick.
 Values are exact reals; a deadline is measured in whole ticks.
 */
module Deadline {
  import opened TextOrder
  import opened Wrappers

  /** The viable band of an owner and its drift per tick. */
  datatype Law = Law(low: real, high: real, drift: real)

  /** The band is wider than one tick of drift, so a drifting value cannot jump over it. */
  predicate Sane(law: Law) {
    && law.low < law.high && law.drift != 0.0
    && Pace(law) <= law.high - law.low
  }

  function Pace(law: Law): real {
    if law.drift < 0.0 then -law.drift else law.drift
  }

  const LAWS: map<string, Law> := map[
    "energy" := Law(0.30, 0.90, -0.002),
    "fatigue" := Law(0.05, 0.70, 0.002),
    "integrity" := Law(0.35, 0.98, -0.0002),
    "stimulation" := Law(0.25, 0.80, -0.002)
  ]

  /** Added before rounding down. */
  const SLACK: real := 0.000000000001

  function Max(a: int, b: int): int {
    if a < b then b else a
  }

  /** `None` when the value lies beyond the side it drifts away from. */
  function Deadline(law: Law, value: real): (deadline: Option<nat>)
    requires law.drift != 0.0
  {
    if law.drift < 0.0 then
      if value < law.low then Some(0)
      else if value > law.high then None
      else Some(Max(0, ((value - law.low) / -law.drift + SLACK).Floor))
    else
      if value > law.high then Some(0)
      else if value < law.low then None
      else Some(Max(0, ((law.high - value) / law.drift + SLACK).Floor))
  }

  // ------------------------------------------------ tick-by-tick reference

  /** The value after `ticks` drift steps. */
  function After(law: Law, value: real, ticks: nat): real {
    if ticks == 0 then value else After(law, value, ticks - 1) + law.drift
  }

  predicate InBand(law: Law, value: real) {
    law.low <= value <= law.high
  }

  predicate ViableAt(law: Law, value: real, tick: nat) {
    InBand(law, After(law, value, tick))
  }

  /** The deadline `d` is the last viable tick: viable at 0..d and never again. */
  ghost predicate LastViableTick(law: Law, value: real, d: nat) {
    forall tick: nat :: ViableAt(law, value, tick) <==> tick <= d
  }

  /** Distance to the side the value drifts toward, in ticks. */
  function Room(law: Law, value: real): real
    requires law.drift != 0.0
  {
    if law.drift < 0.0 then (value - law.low) / -law.drift else (law.high - value) / law.drift
  }

  lemma {:induction false} AfterIsLinear(law: Law, value: real, ticks: nat)
    ensures After(law, value, ticks) == value + ticks as real * law.drift
  {
    if ticks > 0 {
      AfterIsLinear(law, value, ticks - 1);
      assert (ticks - 1) as real * law.drift + law.drift == ticks as real * law.drift;
    }
  }

  lemma Scale(distance: real, pace: real, ticks: real)
    requires pace > 0.0
    ensures ticks <= distance / pace <==> ticks * pace <= distance
  {}

  lemma Quotient(distance: real, pace: real, ticks: real)
    requires pace > 0.0 && ticks * pace == distance
    ensures distance / pace == ticks
  {}

  /** A value in the band at tick 0 is viable at exactly the ticks within its room. */
  lemma ViableWithinRoom(law: Law, value: real, tick: nat)
    requires law.drift != 0.0 && InBand(law, value)
    ensures ViableAt(law, value, tick) <==> tick as real <= Room(law, value)
  {
    AfterIsLinear(law, value, tick);
    var t := tick as real;
    if law.drift < 0.0 {
      Scale(value - law.low, -law.drift, t);
      assert t * -law.drift == -(t * law.drift);
      assert t * -law.drift >= 0.0;
    } else {
      Scale(law.high - value, law.drift, t);
      assert t * law.drift >= 0.0;
    }
  }

  lemma RoomNonNegative(law: Law, value: real)
    requires law.drift != 0.0 && InBand(law, value)
    ensures Room(law, value) >= 0.0
  {}

  lemma FloorUnique(x: real, n: int)
    requires n as real <= x < n as real + 1.0
    ensures x.Floor == n
  {}

  /** In the band the last viable tick is the room rounded down. */
  lemma LastTickIsFloor(law: Law, value: real, d: nat)
    requires law.drift != 0.0 && InBand(law, value)
    ensures LastViableTick(law, value, d) <==> Room(law, value).Floor == d
  {
    var x := Room(law, value);
    RoomNonNegative(law, value);
    forall tick: nat ensures ViableAt(law, value, tick) <==> tick <= x.Floor {
      ViableWithinRoom(law, value, tick);
    }
    if LastViableTick(law, value, d) {
      assert ViableAt(law, value, d) && !ViableAt(law, value, d + 1);
    }
  }

  /** The slack is too small to carry this value over a whole tick. */
  predicate ClearOfSlack(law: Law, value: real)
    requires law.drift != 0.0
  {
    var x := Room(law, value);
    x - x.Floor as real < 1.0 - SLACK
  }

  lemma SlackedFloor(x: real)
    ensures (x + SLACK).Floor == if x - x.Floor as real < 1.0 - SLACK then x.Floor else x.Floor + 1
  {}

  /** In the band: the deadline is the last viable tick exactly when the slack does not round up. */
  lemma DeadlineIsLastViableTickExactly(law: Law, value: real)
    requires law.drift != 0.0 && InBand(law, value)
    ensures Deadline(law, value).Some?
    ensures LastViableTick(law, value, Deadline(law, value).value) <==> ClearOfSlack(law, value)
    ensures !ClearOfSlack(law, value) ==>
              Deadline(law, value).value > 0 && LastViableTick(law, value, Deadline(law, value).value - 1)
  {
    var x := Room(law, value);
    RoomNonNegative(law, value);
    SlackedFloor(x);
    var d := Deadline(law, value).value;
    LastTickIsFloor(law, value, d);
    if !ClearOfSlack(law, value) {
      LastTickIsFloor(law, value, d - 1);
    }
  }

  /** The value of a band that has this much room left. */
  function WithRoom(law: Law, room: real): real {
    if law.drift < 0.0 then law.low + room * Pace(law) else law.high - room * Pace(law)
  }

  lemma WithRoomHasRoom(law: Law, room: real)
    requires law.drift != 0.0 && room >= 0.0 && room * Pace(law) <= law.high - law.low
    ensures InBand(law, WithRoom(law, room)) && Room(law, WithRoom(law, room)) == room
  {
    assert room * Pace(law) >= 0.0;
    Quotient(room * Pace(law), Pace(law), room);
  }

  /**
   In every law, half a slack short of n + 1 whole ticks the deadline is one too
   many: it says n + 1, and the value is lost at that tick.
   */
  lemma SlackRoundsUp(law: Law, n: nat)
    requires law.drift != 0.0 && (n + 1) as real * Pace(law) <= law.high - law.low
    ensures var value := WithRoom(law, (n + 1) as real - SLACK / 2.0);
            && InBand(law, value) && !ClearOfSlack(law, value)
            && Deadline(law, value) == Some(n + 1)
            && !ViableAt(law, value, n + 1) && LastViableTick(law, value, n)
  {
    var room := (n + 1) as real - SLACK / 2.0;
    var value := WithRoom(law, room);
    assert (SLACK / 2.0) * Pace(law) >= 0.0;
    assert room * Pace(law) == (n + 1) as real * Pace(law) - (SLACK / 2.0) * Pace(law);
    WithRoomHasRoom(law, room);
    FloorUnique(room, n);
    FloorUnique(room + SLACK, n + 1);
    LastTickIsFloor(law, value, n);
  }

  /** Every listed owner has such a value. */
  lemma ListedDeadlineCanBeOneTooMany(owner: string) returns (value: real)
    requires owner in LAWS
    ensures LAWS[owner].drift != 0.0 && InBand(LAWS[owner], value) && !ClearOfSlack(LAWS[owner], value)
    ensures Deadline(LAWS[owner], value) == Some(1) && !ViableAt(LAWS[owner], value, 1)
  {
    ListedLawsAreSane(owner);
    SlackRoundsUp(LAWS[owner], 0);
    value := WithRoom(LAWS[owner], 1.0 - SLACK / 2.0);
  }

  // ----------------------------------------------------- the measured grid

  /** Values recorded in steps of one ten-thousandth. */
  function OnGrid(units: int): real {
    units as real / 10000.0
  }

  lemma FractionOfUnits(units: int, pace: int)
    requires 0 < pace < 1000000000000
    ensures var x := units as real / pace as real; x - x.Floor as real < 1.0 - SLACK
  {
    var q, r := units / pace, units % pace;
    var x := units as real / pace as real;
    assert units == q * pace + r;
    assert units as real == q as real * pace as real + r as real;
    assert x == q as real + r as real / pace as real;
    var f := r as real / pace as real;
    Scale(r as real, pace as real, 0.0);
    Scale(r as real, pace as real, 1.0 - SLACK);
    assert (1.0 - SLACK) * pace as real > pace as real - 1.0;
    FloorUnique(x, q);
  }

  /** On the grid the slack never rounds up, for every listed owner. */
  lemma GridIsClear(owner: string, units: int)
    requires owner in LAWS
    ensures LAWS[owner].drift != 0.0 && ClearOfSlack(LAWS[owner], OnGrid(units))
  {
    match owner {
      case "energy" => FractionOfUnits(units - 3000, 20);
      case "fatigue" => FractionOfUnits(7000 - units, 20);
      case "integrity" => FractionOfUnits(units - 3500, 2);
      case _ => FractionOfUnits(units - 2500, 20);
    }
  }

  /** On the grid and in the band, the deadline is the last viable tick. */
  lemma GridDeadline(owner: string, units: int)
    requires owner in LAWS && InBand(LAWS[owner], OnGrid(units))
    ensures LAWS[owner].drift != 0.0
    ensures var d := Deadline(LAWS[owner], OnGrid(units));
            d.Some? && LastViableTick(LAWS[owner], OnGrid(units), d.value)
  {
    GridIsClear(owner, units);
    DeadlineIsLastViableTickExactly(LAWS[owner], OnGrid(units));
  }

  // --------------------------------------------------- outside the band

  /** Out of the band: 0 when the value is lost for good, none when it drifts back in. */
  lemma OutOfBandDeadline(law: Law, value: real)
    requires Sane(law) && !InBand(law, value)
    ensures Deadline(law, value) in {None, Some(0)}
    ensures Deadline(law, value) == Some(0) <==> forall tick: nat :: !ViableAt(law, value, tick)
    ensures Deadline(law, value) == None <==> exists tick: nat :: ViableAt(law, value, tick)
  {
    if Deadline(law, value).None? {
      var tick := Return(law, value);
    } else {
      forall tick: nat ensures !ViableAt(law, value, tick) {
        AfterIsLinear(law, value, tick);
        assert law.drift < 0.0 ==> tick as real * law.drift <= 0.0;
        assert law.drift > 0.0 ==> tick as real * law.drift >= 0.0;
      }
    }
  }

  /** The first tick at which a value beyond the harmless side is back in the band. */
  lemma Return(law: Law, value: real) returns (tick: nat)
    requires Sane(law) && Deadline(law, value).None?
    ensures ViableAt(law, value, tick)
  {
    var pace := Pace(law);
    var distance := if law.drift < 0.0 then value - law.high else law.low - value;
    var x := distance / pace;
    Scale(distance, pace, 0.0);
    tick := x.Floor + 1;
    AfterIsLinear(law, value, tick);
    var t := tick as real;
    Scale(distance, pace, t);
    Scale(distance, pace, t - 1.0);
    assert (t - 1.0) * pace == t * pace - pace;
    assert t * law.drift == if law.drift < 0.0 then -(t * pace) else t * pace;
  }

  lemma ListedLawsAreSane(owner: string)
    requires owner in LAWS
    ensures Sane(LAWS[owner])
  {}

  // ------------------------------------------------------------- steps

  /** One drift step takes exactly one tick off a positive deadline, and zero stays zero. */
  lemma DropsByOnePerStep(law: Law, value: real)
    requires law.drift != 0.0 && Deadline(law, value).Some?
    ensures Deadline(law, value + law.drift) == Some(Max(0, Deadline(law, value).value - 1))
  {
    if InBand(law, value) {
      var x := Room(law, value);
      RoomNonNegative(law, value);
      RoomAfterStep(law, value);
      ViableWithinRoom(law, value, 1);
      assert After(law, value, 1) == value + law.drift;
      FloorUnique(x - 1.0 + SLACK, (x + SLACK).Floor - 1);
    }
  }

  lemma RoomAfterStep(law: Law, value: real)
    requires law.drift != 0.0
    ensures Room(law, value + law.drift) == Room(law, value) - 1.0
  {
    var pace := Pace(law);
    var distance := if law.drift < 0.0 then value - law.low else law.high - value;
    var x := distance / pace;
    assert (x - 1.0) * pace == distance - pace;
    Quotient(distance - pace, pace, x - 1.0);
  }

  /** The upward branch is the downward one seen in a mirror. */
  lemma Mirrored(law: Law, value: real)
    requires law.drift != 0.0
    ensures Deadline(Law(-law.high, -law.low, -law.drift), -value) == Deadline(law, value)
  {}

  // ------------------------------------------------------- obligations

  datatype Obligation = Obligation(owner: string, originating: real, deadline: nat, capability: string, direction: int)

  const CAPABILITY_FOR_OWNER: map<string, string> := map[
    "energy" := "CHARGE", "fatigue" := "REST", "integrity" := "REST", "stimulation" := "INSPECT"
  ]

  const DIRECTION_FOR_OWNER: map<string, int> := map["energy" := 1, "fatigue" := -1, "integrity" := 1, "stimulation" := 1]

  /** The required effect pushes against the drift, for every listed owner. */
  lemma DirectionsOpposeDrift(owner: string)
    requires owner in LAWS
    ensures owner in DIRECTION_FOR_OWNER && owner in CAPABILITY_FOR_OWNER
    ensures DIRECTION_FOR_OWNER[owner] > 0 <==> LAWS[owner].drift < 0.0
    ensures LAWS[owner].drift != 0.0
  {}

  ghost function Owners(obligations: seq<Obligation>): seq<string> {
    seq(|obligations|, i requires 0 <= i < |obligations| => obligations[i].owner)
  }

  /** Owner `owner` owes something: its value is lost, or is in the band and will be. */
  ghost predicate Owing(state: map<string, real>, owner: string) {
    && owner in state && owner in LAWS
    && (InBand(LAWS[owner], state[owner]) || forall tick: nat :: !ViableAt(LAWS[owner], state[owner], tick))
  }

  lemma OwingExactly(state: map<string, real>, owner: string)
    requires owner in state && owner in LAWS
    ensures LAWS[owner].drift != 0.0
    ensures Owing(state, owner) <==> Deadline(LAWS[owner], state[owner]).Some?
  {
    ListedLawsAreSane(owner);
    if !InBand(LAWS[owner], state[owner]) {
      OutOfBandDeadline(LAWS[owner], state[owner]);
    }
  }

  ghost predicate Recorded(state: map<string, real>, o: Obligation) {
    && Owing(state, o.owner) && o.originating == state[o.owner] && LAWS[o.owner].drift != 0.0
    && Deadline(LAWS[o.owner], state[o.owner]) == Some(o.deadline)
    && o.owner in CAPABILITY_FOR_OWNER && o.capability == CAPABILITY_FOR_OWNER[o.owner]
    && o.owner in DIRECTION_FOR_OWNER && o.direction == DIRECTION_FOR_OWNER[o.owner]
  }

  /** The rows account for the first `i` owners of the listing. */
  ghost predicate Accounted(state: map<string, real>, listing: seq<string>, i: nat, rows: seq<Obligation>)
    requires i <= |listing|
  {
    && StrictlySorted(Owners(rows))
    && (forall owner :: owner in Owners(rows) <==> owner in listing[..i] && Owing(state, owner))
    && (forall o | o in rows :: Recorded(state, o))
  }

  lemma AccountedNext(state: map<string, real>, listing: seq<string>, i: nat, rows: seq<Obligation>, next: Option<Obligation>)
    requires StrictlySorted(listing) && i < |listing| && Accounted(state, listing, i, rows)
    requires next.Some? <==> Owing(state, listing[i])
    requires next.Some? ==> next.value.owner == listing[i] && Recorded(state, next.value)
    ensures Accounted(state, listing, i + 1, if next.Some? then rows + [next.value] else rows)
  {
    hide Owing, Recorded;
    assert listing[..i + 1] == listing[..i] + [listing[i]];
    var names := Owners(rows);
    if next.Some? {
      assert Owners(rows + [next.value]) == names + [listing[i]];
      forall k | 0 <= k < |names| ensures Lt(names[k], listing[i]) {
        assert names[k] in listing[..i];
      }
    }
  }

  lemma AccountedNone(state: map<string, real>, listing: seq<string>)
    ensures Accounted(state, listing, 0, [])
  {}

  lemma AccountedAll(state: map<string, real>, listing: seq<string>, rows: seq<Obligation>)
    requires Accounted(state, listing, |listing|, rows) && forall owner | owner in state :: owner in listing
    ensures StrictlySorted(Owners(rows))
    ensures forall owner :: owner in Owners(rows) <==> Owing(state, owner)
    ensures forall o | o in rows :: Recorded(state, o)
  {
    assert listing[..|listing|] == listing;
  }

  method ObligationOf(state: map<string, real>, owner: string) returns (next: Option<Obligation>)
    requires owner in state && owner in LAWS
    ensures next.Some? <==> Owing(state, owner)
    ensures next.Some? ==> next.value.owner == owner && Recorded(state, next.value)
  {
    OwingExactly(state, owner);
    DirectionsOpposeDrift(owner);
    var deadline := Deadline(LAWS[owner], state[owner]);
    if deadline.None? {
      return None;
    }
    next := Some(Obligation(owner, state[owner], deadline.value, CAPABILITY_FOR_OWNER[owner], DIRECTION_FOR_OWNER[owner]));
  }

  /**
   One obligation for every owing owner, in name order, and for no other.
   `None` stands for the key error an unlisted owner raises.
   */
  method Obligations(state: map<string, real>) returns (result: Option<seq<Obligation>>)
    ensures result.None? <==> !(state.Keys <= LAWS.Keys)
    ensures result.Some? ==>
              && StrictlySorted(Owners(result.value))
              && (forall owner :: owner in Owners(result.value) <==> Owing(state, owner))
              && (forall o | o in result.value :: Recorded(state, o))
  {
    hide Owing, Recorded, Accounted, StrictlySorted;
    var listing := SortNames(state.Keys);
    var rows: seq<Obligation> := [];
    AccountedNone(state, listing);
    var i := 0;
    while i < |listing|
      invariant 0 <= i <= |listing|
      invariant forall k | 0 <= k < i :: listing[k] in LAWS
      invariant Accounted(state, listing, i, rows)
    {
      var owner := listing[i];
      assert owner in listing;
      if owner !in LAWS {
        return None;
      }
      var next := ObligationOf(state, owner);
      AccountedNext(state, listing, i, rows, next);
      if next.Some? {
        rows := rows + [next.value];
      }
      i := i + 1;
    }
    AccountedAll(state, listing, rows);
    forall owner | owner in state ensures owner in LAWS {
      assert owner in listing;
    }
    result := Some(rows);
  }
}
