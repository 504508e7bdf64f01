/**
 The pairwise audit of candidate profiles, and what its subtracted count says
 about pairs that share a classification but not their immediate successor.
 */
module ProfileAudit {
  import opened PairCounts

  type State = map<string, real>

  /** A candidate with its classification and the effect branches of its capability. */
  datatype Candidate = Candidate(classification: string, effects: seq<State>)

  /** One tick: its physiology, its services that are MUST or MAY, and its candidates. */
  datatype Tick = Tick(physiology: State, witnesses: seq<string>, candidates: seq<Candidate>)

  /** What the audit compares; the remaining compared fields are counted the same way. */
  datatype Record = Record(classification: string, fullWitnesses: seq<seq<string>>, effects: seq<State>, resulting: seq<State>)

  function Get(state: State, owner: string): real {
    if owner in state then state[owner] else 0.0
  }

  function Applied(physiology: State, effect: State): State {
    map owner | owner in physiology :: physiology[owner] + Get(effect, owner)
  }

  function RecordOf(tick: Tick, candidate: Candidate): Record {
    Record(candidate.classification,
           seq(|candidate.effects|, _ => tick.witnesses),
           candidate.effects,
           seq(|candidate.effects|, b requires 0 <= b < |candidate.effects| => Applied(tick.physiology, candidate.effects[b])))
  }

  // ------------------------------------------------ what differences mean

  /** Full witness sets differ exactly where the branch counts differ. */
  lemma WitnessesDifferWithBranchCount(tick: Tick, left: Candidate, right: Candidate)
    ensures RecordOf(tick, left).fullWitnesses != RecordOf(tick, right).fullWitnesses <==> |left.effects| != |right.effects|
  {}

  /** Two effects treat some owner of the physiology differently; a missing owner counts as no change. */
  ghost predicate Tells(physiology: State, left: State, right: State) {
    exists owner | owner in physiology :: Get(left, owner) != Get(right, owner)
  }

  lemma AppliedDiffersExactly(physiology: State, left: State, right: State)
    ensures Applied(physiology, left) != Applied(physiology, right) <==> Tells(physiology, left, right)
  {
    if owner :| owner in physiology && Get(left, owner) != Get(right, owner) {
      assert Applied(physiology, left)[owner] != Applied(physiology, right)[owner];
    }
  }

  /** Resulting states differ exactly when the branch counts do or some branch treats an owner differently. */
  lemma ResultingDiffersExactly(tick: Tick, left: Candidate, right: Candidate)
    ensures RecordOf(tick, left).resulting != RecordOf(tick, right).resulting
       <==> |left.effects| != |right.effects|
            || exists b | 0 <= b < |left.effects| :: Tells(tick.physiology, left.effects[b], right.effects[b])
  {
    var l, r := RecordOf(tick, left).resulting, RecordOf(tick, right).resulting;
    hide Applied, Tells;
    if |left.effects| == |right.effects| {
      forall b | 0 <= b < |left.effects|
        ensures l[b] != r[b] <==> Tells(tick.physiology, left.effects[b], right.effects[b])
      {
        AppliedDiffersExactly(tick.physiology, left.effects[b], right.effects[b]);
      }
    }
  }

  /** The audit keeps the classification and the effects of every candidate, and the services of the tick for every branch. */
  lemma RecordsKeep(tick: Tick, left: Candidate, right: Candidate)
    ensures RecordOf(tick, left).classification == RecordOf(tick, right).classification <==> left.classification == right.classification
    ensures RecordOf(tick, left).effects == RecordOf(tick, right).effects <==> left.effects == right.effects
    ensures forall services | services in RecordOf(tick, left).fullWitnesses :: services == tick.witnesses
  {}

  // ------------------------------------------------------------- counting

  predicate ClassDiffers(left: Record, right: Record) {
    left.classification != right.classification
  }

  predicate ResultingDiffers(left: Record, right: Record) {
    left.resulting != right.resulting
  }

  predicate WitnessesDiffer(left: Record, right: Record) {
    left.fullWitnesses != right.fullWitnesses
  }

  predicate EffectsDiffer(left: Record, right: Record) {
    left.effects != right.effects
  }

  predicate Always(left: Record, right: Record) {
    true
  }

  /** The pairs the published count is about: equal classification, different immediate successor. */
  predicate Compressed(left: Record, right: Record) {
    !ClassDiffers(left, right) && ResultingDiffers(left, right)
  }

  /** The pairs that spoil the subtraction: different classification, equal immediate successor. */
  predicate Masked(left: Record, right: Record) {
    ClassDiffers(left, right) && !ResultingDiffers(left, right)
  }

  predicate BothDiffer(left: Record, right: Record) {
    ClassDiffers(left, right) && ResultingDiffers(left, right)
  }

  function Records(tick: Tick): seq<Record> {
    seq(|tick.candidates|, k requires 0 <= k < |tick.candidates| => RecordOf(tick, tick.candidates[k]))
  }

  /** The pairs of all ticks together. */
  ghost function Total(ticks: seq<Tick>, related: (Record, Record) -> bool): nat {
    if ticks == [] then 0 else Total(ticks[..|ticks| - 1], related) + PairCount(Records(ticks[|ticks| - 1]), related)
  }

  lemma {:induction false} TotalSplits(
      ticks: seq<Tick>, p: (Record, Record) -> bool, q: (Record, Record) -> bool, either: (Record, Record) -> bool)
    requires forall x, y :: !(p(x, y) && q(x, y)) && (either(x, y) <==> p(x, y) || q(x, y))
    ensures Total(ticks, p) + Total(ticks, q) == Total(ticks, either)
  {
    if ticks != [] {
      TotalSplits(ticks[..|ticks| - 1], p, q, either);
      PairCountSplits(Records(ticks[|ticks| - 1]), p, q, either);
    }
  }

  lemma {:induction false} TotalPositive(ticks: seq<Tick>, related: (Record, Record) -> bool)
    ensures Total(ticks, related) > 0 <==> SomePair(ticks, related)
  {
    if ticks != [] {
      var rest, last := ticks[..|ticks| - 1], ticks[|ticks| - 1];
      assert ticks == rest + [last];
      TotalPositive(rest, related);
      PairCountPositive(Records(last), related);
      assert last in ticks;
    }
  }

  ghost predicate SomePair(ticks: seq<Tick>, related: (Record, Record) -> bool) {
    exists tick | tick in ticks :: PairIn(Records(tick), related)
  }

  ghost predicate PairIn(records: seq<Record>, related: (Record, Record) -> bool) {
    exists i, j | 0 <= i < j < |records| :: related(records[i], records[j])
  }

  /** The subtraction falls short of the true count by exactly the masked pairs. */
  lemma CompressedCountExactly(ticks: seq<Tick>)
    ensures var reported := Total(ticks, ResultingDiffers) - Total(ticks, ClassDiffers);
            && reported == Total(ticks, Compressed) - Total(ticks, Masked)
            && reported <= Total(ticks, Compressed)
            && (reported == Total(ticks, Compressed) <==> !SomePair(ticks, Masked))
  {
    TotalSplits(ticks, Compressed, BothDiffer, ResultingDiffers);
    TotalSplits(ticks, Masked, BothDiffer, ClassDiffers);
    TotalPositive(ticks, Masked);
  }

  /** The report can even be negative: two classes over the same effects, whatever the effects and the physiology. */
  lemma ReportCanBeNegative(physiology: State, witnesses: seq<string>, effects: seq<State>, x: string, y: string)
    requires x != y
    ensures var tick := Tick(physiology, witnesses, [Candidate(x, effects), Candidate(y, effects)]);
            Total([tick], ResultingDiffers) - Total([tick], ClassDiffers) == -1
  {
    var tick := Tick(physiology, witnesses, [Candidate(x, effects), Candidate(y, effects)]);
    var records := Records(tick);
    assert records[1..] == [records[1]] && [records[1]][1..] == [];
    assert RowCount(records[0], [], ClassDiffers) == 0 == RowCount(records[0], [], ResultingDiffers);
    assert PairCount([records[1]], ClassDiffers) == 0 == PairCount([records[1]], ResultingDiffers);
    assert records[0].resulting == records[1].resulting;
    assert PairCount(records, ClassDiffers) == 1;
    assert PairCount(records, ResultingDiffers) == 0;
    assert [tick][..0] == [];
  }

  datatype Summary = Summary(
    frames: nat, pairs: nat, classification: nat, fullWitnesses: nat, effects: nat, resulting: nat, compressed: int)

  /** The audit loop over ticks and candidate pairs. */
  method Summarize(ticks: seq<Tick>) returns (s: Summary)
    ensures s.frames == CountWhere(ticks, (tick: Tick) => tick.candidates != [])
    ensures s.pairs == Total(ticks, Always)
    ensures s.classification == Total(ticks, ClassDiffers) && s.resulting == Total(ticks, ResultingDiffers)
    ensures s.fullWitnesses == Total(ticks, WitnessesDiffer) && s.effects == Total(ticks, EffectsDiffer)
    ensures s.compressed == Total(ticks, Compressed) - Total(ticks, Masked)
  {
    s := Summary(0, 0, 0, 0, 0, 0, 0);
    ghost var some := (tick: Tick) => tick.candidates != [];
    for k := 0 to |ticks|
      invariant s.frames == CountWhere(ticks[..k], some)
      invariant s.pairs == Total(ticks[..k], Always)
      invariant s.classification == Total(ticks[..k], ClassDiffers) && s.resulting == Total(ticks[..k], ResultingDiffers)
      invariant s.fullWitnesses == Total(ticks[..k], WitnessesDiffer) && s.effects == Total(ticks[..k], EffectsDiffer)
    {
      assert ticks[..k + 1][..k] == ticks[..k];
      s := TallyPairs(s, Records(ticks[k]));
      if ticks[k].candidates != [] {
        s := s.(frames := s.frames + 1);
      }
    }
    assert ticks[..|ticks|] == ticks;
    CompressedCountExactly(ticks);
    s := s.(compressed := s.resulting - s.classification);
  }

  method TallyPairs(before: Summary, records: seq<Record>) returns (s: Summary)
    ensures s.frames == before.frames && s.pairs == before.pairs + PairCount(records, Always)
    ensures s.classification == before.classification + PairCount(records, ClassDiffers)
    ensures s.resulting == before.resulting + PairCount(records, ResultingDiffers)
    ensures s.fullWitnesses == before.fullWitnesses + PairCount(records, WitnessesDiffer)
    ensures s.effects == before.effects + PairCount(records, EffectsDiffer)
  {
    s := before;
    for i := 0 to |records|
      invariant s.frames == before.frames && s.pairs + PairCount(records[i..], Always) == before.pairs + PairCount(records, Always)
      invariant s.classification + PairCount(records[i..], ClassDiffers) == before.classification + PairCount(records, ClassDiffers)
      invariant s.resulting + PairCount(records[i..], ResultingDiffers) == before.resulting + PairCount(records, ResultingDiffers)
      invariant s.fullWitnesses + PairCount(records[i..], WitnessesDiffer) == before.fullWitnesses + PairCount(records, WitnessesDiffer)
      invariant s.effects + PairCount(records[i..], EffectsDiffer) == before.effects + PairCount(records, EffectsDiffer)
    {
      assert records[i..][1..] == records[i + 1..];
      s := TallyRow(s, records[i], records[i + 1..]);
    }
  }

  method TallyRow(before: Summary, left: Record, rest: seq<Record>) returns (s: Summary)
    ensures s.frames == before.frames && s.pairs == before.pairs + RowCount(left, rest, Always)
    ensures s.classification == before.classification + RowCount(left, rest, ClassDiffers)
    ensures s.resulting == before.resulting + RowCount(left, rest, ResultingDiffers)
    ensures s.fullWitnesses == before.fullWitnesses + RowCount(left, rest, WitnessesDiffer)
    ensures s.effects == before.effects + RowCount(left, rest, EffectsDiffer)
  {
    s := before;
    for j := 0 to |rest|
      invariant s.frames == before.frames && s.pairs + RowCount(left, rest[j..], Always) == before.pairs + RowCount(left, rest, Always)
      invariant s.classification + RowCount(left, rest[j..], ClassDiffers) == before.classification + RowCount(left, rest, ClassDiffers)
      invariant s.resulting + RowCount(left, rest[j..], ResultingDiffers) == before.resulting + RowCount(left, rest, ResultingDiffers)
      invariant s.fullWitnesses + RowCount(left, rest[j..], WitnessesDiffer) == before.fullWitnesses + RowCount(left, rest, WitnessesDiffer)
      invariant s.effects + RowCount(left, rest[j..], EffectsDiffer) == before.effects + RowCount(left, rest, EffectsDiffer)
    {
      assert rest[j..][1..] == rest[j + 1..];
      var right := rest[j];
      s := s.(pairs := s.pairs + 1,
              classification := s.classification + if ClassDiffers(left, right) then 1 else 0,
              resulting := s.resulting + if ResultingDiffers(left, right) then 1 else 0,
              fullWitnesses := s.fullWitnesses + if WitnessesDiffer(left, right) then 1 else 0,
              effects := s.effects + if EffectsDiffer(left, right) then 1 else 0);
    }
  }

  lemma {:induction false} AllRowPairs(left: Record, rest: seq<Record>)
    ensures RowCount(left, rest, Always) == |rest|
  {
    if rest != [] {
      AllRowPairs(left, rest[1..]);
    }
  }

  /** Each tick contributes all its n(n-1)/2 pairs. */
  lemma {:induction false} AllPairs(records: seq<Record>)
    ensures PairCount(records, Always) == Choose2(|records|)
  {
    if records != [] {
      AllRowPairs(records[0], records[1..]);
      AllPairs(records[1..]);
      Choose2Next(|records| - 1);
    }
  }

  lemma {:induction false} SameRow(
      x: Record, rest: seq<Record>, related: (Record, Record) -> bool, c: Candidate, others: seq<Candidate>, on: (Candidate, Candidate) -> bool)
    requires |rest| == |others| && forall k | 0 <= k < |rest| :: related(x, rest[k]) <==> on(c, others[k])
    ensures RowCount(x, rest, related) == RowCount(c, others, on)
  {
    if rest != [] {
      SameRow(x, rest[1..], related, c, others[1..], on);
    }
  }

  lemma {:induction false} SamePairs(
      records: seq<Record>, related: (Record, Record) -> bool, candidates: seq<Candidate>, on: (Candidate, Candidate) -> bool)
    requires |records| == |candidates|
    requires forall i, j | 0 <= i < j < |records| :: related(records[i], records[j]) <==> on(candidates[i], candidates[j])
    ensures PairCount(records, related) == PairCount(candidates, on)
  {
    if records != [] {
      forall k | 0 <= k < |records[1..]| ensures related(records[0], records[1..][k]) <==> on(candidates[0], candidates[1..][k]) {
        assert records[1..][k] == records[k + 1] && candidates[1..][k] == candidates[k + 1];
      }
      SameRow(records[0], records[1..], related, candidates[0], candidates[1..], on);
      SamePairs(records[1..], related, candidates[1..], on);
    }
  }

  /** The counters of a tick are counters of pairs of its candidates. */
  lemma PairsOfCandidates(tick: Tick)
    ensures PairCount(Records(tick), Always) == Choose2(|tick.candidates|)
    ensures PairCount(Records(tick), ClassDiffers)
         == PairCount(tick.candidates, (l: Candidate, r: Candidate) => l.classification != r.classification)
    ensures PairCount(Records(tick), EffectsDiffer) == PairCount(tick.candidates, (l: Candidate, r: Candidate) => l.effects != r.effects)
    ensures PairCount(Records(tick), WitnessesDiffer) == PairCount(tick.candidates, (l: Candidate, r: Candidate) => |l.effects| != |r.effects|)
  {
    var records, candidates := Records(tick), tick.candidates;
    AllPairs(records);
    hide Applied;
    forall i, j | 0 <= i < |records| && 0 <= j < |records|
      ensures WitnessesDiffer(records[i], records[j]) <==> |candidates[i].effects| != |candidates[j].effects|
    {
      WitnessesDifferWithBranchCount(tick, candidates[i], candidates[j]);
    }
    SamePairs(records, ClassDiffers, candidates, (l: Candidate, r: Candidate) => l.classification != r.classification);
    SamePairs(records, EffectsDiffer, candidates, (l: Candidate, r: Candidate) => l.effects != r.effects);
    SamePairs(records, WitnessesDiffer, candidates, (l: Candidate, r: Candidate) => |l.effects| != |r.effects|);
  }

  /** A resulting state has the same owners, each at its value plus its effect. */
  lemma AppliedMeans(physiology: State, effect: State, owner: string)
    ensures owner in Applied(physiology, effect) <==> owner in physiology
    ensures owner in physiology ==>
              Applied(physiology, effect)[owner] == if owner in effect then physiology[owner] + effect[owner] else physiology[owner]
  {}
}
