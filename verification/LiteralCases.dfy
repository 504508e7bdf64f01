/** The locked literal cases: frontiers of four-drive rows and the reported case counters. */
module LiteralCases {
  import opened Dominance
  import opened PartialOrder

  type Candidates = map<string, Levels>

  function DominatedIn(candidates: Candidates): set<string> {
    set name | name in candidates && exists other | other in candidates :: other != name && LevelsDominate(candidates[other], candidates[name])
  }

  ghost predicate FourDrives(candidates: Candidates) {
    forall name | name in candidates :: |candidates[name]| == |DRIVES|
  }

  /** A case with four-drive rows keeps a candidate, and each eliminated one is beaten by one that is kept. */
  lemma CaseKeepsSurvivor(candidates: Candidates, name: string)
    requires FourDrives(candidates) && name in candidates
    ensures exists kept :: kept in candidates.Keys - DominatedIn(candidates)
              && (kept == name || LevelsDominate(candidates[kept], candidates[name]))
  {
    var beats := (x: string, y: string) => x in candidates && y in candidates && LevelsDominate(candidates[x], candidates[y]);
    LevelsOrdered(candidates);
    var kept := DominatedBySurvivor(candidates.Keys, beats, name);
    hide LevelsDominate;
    assert kept !in DominatedIn(candidates) by {
      assert forall x | x in candidates :: !beats(x, kept);
    }
  }

  lemma LevelsOrdered(candidates: Candidates)
    requires FourDrives(candidates)
    ensures StrictOrderOn(candidates.Keys,
              (x: string, y: string) => x in candidates && y in candidates && LevelsDominate(candidates[x], candidates[y]))
  {}

  /** The eliminated names of a case are exactly those another row dominates in every known drive. */
  lemma DominatedExactly(candidates: Candidates, name: string)
    requires FourDrives(candidates)
    ensures name in DominatedIn(candidates) <==>
              && name in candidates
              && exists other | other in candidates :: other != name && RowBeats(candidates[other], candidates[name])
  {}

  /** Every level of both rows is known, none is lower and some is higher. */
  ghost predicate RowBeats(a: Levels, b: Levels) {
    && |a| == |b|
    && (forall i | 0 <= i < |a| :: a[i].Some? && b[i].Some? && a[i].value >= b[i].value)
    && (exists i | 0 <= i < |a| :: a[i].value > b[i].value)
  }

  datatype Metrics = Metrics(reductions: nat, residuals: nat, saturated: nat)

  datatype Condition = Reduced | Residual | Saturated

  predicate Meets(candidates: Candidates, condition: Condition) {
    match condition
    case Reduced => DominatedIn(candidates) != {}
    case Residual => |candidates.Keys - DominatedIn(candidates)| > 1
    case Saturated => candidates.Keys - DominatedIn(candidates) == candidates.Keys
  }

  /** How many of the first `n` cases meet a condition. */
  ghost function Count(cases: seq<Candidates>, n: nat, condition: Condition): nat
    requires n <= |cases|
  {
    if n == 0 then 0 else Count(cases, n - 1, condition) + if Meets(cases[n - 1], condition) then 1 else 0
  }

  lemma CaseFacts(candidates: Candidates)
    ensures |candidates.Keys - DominatedIn(candidates)| == |candidates| <==> Meets(candidates, Saturated)
    ensures Meets(candidates, Saturated) <==> !Meets(candidates, Reduced)
  {}

  lemma CountNext(cases: seq<Candidates>, k: nat, condition: Condition)
    requires k < |cases|
    ensures Count(cases, k + 1, condition) == Count(cases, k, condition) + if Meets(cases[k], condition) then 1 else 0
  {}

  /** One case, read off its frontier. */
  method EvaluateCase(candidates: Candidates) returns (reduced: bool, residual: bool, saturated: bool)
    ensures (reduced <==> Meets(candidates, Reduced)) && (residual <==> Meets(candidates, Residual))
    ensures saturated <==> Meets(candidates, Saturated)
  {
    CaseFacts(candidates);
    hide DominatedIn;
    var dominated := DominatedIn(candidates);
    var frontier := candidates.Keys - dominated;
    reduced, residual, saturated := dominated != {}, |frontier| > 1, |frontier| == |candidates|;
  }

  /** The three counters; every case is counted once, as a reduction or as saturated. */
  method EvaluateCases(cases: seq<Candidates>) returns (metrics: Metrics)
    ensures metrics.reductions == Count(cases, |cases|, Reduced)
    ensures metrics.residuals == Count(cases, |cases|, Residual)
    ensures metrics.saturated == Count(cases, |cases|, Saturated)
    ensures metrics.reductions + metrics.saturated == |cases|
  {
    hide Meets, DominatedIn;
    var reductions, residuals, saturated := 0, 0, 0;
    var k := 0;
    while k < |cases|
      invariant 0 <= k <= |cases|
      invariant reductions == Count(cases, k, Reduced) && saturated == Count(cases, k, Saturated)
      invariant residuals == Count(cases, k, Residual)
      invariant reductions + saturated == k
    {
      CaseFacts(cases[k]);
      hide Count;
      CountNext(cases, k, Reduced);
      CountNext(cases, k, Residual);
      CountNext(cases, k, Saturated);
      var reduced, residual, full := EvaluateCase(cases[k]);
      if reduced {
        reductions := reductions + 1;
      }
      if residual {
        residuals := residuals + 1;
      }
      if full {
        saturated := saturated + 1;
      }
      k := k + 1;
    }
    metrics := Metrics(reductions, residuals, saturated);
  }

  /** The residual counter in full: at least the saturated cases with two or more candidates. */
  lemma SaturatedCasesAreResidual(candidates: Candidates)
    requires Meets(candidates, Saturated) && |candidates| >= 2
    ensures Meets(candidates, Residual)
  {}
}
