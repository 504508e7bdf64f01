/**
 Whole runs of the interleaved publishers: what holds at every moment of every
 run, and exactly when a published target can be replaced by another payload.
 */
module PublisherRuns {
  import opened FileStore
  import opened Publishers
  import opened Wrappers

  datatype Event = Event(publisher: nat, choice: Choice)

  ghost predicate Steps(s: System, e: Event, s': System) {
    Valid(s.disk) && Runnable(s, e.publisher, e.choice) && s' == Next(s, e.publisher, e.choice)
  }

  /** A run: any interleaving, with any partial writes and any raised errors. */
  ghost predicate IsRun(run: seq<System>, events: seq<Event>) {
    && |run| == |events| + 1 && Initial(run[0])
    && forall i | 0 <= i < |events| :: Steps(run[i], events[i], run[i + 1])
  }

  // --------------------------------------------------- safety of every run

  lemma {:induction false} RunInv(run: seq<System>, events: seq<Event>, i: nat)
    requires IsRun(run, events) && i <= |events|
    ensures Inv(run[0], run[i]) && run[i].procs.Keys == run[0].procs.Keys
    ensures forall p | p in run[0].procs ::
              run[i].procs[p].payload == run[0].procs[p].payload && run[i].procs[p].kind == run[0].procs[p].kind
  {
    hide Inv;
    if i == 0 {
      InitialInv(run[0]);
    } else {
      RunInv(run, events, i - 1);
      assert Steps(run[i - 1], events[i - 1], run[i]);
      NextInv(run[0], run[i - 1], events[i - 1].publisher, events[i - 1].choice);
      PayloadsFixed(run[i - 1], events[i - 1].publisher, events[i - 1].choice);
    }
  }

  lemma InvGivesValid(s0: System, s: System)
    requires Inv(s0, s)
    ensures Valid(s0.disk) && Valid(s.disk)
  {}

  /** What is under the target is what was there at first or one publisher's whole payload, never a mixture. */
  ghost predicate OneWholePayload(s0: System, content: Option<Bytes>)
    requires Valid(s0.disk)
  {
    content == Read(s0.disk, Target) || exists p | p in s0.procs :: content == Some(s0.procs[p].payload)
  }

  lemma WholeInState(s0: System, s: System, content: Option<Bytes>)
    requires Inv(s0, s) && s.procs.Keys == s0.procs.Keys
    requires forall p | p in s0.procs :: s.procs[p].payload == s0.procs[p].payload
    requires CrashReads(s.disk, Target, content) || content == Read(s.disk, Target)
    ensures OneWholePayload(s0, content)
  {}

  /** In every run the target holds one whole payload at every moment, before and after a crash at that moment. */
  lemma NeverAMixture(run: seq<System>, events: seq<Event>, i: nat)
    requires IsRun(run, events) && i <= |events|
    ensures Valid(run[0].disk) && Valid(run[i].disk)
    ensures OneWholePayload(run[0], Read(run[i].disk, Target))
    ensures forall content | CrashReads(run[i].disk, Target, content) :: OneWholePayload(run[0], content)
  {
    RunInv(run, events, i);
    hide Inv, CrashReads, Read, OneWholePayload;
    InvGivesValid(run[0], run[i]);
    WholeInState(run[0], run[i], Read(run[i].disk, Target));
    forall content | CrashReads(run[i].disk, Target, content) ensures OneWholePayload(run[0], content) {
      WholeInState(run[0], run[i], content);
    }
  }

  // ------------------------------------------------- when content can change

  /** The next event of the run replaces the target. */
  ghost predicate Replaces(s: System, e: Event) {
    e.publisher in s.procs && s.procs[e.publisher].pc.Ready?
  }

  /** The next event is an existence check that finds no target. */
  ghost predicate ChecksAbsent(s: System, e: Event) {
    && e.publisher in s.procs && Target !in s.disk.dir
    && var q := s.procs[e.publisher];
       (q.pc.Start? && !q.kind.Capture?) || (q.pc.Synced? && !q.kind.Idempotent?)
  }

  /** No replace falls between some check of the publisher that found nothing and its own replace, at event `i`. */
  ghost predicate ReplaceIsGuarded(run: seq<System>, events: seq<Event>, i: nat)
    requires |run| == |events| + 1 && i < |events|
  {
    exists j | 0 <= j < i && events[j].publisher == events[i].publisher ::
      ChecksAbsent(run[j], events[j]) && forall k | j < k < i :: !Replaces(run[k], events[k])
  }

  /** Everything but a replace leaves the target alone. */
  lemma OthersLeaveTarget(s0: System, s: System, e: Event, s': System)
    requires Inv(s0, s) && Steps(s, e, s') && !Replaces(s, e)
    ensures Valid(s'.disk) && Read(s'.disk, Target) == Read(s.disk, Target)
    ensures Target in s'.disk.dir <==> Target in s.disk.dir
    ensures Target in s.disk.dir ==> s'.disk.dir[Target] < |s'.disk.files| && s.disk.dir[Target] < |s.disk.files|
                                     && s'.disk.files[s'.disk.dir[Target]] == s.disk.files[s.disk.dir[Target]]
  {
    NextInv(s0, s, e.publisher, e.choice);
    InvGivesValid(s0, s');
    assert TempInvariant(s, e.publisher);
    assert s.disk.dir in s.disk.versions && s'.disk.dir in s'.disk.versions;
    hide Inv;
  }

  lemma ReplacePutsTarget(s: System, e: Event, s': System)
    requires Steps(s, e, s') && Replaces(s, e)
    ensures Target in s'.disk.dir
  {}

  /** A target that is present stays present. */
  lemma {:induction false} TargetStays(run: seq<System>, events: seq<Event>, j: nat, i: nat)
    requires IsRun(run, events) && j <= i <= |events| && Target in run[j].disk.dir
    ensures Target in run[i].disk.dir
  {
    if j < i {
      TargetStays(run, events, j, i - 1);
      StepFacts(run, events, i - 1);
    }
  }

  /** A target that is absent stays absent until a replace. */
  lemma {:induction false} TargetStaysAway(run: seq<System>, events: seq<Event>, j: nat, i: nat)
    requires IsRun(run, events) && j <= i <= |events| && Target !in run[j].disk.dir
    requires forall k | j <= k < i :: !Replaces(run[k], events[k])
    ensures Target !in run[i].disk.dir
  {
    if j < i {
      TargetStaysAway(run, events, j, i - 1);
      StepFacts(run, events, i - 1);
    }
  }

  lemma StepFacts(run: seq<System>, events: seq<Event>, i: nat)
    requires IsRun(run, events) && i < |events|
    ensures Steps(run[i], events[i], run[i + 1])
    ensures Valid(run[i].disk) && Valid(run[i + 1].disk)
    ensures Replaces(run[i], events[i]) ==> Target in run[i + 1].disk.dir
    ensures !Replaces(run[i], events[i]) ==>
              && Read(run[i + 1].disk, Target) == Read(run[i].disk, Target)
              && (Target in run[i + 1].disk.dir <==> Target in run[i].disk.dir)
  {
    assert Steps(run[i], events[i], run[i + 1]);
    RunInv(run, events, i);
    RunInv(run, events, i + 1);
    hide Steps, Replaces, IsRun, Inv;
    InvGivesValid(run[0], run[i]);
    InvGivesValid(run[0], run[i + 1]);
    if Replaces(run[i], events[i]) {
      ReplacePutsTarget(run[i], events[i], run[i + 1]);
    } else {
      OthersLeaveTarget(run[0], run[i], events[i], run[i + 1]);
    }
  }

  /** The points at which a publisher has passed the last check it makes before replacing. */
  ghost predicate PastCheck(q: Proc) {
    q.pc.Ready? || (q.kind.Idempotent? && (q.pc.Opening? || Holding(q.pc)))
  }

  lemma PastCheckStep(s: System, e: Event, s': System, r: nat)
    requires Steps(s, e, s') && r in s.procs && r in s'.procs && PastCheck(s'.procs[r])
    ensures PastCheck(s.procs[r]) || (e.publisher == r && ChecksAbsent(s, e))
  {}

  /** Nobody reaches its replace without a check of its own that found nothing. */
  lemma {:induction false} ChecksBeforeReplace(run: seq<System>, events: seq<Event>, i: nat, p: nat) returns (j: nat)
    requires IsRun(run, events) && i <= |events| && p in run[i].procs && PastCheck(run[i].procs[p])
    ensures j < i && events[j].publisher == p && ChecksAbsent(run[j], events[j])
  {
    hide Steps, Inv, ChecksAbsent;
    assert i > 0 && Steps(run[i - 1], events[i - 1], run[i]);
    hide IsRun, PastCheck;
    RunInv(run, events, i);
    RunInv(run, events, i - 1);
    PastCheckStep(run[i - 1], events[i - 1], run[i], p);
    if PastCheck(run[i - 1].procs[p]) {
      j := ChecksBeforeReplace(run, events, i - 1, p);
    } else {
      j := i - 1;
    }
  }

  /** A replace overwrites a published target exactly when another replace fell after the publisher's last check. */
  lemma ReplaceOverwritesExactly(run: seq<System>, events: seq<Event>, i: nat)
    requires IsRun(run, events) && i < |events| && Replaces(run[i], events[i])
    ensures Target in run[i].disk.dir <==> !ReplaceIsGuarded(run, events, i)
  {
    hide Steps;
    if ReplaceIsGuarded(run, events, i) {
      var j :| 0 <= j < i && events[j].publisher == events[i].publisher
               && ChecksAbsent(run[j], events[j]) && forall k | j < k < i :: !Replaces(run[k], events[k]);
      assert !Replaces(run[j], events[j]);
      TargetStaysAway(run, events, j, i);
    }
    if Target !in run[i].disk.dir {
      var j := ChecksBeforeReplace(run, events, i, events[i].publisher);
      forall k | j < k < i ensures !Replaces(run[k], events[k]) {
        StepFacts(run, events, k);
        if Target in run[k + 1].disk.dir {
          TargetStays(run, events, k + 1, i);
        }
      }
    }
  }

  ghost predicate AllGuarded(run: seq<System>, events: seq<Event>)
    requires |run| == |events| + 1
  {
    forall i | 0 <= i < |events| && Replaces(run[i], events[i]) :: ReplaceIsGuarded(run, events, i)
  }

  /** When every replace is guarded, content under the target never changes after it first appears. */
  lemma {:induction false} CreateOnce(run: seq<System>, events: seq<Event>, i: nat, k: nat)
    requires IsRun(run, events) && AllGuarded(run, events) && i <= k <= |events| && Target in run[i].disk.dir
    ensures Valid(run[i].disk) && Valid(run[k].disk)
    ensures Target in run[k].disk.dir && Read(run[k].disk, Target) == Read(run[i].disk, Target)
  {
    hide Steps;
    if i == k {
      RunInv(run, events, i);
    } else {
      CreateOnce(run, events, i, k - 1);
      StepFacts(run, events, k - 1);
      if Replaces(run[k - 1], events[k - 1]) {
        ReplaceOverwritesExactly(run, events, k - 1);
      }
    }
  }
}
