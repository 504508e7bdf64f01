/**
 What a publisher's report says in every run: what an existing target makes of
 each kind, what success has seen, and that finished publishers leave no litter.
 */
module PublisherReports {
  import opened FileStore
  import opened Publishers
  import opened PublisherRuns
  import opened Wrappers

  // -------------------------------------------------- an existing target

  /** Where a publisher can stand in a run that started with a target. */
  ghost predicate HeldBack(q: Proc, content: Bytes) {
    match q.kind
    case Capture => !q.pc.Ready? && !q.pc.Replaced? && !q.pc.DirectorySynced? && !q.pc.Done?
    case Ledger => q.pc.Start? || q.pc.Failed?
    case Idempotent => q.pc.Start? || (if content == q.payload then q.pc.Done? else q.pc.Failed?)
  }

  lemma HeldBackStep(s: System, e: Event, s': System, content: Bytes, p: nat)
    requires Steps(s, e, s') && Valid(s.disk) && Read(s.disk, Target) == Some(content)
    requires p in s.procs && p in s'.procs && HeldBack(s.procs[p], content)
    ensures HeldBack(s'.procs[p], content)
  {}

  lemma HeldBackNeverReplaces(s: System, e: Event, content: Bytes)
    requires e.publisher in s.procs && HeldBack(s.procs[e.publisher], content)
    ensures !Replaces(s, e)
  {}

  /** The target holds this content and holds everybody back. */
  ghost predicate AllHeldBack(s: System, content: Bytes) {
    && Valid(s.disk) && Read(s.disk, Target) == Some(content)
    && forall p | p in s.procs :: HeldBack(s.procs[p], content)
  }

  lemma AllHeldBackStep(s0: System, s: System, e: Event, s': System, content: Bytes)
    requires Inv(s0, s) && Inv(s0, s') && Steps(s, e, s') && s.procs.Keys == s'.procs.Keys && AllHeldBack(s, content)
    ensures AllHeldBack(s', content)
  {
    StepsByMember(s, e, s');
    hide Valid, Read, HeldBack, Inv, Steps, Replaces;
    forall p | p in s'.procs ensures HeldBack(s'.procs[p], content) {
      HeldBackStep(s, e, s', content, p);
    }
    HeldBackNeverReplaces(s, e, content);
    OthersLeaveTarget(s0, s, e, s');
  }

  lemma AllHeldBackNext(run: seq<System>, events: seq<Event>, i: nat, content: Bytes)
    requires IsRun(run, events) && |run| == |events| + 1 && i < |events| && AllHeldBack(run[i], content)
    ensures AllHeldBack(run[i + 1], content)
  {
    assert Steps(run[i], events[i], run[i + 1]);
    hide *;
    RunInv(run, events, i);
    RunInv(run, events, i + 1);
    AllHeldBackStep(run[0], run[i], events[i], run[i + 1], content);
  }

  lemma FirstHeldBack(run: seq<System>, events: seq<Event>, content: Bytes)
    requires IsRun(run, events) && |run| == |events| + 1 && Valid(run[0].disk) && Read(run[0].disk, Target) == Some(content)
    ensures AllHeldBack(run[0], content)
  {
    assert Initial(run[0]);
  }

  /**
   A target present at the start is never touched, in any run: every publisher is
   held back, so a ledger fails, an idempotent one succeeds exactly when the content
   is its own payload and fails otherwise, and a capture never succeeds.
   */
  lemma {:induction false} ExistingTargetStays(run: seq<System>, events: seq<Event>, i: nat, content: Bytes)
    requires IsRun(run, events) && |run| == |events| + 1 && i <= |events|
    requires Valid(run[0].disk) && Read(run[0].disk, Target) == Some(content)
    ensures AllHeldBack(run[i], content)
  {
    hide *;
    if i == 0 {
      FirstHeldBack(run, events, content);
    } else {
      ExistingTargetStays(run, events, i - 1, content);
      AllHeldBackNext(run, events, i - 1, content);
    }
  }

  lemma StepsByMember(s: System, e: Event, s': System)
    requires Steps(s, e, s')
    ensures e.publisher in s.procs
  {}

  // --------------------------------------------------- what success has seen

  lemma SuccessStep(s: System, e: Event, s': System, p: nat)
    requires Steps(s, e, s') && Valid(s.disk) && p in s.procs && p in s'.procs
    requires s'.procs[p].pc.Done? && !s.procs[p].pc.Done? && !s.procs[p].kind.Capture?
    ensures e.publisher == p && Read(s.disk, Target) == Some(s.procs[p].payload)
  {}

  lemma SuccessNext(run: seq<System>, events: seq<Event>, i: nat, p: nat)
    requires IsRun(run, events) && |run| == |events| + 1 && i < |events| && p in run[i + 1].procs
    requires run[i + 1].procs[p].pc.Done? && !run[i + 1].procs[p].kind.Capture?
    ensures p in run[i].procs && !run[i].procs[p].kind.Capture? && run[i].procs[p].payload == run[i + 1].procs[p].payload
    ensures run[i].procs[p].pc.Done?
         || (events[i].publisher == p && Valid(run[i].disk) && Read(run[i].disk, Target) == Some(run[i + 1].procs[p].payload))
  {
    assert Steps(run[i], events[i], run[i + 1]);
    hide *;
    RunInv(run, events, i);
    RunInv(run, events, i + 1);
    InvGivesValid(run[0], run[i]);
    if !run[i].procs[p].pc.Done? {
      SuccessStep(run[i], events[i], run[i + 1], p);
    }
  }

  lemma NoSuccessAtFirst(run: seq<System>, events: seq<Event>, p: nat)
    requires IsRun(run, events) && |run| == |events| + 1 && p in run[0].procs
    ensures !run[0].procs[p].pc.Done?
  {
    assert Initial(run[0]);
  }

  /** A ledger or idempotent publisher that reports success has itself read its payload under the target. */
  lemma {:induction false} SuccessReadItsPayload(run: seq<System>, events: seq<Event>, i: nat, p: nat) returns (j: nat)
    requires IsRun(run, events) && |run| == |events| + 1 && i <= |events| && p in run[i].procs
    requires run[i].procs[p].pc.Done? && !run[i].procs[p].kind.Capture?
    ensures j < i && events[j].publisher == p && Valid(run[j].disk)
    ensures Read(run[j].disk, Target) == Some(run[i].procs[p].payload)
  {
    hide *;
    if i == 0 {
      NoSuccessAtFirst(run, events, p);
    }
    SuccessNext(run, events, i - 1, p);
    if run[i - 1].procs[p].pc.Done? {
      j := SuccessReadItsPayload(run, events, i - 1, p);
    } else {
      j := i - 1;
    }
  }

  // ------------------------------------------------------------- no litter

  /** A ledger or idempotent publisher that is finished has no temporary file; a capture that failed has one. */
  ghost predicate Tidy(s: System, p: nat)
    requires p in s.procs
  {
    var q := s.procs[p];
    && (!q.kind.Capture? && (q.pc.Failed? || q.pc.Done?) ==> Temp(p) !in s.disk.dir)
    && (q.pc.Start? || q.pc.Opening? || q.pc.Replaced? || q.pc.DirectorySynced? ==> Temp(p) !in s.disk.dir)
    && (q.kind.Capture? && (Holding(q.pc) || q.pc.Failing? || q.pc.Failed?) ==> Temp(p) in s.disk.dir)
  }

  lemma TidyStep(s0: System, s: System, e: Event, s': System, p: nat)
    requires Inv(s0, s) && Steps(s, e, s') && p in s.procs && p in s'.procs && Tidy(s, p)
    ensures Tidy(s', p)
  {
    assert TempInvariant(s, e.publisher);
    hide Inv, Unpublished;
  }

  lemma TidyNext(run: seq<System>, events: seq<Event>, i: nat, p: nat)
    requires IsRun(run, events) && |run| == |events| + 1 && i < |events| && p in run[i].procs && p in run[i + 1].procs
    requires Tidy(run[i], p)
    ensures Tidy(run[i + 1], p)
  {
    assert Steps(run[i], events[i], run[i + 1]);
    hide *;
    RunInv(run, events, i);
    TidyStep(run[0], run[i], events[i], run[i + 1], p);
  }

  lemma TidyAtFirst(run: seq<System>, events: seq<Event>, p: nat)
    requires IsRun(run, events) && |run| == |events| + 1 && p in run[0].procs
    ensures Tidy(run[0], p)
  {
    assert Initial(run[0]);
  }

  /** In every run, a finished ledger or idempotent publisher leaves no temporary file, and a failed capture leaves its own. */
  lemma {:induction false} FinishedLeavesNoTemporary(run: seq<System>, events: seq<Event>, i: nat, p: nat)
    requires IsRun(run, events) && |run| == |events| + 1 && i <= |events| && p in run[i].procs
    ensures Tidy(run[i], p)
  {
    hide *;
    if i == 0 {
      TidyAtFirst(run, events, p);
    } else {
      RunInv(run, events, i);
      RunInv(run, events, i - 1);
      FinishedLeavesNoTemporary(run, events, i - 1, p);
      TidyNext(run, events, i - 1, p);
    }
  }
}
