/**
 What a publisher's success means. With guarded replaces it means the target
 holds the publisher's own payload, durably; without, another payload may
 follow, and an idempotent success may still be lost in a crash.
 */
module PublisherOutcomes {
  import opened FileStore
  import opened Publishers
  import opened PublisherRuns
  import opened Wrappers

  // ------------------------------------------------------ guarded runs

  predicate HasPublished(pc: Pc) {
    pc.Replaced? || pc.DirectorySynced? || pc.Done?
  }

  /** A publisher starts to count as published in a step that finds or puts its own payload under the target. */
  lemma PublishingStep(s0: System, s: System, e: Event, s': System, p: nat)
    requires Inv(s0, s) && Steps(s, e, s') && Valid(s'.disk) && p in s.procs && p in s'.procs
    requires HasPublished(s'.procs[p].pc) && !HasPublished(s.procs[p].pc)
    ensures Read(s'.disk, Target) == Some(s.procs[p].payload)
  {
    assert TempInvariant(s, p);
  }

  /** With guarded replaces, a publisher that has replaced or succeeded finds its own payload under the target. */
  lemma {:induction false} PublishedPayloadIsThere(run: seq<System>, events: seq<Event>, i: nat, p: nat)
    requires IsRun(run, events) && AllGuarded(run, events) && i <= |events|
    requires p in run[i].procs && HasPublished(run[i].procs[p].pc)
    ensures Valid(run[i].disk) && Read(run[i].disk, Target) == Some(run[i].procs[p].payload)
  {
    hide Steps, Inv, AllGuarded, HasPublished, Valid, Read;
    assert i > 0 by {
      assert HasPublished(run[i].procs[p].pc) ==> !run[i].procs[p].pc.Start? by { AfterStart(run[i].procs[p].pc); }
    }
    assert Steps(run[i - 1], events[i - 1], run[i]);
    hide IsRun;
    RunInv(run, events, i);
    RunInv(run, events, i - 1);
    InvGivesValid(run[0], run[i]);
    InvGivesValid(run[0], run[i - 1]);
    if HasPublished(run[i - 1].procs[p].pc) {
      PublishedPayloadIsThere(run, events, i - 1, p);
      ReadMeansPresent(run[i - 1].disk);
      CreateOnce(run, events, i - 1, i);
    } else {
      PublishingStep(run[0], run[i - 1], events[i - 1], run[i], p);
    }
  }

  lemma AfterStart(pc: Pc)
    requires HasPublished(pc)
    ensures !pc.Start?
  {}

  lemma ReadMeansPresent(d: Disk)
    requires Valid(d)
    ensures Read(d, Target).Some? <==> Target in d.dir
  {}

  /** Every directory that may survive a crash leads to this payload. */
  ghost predicate Held(d: Disk, payload: Bytes) {
    && Valid(d)
    && forall v | v in d.versions :: Target in v && v[Target] < |d.files| && d.files[v[Target]] == File(payload, true)
  }

  lemma HeldIsDurable(d: Disk, payload: Bytes)
    requires Held(d, payload)
    ensures Durable(d, payload)
  {}

  lemma QuietKeepsHeld(d: Disk, d': Disk, payload: Bytes)
    requires Held(d, payload) && QuietStep(d, d')
    ensures Held(d', payload)
  {}

  lemma WritingIsQuiet(s0: System, s: System, e: Event, s': System)
    requires Inv(s0, s) && Steps(s, e, s') && s.procs[e.publisher].pc.Writing?
    ensures QuietStep(s.disk, s'.disk)
  {}

  /** Every step but a replace is quiet. */
  lemma OtherStepsAreQuiet(s0: System, s: System, e: Event, s': System)
    requires Inv(s0, s) && Steps(s, e, s') && !Replaces(s, e)
    ensures QuietStep(s.disk, s'.disk)
  {
    hide Inv, QuietStep, Valid, Read, Create, SyncDirectory, Unlink;
    InvGivesValid(s0, s);
    var p := e.publisher;
    var pc := s.procs[p].pc;
    if pc.Writing? {
      WritingIsQuiet(s0, s, e, s');
    } else {
      CreateIsQuiet(s.disk, Temp(p));
      SyncDirectoryIsQuiet(s.disk);
      UnlinkIsQuiet(s.disk, Temp(p));
      UnchangedIsQuiet(s.disk);
    }
  }

  /** The publisher has synced the directory after its own replace. */
  predicate HasSynced(q: Proc) {
    q.pc.DirectorySynced? || (q.pc.Done? && !q.kind.Idempotent?)
  }

  lemma SyncingStep(s0: System, s: System, e: Event, s': System, p: nat)
    requires Inv(s0, s) && Steps(s, e, s') && p in s.procs && p in s'.procs
    requires HasSynced(s'.procs[p]) && !HasSynced(s.procs[p])
    ensures e.publisher == p && s.procs[p].pc.Replaced? && s'.disk == SyncDirectory(s.disk)
  {}

  lemma SyncHolds(s0: System, s: System, payload: Bytes)
    requires Inv(s0, s) && Read(s.disk, Target) == Some(payload)
    ensures Held(SyncDirectory(s.disk), payload)
  {}

  lemma {:induction false} SyncedIsHeld(run: seq<System>, events: seq<Event>, i: nat, p: nat)
    requires IsRun(run, events) && AllGuarded(run, events) && i <= |events|
    requires p in run[i].procs && HasSynced(run[i].procs[p])
    ensures Held(run[i].disk, run[i].procs[p].payload)
  {
    hide Steps, Inv, AllGuarded, Valid, Held, Read, QuietStep;
    assert i > 0 && Steps(run[i - 1], events[i - 1], run[i]);
    hide IsRun;
    RunInv(run, events, i);
    RunInv(run, events, i - 1);
    var s, e, s' := run[i - 1], events[i - 1], run[i];
    if HasSynced(s.procs[p]) {
      SyncedIsHeld(run, events, i - 1, p);
      NoReplaceOver(run, events, i - 1, p);
      OtherStepsAreQuiet(run[0], s, e, s');
      QuietKeepsHeld(s.disk, s'.disk, s.procs[p].payload);
    } else {
      SyncingStep(run[0], s, e, s', p);
      PublishedPayloadIsThere(run, events, i - 1, p);
      SyncHolds(run[0], s, s.procs[p].payload);
    }
  }

  /** With guarded replaces, nothing is replaced once somebody has published. */
  lemma NoReplaceOver(run: seq<System>, events: seq<Event>, i: nat, p: nat)
    requires IsRun(run, events) && AllGuarded(run, events) && i < |events|
    requires p in run[i].procs && HasPublished(run[i].procs[p].pc)
    ensures !Replaces(run[i], events[i])
  {
    PublishedPayloadIsThere(run, events, i, p);
    hide IsRun, ReplaceIsGuarded;
    if Replaces(run[i], events[i]) {
      ReplaceOverwritesExactly(run, events, i);
    }
  }

  /** With guarded replaces, a publisher that synced the directory has its payload under the target for good. */
  lemma SuccessIsDurable(run: seq<System>, events: seq<Event>, i: nat, k: nat, p: nat)
    requires IsRun(run, events) && AllGuarded(run, events) && i <= k <= |events|
    requires p in run[i].procs && HasSynced(run[i].procs[p])
    ensures Durable(run[k].disk, run[i].procs[p].payload)
  {
    HeldForGood(run, events, i, k, p);
    HeldIsDurable(run[k].disk, run[i].procs[p].payload);
  }

  lemma {:induction false} HeldForGood(run: seq<System>, events: seq<Event>, i: nat, k: nat, p: nat)
    requires IsRun(run, events) && AllGuarded(run, events) && i <= k <= |events|
    requires p in run[i].procs && HasSynced(run[i].procs[p])
    ensures Held(run[k].disk, run[i].procs[p].payload)
  {
    hide Steps, Inv, AllGuarded, Valid, Held, Read, QuietStep, ReplaceIsGuarded;
    if i == k {
      SyncedIsHeld(run, events, i, p);
    } else {
      HeldForGood(run, events, i, k - 1, p);
      assert Steps(run[k - 1], events[k - 1], run[k]);
      hide IsRun;
      RunInv(run, events, k - 1);
      HeldIsPresent(run[k - 1].disk, run[i].procs[p].payload);
      if Replaces(run[k - 1], events[k - 1]) {
        GuardedFindsNothing(run, events, k - 1);
      }
      OtherStepsAreQuiet(run[0], run[k - 1], events[k - 1], run[k]);
      QuietKeepsHeld(run[k - 1].disk, run[k].disk, run[i].procs[p].payload);
    }
  }

  lemma HeldIsPresent(d: Disk, payload: Bytes)
    requires Held(d, payload)
    ensures Target in d.dir
  {}

  lemma GuardedFindsNothing(run: seq<System>, events: seq<Event>, i: nat)
    requires IsRun(run, events) && AllGuarded(run, events) && i < |events| && Replaces(run[i], events[i])
    ensures Target !in run[i].disk.dir
  {
    ReplaceOverwritesExactly(run, events, i);
  }
}
