/**
 What a crash can still leave: in every run exactly the contents since the last
 directory sync, so exactly when the target is lost and when a success is durable.
 */
module PublisherCrashes {
  import opened FileStore
  import opened Publishers
  import opened PublisherRuns
  import opened PublisherOutcomes
  import opened Wrappers

  /** The next event syncs the directory. */
  ghost predicate SyncsDirectory(s: System, e: Event) {
    e.publisher in s.procs && s.procs[e.publisher].pc.Replaced?
  }

  /** Some publisher has synced the directory before this moment. */
  ghost predicate SyncedBefore(run: seq<System>, events: seq<Event>, i: nat)
    requires |run| == |events| + 1 && i <= |events|
  {
    exists j | 0 <= j < i :: SyncsDirectory(run[j], events[j])
  }

  // ------------------------------------------------ losing the target at all

  /** Every directory that may survive a crash has a target. */
  ghost predicate AllShow(d: Disk) {
    forall v | v in d.versions :: Target in v
  }

  lemma MissingMeans(d: Disk)
    requires Valid(d)
    ensures CrashReads(d, Target, None) <==> !AllShow(d)
  {
    if v :| v in d.versions && Target !in v {
      assert VersionReads(d, v, Target, None);
    }
  }

  lemma QuietKeepsShown(d: Disk, d': Disk)
    requires AllShow(d) && QuietStep(d, d')
    ensures AllShow(d')
  {
    forall v | v in d'.versions ensures Target in v {
      var w :| w in d.versions && SameTarget(d, w, d', v);
    }
  }

  lemma StepKeepsShown(s0: System, s: System, e: Event, s': System)
    requires Inv(s0, s) && Steps(s, e, s') && AllShow(s.disk)
    ensures AllShow(s'.disk)
  {
    if !Replaces(s, e) {
      hide Inv, Steps, QuietStep;
      OtherStepsAreQuiet(s0, s, e, s');
      QuietKeepsShown(s.disk, s'.disk);
    }
  }

  predicate PastReplace(pc: Pc) {
    pc.Replaced? || pc.DirectorySynced?
  }

  lemma PastReplaceStep(s: System, e: Event, s': System, p: nat)
    requires Steps(s, e, s') && p in s.procs && p in s'.procs && PastReplace(s'.procs[p].pc)
    ensures PastReplace(s.procs[p].pc) || (e.publisher == p && Replaces(s, e))
  {}

  /** Whoever has replaced the target finds one. */
  lemma {:induction false} ReplacedIsPresent(run: seq<System>, events: seq<Event>, i: nat, p: nat)
    requires IsRun(run, events) && i <= |events| && p in run[i].procs && PastReplace(run[i].procs[p].pc)
    ensures Target in run[i].disk.dir
  {
    hide Steps, Inv, Replaces;
    assert i > 0;
    StepFacts(run, events, i - 1);
    RunInv(run, events, i);
    RunInv(run, events, i - 1);
    PastReplaceStep(run[i - 1], events[i - 1], run[i], p);
    hide PastReplace;
    if PastReplace(run[i - 1].procs[p].pc) {
      ReplacedIsPresent(run, events, i - 1, p);
    }
  }

  lemma SyncShows(s: System, e: Event, s': System)
    requires Steps(s, e, s') && SyncsDirectory(s, e) && Target in s.disk.dir
    ensures AllShow(s'.disk)
  {}

  lemma ShownNext(run: seq<System>, events: seq<Event>, k: nat)
    requires IsRun(run, events) && k < |events| && AllShow(run[k].disk)
    ensures AllShow(run[k + 1].disk)
  {
    hide Steps, Inv, AllShow, Replaces, Valid;
    RunInv(run, events, k);
    assert Steps(run[k], events[k], run[k + 1]);
    hide IsRun;
    StepKeepsShown(run[0], run[k], events[k], run[k + 1]);
  }

  lemma {:induction false} ShownForGood(run: seq<System>, events: seq<Event>, i: nat, k: nat)
    requires IsRun(run, events) && |run| == |events| + 1 && i <= k <= |events| && AllShow(run[i].disk)
    ensures AllShow(run[k].disk)
  {
    hide *;
    if i < k {
      ShownForGood(run, events, i, k - 1);
      ShownNext(run, events, k - 1);
    }
  }

  lemma StepKeepsVersions(s: System, e: Event, s': System, v: Directory)
    requires Steps(s, e, s') && !SyncsDirectory(s, e) && v in s.disk.versions
    ensures v in s'.disk.versions
  {}

  lemma {:induction false} FirstDirectoryStays(run: seq<System>, events: seq<Event>, i: nat)
    requires IsRun(run, events) && i <= |events| && !SyncedBefore(run, events, i)
    ensures run[0].disk.dir in run[i].disk.versions
  {
    hide Steps, SyncsDirectory;
    if i > 0 {
      FirstDirectoryStays(run, events, i - 1);
      StepKeepsVersions(run[i - 1], events[i - 1], run[i], run[0].disk.dir);
    }
  }

  lemma PresentAtFirstIsShown(s0: System, s: System)
    requires Inv(s0, s) && Target in s0.disk.dir
    ensures AllShow(s.disk)
  {
    assert TargetInvariant(s0, s);
  }

  /** In every run: a crash can leave no target exactly when there was none at first and no directory sync has happened. */
  lemma LostExactly(run: seq<System>, events: seq<Event>, i: nat)
    requires IsRun(run, events) && i <= |events|
    ensures Valid(run[i].disk)
    ensures CrashReads(run[i].disk, Target, None) <==> Target !in run[0].disk.dir && !SyncedBefore(run, events, i)
  {
    hide Steps, Inv, Replaces;
    RunInv(run, events, i);
    InvGivesValid(run[0], run[i]);
    MissingMeans(run[i].disk);
    hide CrashReads, Valid;
    if Target in run[0].disk.dir {
      PresentAtFirstIsShown(run[0], run[i]);
    } else if SyncedBefore(run, events, i) {
      var j :| 0 <= j < i && SyncsDirectory(run[j], events[j]);
      ReplacedIsPresent(run, events, j, events[j].publisher);
      SyncShows(run[j], events[j], run[j + 1]);
      ShownForGood(run, events, j + 1, i);
    } else {
      FirstDirectoryStays(run, events, i);
    }
  }

  // ----------------------------------------------- durable success, exactly

  /** Every directory that may survive and has a target leads to the content the target has now. */
  ghost predicate OneContent(d: Disk) {
    && Valid(d)
    && forall v | v in d.versions && Target in v ::
         && Target in d.dir && d.dir[Target] < |d.files| && v[Target] < |d.files|
         && d.files[v[Target]] == d.files[d.dir[Target]]
  }

  lemma QuietKeepsOneContent(s0: System, s: System, e: Event, s': System)
    requires Inv(s0, s) && Steps(s, e, s') && !Replaces(s, e) && OneContent(s.disk)
    ensures OneContent(s'.disk)
  {
    var d, d' := s.disk, s'.disk;
    OthersLeaveTarget(s0, s, e, s');
    OtherStepsAreQuiet(s0, s, e, s');
    hide Inv, Steps, Replaces, Read;
    forall v | v in d'.versions && Target in v
      ensures Target in d'.dir && d'.dir[Target] < |d'.files| && v[Target] < |d'.files|
           && d'.files[v[Target]] == d'.files[d'.dir[Target]]
    {
      var w :| w in d.versions && SameTarget(d, w, d', v);
    }
  }

  lemma GuardedReplaceGivesOneContent(s: System, e: Event, s': System)
    requires Steps(s, e, s') && Replaces(s, e) && Target !in s.disk.dir && OneContent(s.disk) && Valid(s'.disk)
    ensures OneContent(s'.disk)
  {
    var d, d' := s.disk, s'.disk;
    assert d'.dir in d'.versions;
    assert forall v | v in d'.versions :: v in d.versions || v == d'.dir;
  }

  lemma {:induction false} GuardedHasOneContent(run: seq<System>, events: seq<Event>, i: nat)
    requires IsRun(run, events) && AllGuarded(run, events) && i <= |events|
    ensures OneContent(run[i].disk)
  {
    hide Steps, Inv, AllGuarded, Replaces;
    if i > 0 {
      GuardedHasOneContent(run, events, i - 1);
      StepFacts(run, events, i - 1);
      RunInv(run, events, i - 1);
      hide IsRun, OneContent, ReplaceIsGuarded;
      if Replaces(run[i - 1], events[i - 1]) {
        GuardedFindsNothing(run, events, i - 1);
        GuardedReplaceGivesOneContent(run[i - 1], events[i - 1], run[i]);
      } else {
        QuietKeepsOneContent(run[0], run[i - 1], events[i - 1], run[i]);
      }
    }
  }

  lemma ShownIsHeld(s0: System, s: System, payload: Bytes)
    requires Inv(s0, s) && OneContent(s.disk) && AllShow(s.disk) && Read(s.disk, Target) == Some(payload)
    ensures Held(s.disk, payload)
  {
    assert TargetInvariant(s0, s) && s.disk.dir in s.disk.versions;
  }

  /**
   With guarded replaces, a publisher that has replaced or succeeded, early success
   included, is durable exactly when the target was there at first or some
   publisher has synced the directory.
   */
  lemma SuccessIsDurableExactly(run: seq<System>, events: seq<Event>, i: nat, p: nat)
    requires IsRun(run, events) && AllGuarded(run, events) && i <= |events|
    requires p in run[i].procs && HasPublished(run[i].procs[p].pc)
    ensures Durable(run[i].disk, run[i].procs[p].payload) <==> Target in run[0].disk.dir || SyncedBefore(run, events, i)
  {
    var payload := run[i].procs[p].payload;
    LostExactly(run, events, i);
    MissingMeans(run[i].disk);
    PublishedPayloadIsThere(run, events, i, p);
    GuardedHasOneContent(run, events, i);
    RunInv(run, events, i);
    hide IsRun, Inv, AllGuarded, SyncedBefore, OneContent, AllShow, Valid, Read, Held;
    if AllShow(run[i].disk) {
      ShownIsHeld(run[0], run[i], payload);
      HeldIsDurable(run[i].disk, payload);
    }
  }

  // ------------------------------------------- all that a crash may leave

  /** The content showed at some moment after which nobody has synced the directory. */
  ghost predicate ShownSinceSync(run: seq<System>, events: seq<Event>, i: nat, content: Option<Bytes>)
    requires |run| == |events| + 1 && i <= |events|
    requires forall j | 0 <= j < |run| :: Valid(run[j].disk)
  {
    exists j | 0 <= j <= i ::
      Read(run[j].disk, Target) == content && forall k | j <= k < i :: !SyncsDirectory(run[k], events[k])
  }

  /** Whatever a surviving directory leads to is settled: every published file is synced. */
  ghost predicate Settled(d: Disk) {
    && Valid(d)
    && forall v | v in d.versions && Target in v :: v[Target] < |d.files| && d.files[v[Target]].synced
  }

  ghost function Shows(d: Disk, v: Directory): Option<Bytes>
    requires forall n | n in v :: v[n] < |d.files|
  {
    if Target in v then Some(d.files[v[Target]].data) else None
  }

  lemma SettledReads(d: Disk, content: Option<Bytes>)
    requires Settled(d)
    ensures CrashReads(d, Target, content) <==> exists v | v in d.versions :: Shows(d, v) == content
    ensures Read(d, Target) == Shows(d, d.dir) && d.dir in d.versions
  {
    forall v | v in d.versions ensures VersionReads(d, v, Target, content) <==> Shows(d, v) == content {}
  }

  lemma InvSettles(s0: System, s: System)
    requires Inv(s0, s)
    ensures Settled(s.disk)
  {
    assert TargetInvariant(s0, s);
  }

  /** No step but a directory sync drops a directory, and a step adds at most the present one. */
  lemma VersionsGrow(s: System, e: Event, s': System, v: Directory)
    requires Steps(s, e, s') && !SyncsDirectory(s, e)
    ensures v in s.disk.versions ==> v in s'.disk.versions
    ensures v in s'.disk.versions ==> v in s.disk.versions || v == s'.disk.dir
  {}

  /** What a directory shows under the target does not change. */
  lemma ShownStays(s0: System, s: System, e: Event, s': System, v: Directory)
    requires Inv(s0, s) && Steps(s, e, s') && v in s.disk.versions && Valid(s.disk)
    ensures forall n | n in v :: v[n] < |s'.disk.files|
    ensures Shows(s'.disk, v) == Shows(s.disk, v)
  {
    assert TempInvariant(s, e.publisher);
  }

  /** A step without a directory sync adds the content of the moment to what a crash may leave. */
  lemma CrashStep(s0: System, s: System, e: Event, s': System, content: Option<Bytes>)
    requires Inv(s0, s) && Inv(s0, s') && Steps(s, e, s') && !SyncsDirectory(s, e) && Valid(s.disk) && Valid(s'.disk)
    ensures CrashReads(s'.disk, Target, content) <==>
              CrashReads(s.disk, Target, content) || content == Read(s'.disk, Target)
  {
    InvSettles(s0, s);
    InvSettles(s0, s');
    SettledReads(s.disk, content);
    SettledReads(s'.disk, content);
    hide Steps, SyncsDirectory, Inv, CrashReads, Read, Shows, Settled;
    forall v ensures v in s.disk.versions ==> v in s'.disk.versions
      ensures v in s'.disk.versions ==> v in s.disk.versions || v == s'.disk.dir
    {
      VersionsGrow(s, e, s', v);
    }
    forall v | v in s.disk.versions ensures Shows(s'.disk, v) == Shows(s.disk, v) {
      ShownStays(s0, s, e, s', v);
    }
  }

  /** A directory sync leaves the content of the moment alone. */
  lemma CrashSync(s0: System, s: System, e: Event, s': System, content: Option<Bytes>)
    requires Inv(s0, s') && Steps(s, e, s') && SyncsDirectory(s, e) && Valid(s'.disk)
    ensures CrashReads(s'.disk, Target, content) <==> content == Read(s'.disk, Target)
  {
    assert s'.disk.versions == [s'.disk.dir];
    InvSettles(s0, s');
    SettledReads(s'.disk, content);
  }

  lemma CrashAtFirst(s: System, content: Option<Bytes>)
    requires Initial(s)
    ensures CrashReads(s.disk, Target, content) <==> content == Read(s.disk, Target)
  {
    SettledReads(s.disk, content);
  }

  lemma RunValid(run: seq<System>, events: seq<Event>)
    requires IsRun(run, events)
    ensures |run| == |events| + 1 && forall j | 0 <= j < |run| :: Valid(run[j].disk)
  {
    forall j | 0 <= j < |run| ensures Valid(run[j].disk) {
      RunInv(run, events, j);
    }
  }

  lemma ShownNow(run: seq<System>, events: seq<Event>, i: nat, content: Option<Bytes>)
    requires |run| == |events| + 1 && i < |events| && forall j | 0 <= j < |run| :: Valid(run[j].disk)
    ensures SyncsDirectory(run[i], events[i]) ==>
              (ShownSinceSync(run, events, i + 1, content) <==> content == Read(run[i + 1].disk, Target))
    ensures !SyncsDirectory(run[i], events[i]) ==>
              (ShownSinceSync(run, events, i + 1, content) <==>
                 ShownSinceSync(run, events, i, content) || content == Read(run[i + 1].disk, Target))
  {
    hide SyncsDirectory, Read, Valid;
    if content == Read(run[i + 1].disk, Target) {
      assert ShownSinceSync(run, events, i + 1, content);
    }
  }

  lemma CrashNext(run: seq<System>, events: seq<Event>, i: nat, content: Option<Bytes>)
    requires IsRun(run, events) && i < |events|
    ensures |run| == |events| + 1 && Valid(run[i].disk) && Valid(run[i + 1].disk)
    ensures CrashReads(run[i + 1].disk, Target, content) <==>
              (!SyncsDirectory(run[i], events[i]) && CrashReads(run[i].disk, Target, content))
              || content == Read(run[i + 1].disk, Target)
  {
    assert |run| == |events| + 1 && Steps(run[i], events[i], run[i + 1]);
    hide *;
    RunInv(run, events, i);
    RunInv(run, events, i + 1);
    InvGivesValid(run[0], run[i]);
    InvGivesValid(run[0], run[i + 1]);
    if SyncsDirectory(run[i], events[i]) {
      CrashSync(run[0], run[i], events[i], run[i + 1], content);
    } else {
      CrashStep(run[0], run[i], events[i], run[i + 1], content);
    }
  }

  lemma FirstMoment(run: seq<System>, events: seq<Event>, content: Option<Bytes>)
    requires IsRun(run, events) && |run| == |events| + 1 && forall j | 0 <= j < |run| :: Valid(run[j].disk)
    ensures CrashReads(run[0].disk, Target, content) <==> ShownSinceSync(run, events, 0, content)
  {
    assert Initial(run[0]);
    hide Initial, Valid, Read, CrashReads;
    CrashAtFirst(run[0], content);
    if content == Read(run[0].disk, Target) {
      assert ShownSinceSync(run, events, 0, content);
    }
  }

  /**
   In every run, a crash leaves under the target exactly what showed there at some
   moment since the last directory sync.
   */
  lemma {:induction false} CrashLeavesExactly(run: seq<System>, events: seq<Event>, i: nat, content: Option<Bytes>)
    requires IsRun(run, events) && i <= |events|
    ensures |run| == |events| + 1 && forall j | 0 <= j < |run| :: Valid(run[j].disk)
    ensures CrashReads(run[i].disk, Target, content) <==> ShownSinceSync(run, events, i, content)
  {
    hide *;
    RunValid(run, events);
    if i == 0 {
      FirstMoment(run, events, content);
    } else {
      CrashLeavesExactly(run, events, i - 1, content);
      CrashNext(run, events, i - 1, content);
      ShownNow(run, events, i - 1, content);
    }
  }

  /**
   In every run, guarded or not, a payload is durable exactly when it is what showed
   at every moment since the last directory sync.
   */
  lemma DurableExactly(run: seq<System>, events: seq<Event>, i: nat, payload: Bytes)
    requires IsRun(run, events) && i <= |events|
    ensures |run| == |events| + 1 && forall j | 0 <= j < |run| :: Valid(run[j].disk)
    ensures Durable(run[i].disk, payload) <==>
              forall content | ShownSinceSync(run, events, i, content) :: content == Some(payload)
  {
    RunValid(run, events);
    hide IsRun, CrashReads, Valid, Read, SyncsDirectory;
    forall content ensures CrashReads(run[i].disk, Target, content) <==> ShownSinceSync(run, events, i, content) {
      CrashLeavesExactly(run, events, i, content);
    }
    assert ShownSinceSync(run, events, i, Read(run[i].disk, Target));
  }
}
