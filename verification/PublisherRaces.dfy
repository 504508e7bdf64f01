/**
 Races that do happen: from every start without a target, any publisher's
 finished publication can be replaced by any other's, and an idempotent
 publisher can report success for content a crash would still lose.
 */
module PublisherRaces {
  import opened FileStore
  import opened Publishers
  import opened PublisherRuns
  import opened Wrappers

  datatype Trail = Trail(run: seq<System>, events: seq<Event>)

  ghost predicate Sound(t: Trail) {
    IsRun(t.run, t.events)
  }

  ghost function Last(t: Trail): System
    requires Sound(t)
  {
    t.run[|t.run| - 1]
  }

  /** `later` continues `t` without syncing the directory: what a crash could leave, it still can. */
  ghost predicate Continues(t: Trail, later: Trail) {
    && Sound(t) && Sound(later) && t.run <= later.run && t.events <= later.events
    && Valid(Last(t).disk) && Valid(Last(later).disk)
    && forall v | v in Last(t).disk.versions :: v in Last(later).disk.versions
  }

  lemma LastInv(t: Trail)
    requires Sound(t)
    ensures Inv(t.run[0], Last(t)) && Valid(Last(t).disk)
  {
    RunInv(t.run, t.events, |t.events|);
    hide Inv;
    InvGivesValid(t.run[0], Last(t));
  }

  lemma Take(t: Trail, e: Event) returns (later: Trail)
    requires Sound(t) && Valid(Last(t).disk) && Runnable(Last(t), e.publisher, e.choice)
    ensures Sound(later) && later.run == t.run + [Next(Last(t), e.publisher, e.choice)] && later.events == t.events + [e]
    ensures Last(later) == Next(Last(t), e.publisher, e.choice) && Valid(Last(later).disk)
  {
    later := Trail(t.run + [Next(Last(t), e.publisher, e.choice)], t.events + [e]);
    hide Runnable, Next, Valid;
    forall i | 0 <= i < |later.events| ensures Steps(later.run[i], later.events[i], later.run[i + 1]) {
      if i < |t.events| {
        assert Steps(t.run[i], t.events[i], t.run[i + 1]);
      }
    }
    LastInv(later);
  }

  /** `p` moves from one point to another; the other publishers and the target stay as they are. */
  ghost predicate Advances(s: System, s': System, p: nat, pc: Pc) {
    && p in s.procs && s'.procs.Keys == s.procs.Keys && s'.procs[p] == s.procs[p].(pc := pc, file := s'.procs[p].file)
    && (forall r | r in s.procs && r != p :: s'.procs[r] == s.procs[r])
    && Target !in s'.disk.dir
    && forall v | v in s.disk.versions :: v in s'.disk.versions
  }

  lemma OpeningAdvance(s: System, p: nat)
    requires Valid(s.disk) && p in s.procs && s.procs[p].pc.Start? && Target !in s.disk.dir
    ensures Runnable(s, p, Proceed) && Advances(s, Next(s, p, Proceed), p, Opening)
  {}

  lemma CreatingAdvance(s: System, p: nat)
    requires Valid(s.disk) && p in s.procs && s.procs[p].pc.Opening? && Target !in s.disk.dir && Temp(p) !in s.disk.dir
    ensures Runnable(s, p, Proceed) && Advances(s, Next(s, p, Proceed), p, Writing(0))
  {}

  lemma WritingAdvance(s: System, p: nat, count: nat)
    requires Valid(s.disk) && p in s.procs && s.procs[p].pc == Writing(0) && 0 < count <= |s.procs[p].payload| && Target !in s.disk.dir
    requires s.procs[p].file < |s.disk.files|
    ensures Runnable(s, p, Chunk(count)) && Advances(s, Next(s, p, Chunk(count)), p, Writing(count))
  {}

  lemma SyncingAdvance(s: System, p: nat)
    requires Valid(s.disk) && p in s.procs && s.procs[p].pc == Writing(|s.procs[p].payload|) && Target !in s.disk.dir
    requires s.procs[p].file < |s.disk.files|
    ensures Runnable(s, p, Proceed) && Advances(s, Next(s, p, Proceed), p, Synced)
  {}

  lemma CheckingAdvance(s: System, p: nat)
    requires Valid(s.disk) && p in s.procs && s.procs[p].pc.Synced? && Target !in s.disk.dir
    ensures Runnable(s, p, Proceed) && Advances(s, Next(s, p, Proceed), p, Ready)
  {}

  /** `t` continues `start` by steps of `p` alone, which now stands at `pc`. */
  ghost predicate Solo(start: Trail, t: Trail, p: nat, pc: Pc) {
    && Continues(start, t) && Advances(Last(start), Last(t), p, pc)
  }

  lemma SoloFacts(start: Trail, t: Trail, p: nat, pc: Pc)
    requires Solo(start, t, p, pc)
    ensures Sound(t) && Valid(Last(t).disk) && p in Last(t).procs && p in Last(start).procs
    ensures Last(t).procs[p].pc == pc && Last(t).procs[p].payload == Last(start).procs[p].payload
    ensures Target !in Last(t).disk.dir
    ensures pc.Opening? ==> Temp(p) !in Last(t).disk.dir
    ensures pc.Writing? ==> Last(t).procs[p].file < |Last(t).disk.files|
  {
    LastInv(t);
    assert TempInvariant(Last(t), p);
  }

  lemma SoloStep(start: Trail, t: Trail, p: nat, from: Pc, choice: Choice, pc: Pc) returns (later: Trail)
    requires Solo(start, t, p, from)
    requires Runnable(Last(t), p, choice) && Advances(Last(t), Next(Last(t), p, choice), p, pc)
    ensures Solo(start, later, p, pc)
  {
    hide Sound, Next, Runnable, Valid;
    later := Take(t, Event(p, choice));
  }

  /** Left alone, a publisher that finds no target gets any part of its payload written. */
  lemma ReachWriting(t: Trail, p: nat, written: nat) returns (later: Trail)
    requires Sound(t) && p in Last(t).procs && Last(t).procs[p].pc.Start? && Target !in Last(t).disk.dir
    requires written <= |Last(t).procs[p].payload|
    ensures Solo(t, later, p, Writing(written))
  {
    LastInv(t);
    assert Solo(t, t, p, Start);
    hide Sound, Next, Runnable, Valid, Advances, Solo, Inv;
    OpeningAdvance(Last(t), p);
    later := SoloStep(t, t, p, Start, Proceed, Opening);
    SoloFacts(t, later, p, Opening);
    CreatingAdvance(Last(later), p);
    later := SoloStep(t, later, p, Opening, Proceed, Writing(0));
    SoloFacts(t, later, p, Writing(0));
    if written > 0 {
      WritingAdvance(Last(later), p, written);
      later := SoloStep(t, later, p, Writing(0), Chunk(written), Writing(written));
    }
  }

  /** Left alone, a publisher that finds no target reaches its replace. */
  lemma ReachReady(t: Trail, p: nat) returns (later: Trail)
    requires Sound(t) && p in Last(t).procs && Last(t).procs[p].pc.Start? && Target !in Last(t).disk.dir
    ensures Solo(t, later, p, Ready)
  {
    var payload := Last(t).procs[p].payload;
    hide Sound, Next, Runnable, Valid, Advances, Solo, Inv;
    later := ReachWriting(t, p, |payload|);
    SoloFacts(t, later, p, Writing(|payload|));
    SyncingAdvance(Last(later), p);
    later := SoloStep(t, later, p, Writing(|payload|), Proceed, Synced);
    SoloFacts(t, later, p, Synced);
    CheckingAdvance(Last(later), p);
    later := SoloStep(t, later, p, Synced, Proceed, Ready);
  }

  /** The target holds this payload now. */
  ghost predicate Holds(s: System, payload: Bytes) {
    Valid(s.disk) && Read(s.disk, Target) == Some(payload)
  }

  lemma ReplaceStep(t: Trail, p: nat) returns (later: Trail)
    requires Sound(t) && p in Last(t).procs && Last(t).procs[p].pc.Ready?
    ensures Sound(later) && t.run <= later.run && t.events <= later.events && |later.run| == |t.run| + 1
    ensures Holds(Last(later), Last(t).procs[p].payload)
    ensures Last(later).procs == Last(t).procs[p := Last(t).procs[p].(pc := Replaced)]
    ensures forall v | v in Last(t).disk.versions :: v in Last(later).disk.versions
  {
    LastInv(t);
    assert TempInvariant(Last(t), p);
    hide Sound, Inv;
    later := Take(t, Event(p, Proceed));
  }

  /** After its replace a publisher left alone syncs the directory, reads back and succeeds. */
  lemma Finish(t: Trail, p: nat) returns (later: Trail)
    requires Sound(t) && p in Last(t).procs && Last(t).procs[p].pc.Replaced? && Holds(Last(t), Last(t).procs[p].payload)
    ensures Sound(later) && t.run <= later.run && t.events <= later.events
    ensures Holds(Last(later), Last(t).procs[p].payload)
    ensures Last(later).procs == Last(t).procs[p := Last(t).procs[p].(pc := Done)]
  {
    hide Sound, Valid;
    later := Take(t, Event(p, Proceed));
    assert Holds(Last(later), Last(t).procs[p].payload);
    later := Take(later, Event(p, Proceed));
  }

  /** Both publishers pass their checks before either replaces. */
  lemma BothReady(s: System, p: nat, q: nat) returns (t: Trail)
    requires Initial(s) && Target !in s.disk.dir && p in s.procs && q in s.procs && p != q
    ensures Sound(t) && |t.run| > 0 && t.run[0] == s && Last(t).procs.Keys == s.procs.Keys
    ensures Last(t).procs[p].pc.Ready? && Last(t).procs[p].payload == s.procs[p].payload
    ensures Last(t).procs[q].pc.Ready? && Last(t).procs[q].payload == s.procs[q].payload
  {
    t := Trail([s], []);
    t := ReachReady(t, p);
    hide Sound, Valid;
    t := ReachReady(t, q);
  }

  /**
   From any start without a target, one publisher can finish and another, of any
   kind and with any payload, can still replace what it published.
   */
  lemma FinishedWorkCanBeReplaced(s: System, p: nat, q: nat) returns (t: Trail, i: nat)
    requires Initial(s) && Target !in s.disk.dir && p in s.procs && q in s.procs && p != q
    ensures Sound(t) && t.run[0] == s && i < |t.run|
    ensures t.run[i].procs.Keys == s.procs.Keys && t.run[i].procs[p].pc.Done? && Holds(t.run[i], s.procs[p].payload)
    ensures Holds(Last(t), s.procs[q].payload)
  {
    hide Sound, Holds, Initial;
    t := BothReady(s, p, q);
    t := ReplaceStep(t, p);
    t := Finish(t, p);
    i := |t.run| - 1;
    t := ReplaceStep(t, q);
  }

  /** An idempotent publisher can succeed on content that a crash at that moment would still lose. */
  lemma EarlySuccessCanBeLost(s: System, p: nat, q: nat) returns (t: Trail)
    requires Initial(s) && Target !in s.disk.dir && p in s.procs && q in s.procs && p != q
    requires s.procs[q].kind.Idempotent? && s.procs[q].payload == s.procs[p].payload
    ensures Sound(t) && t.run[0] == s && q in Last(t).procs && Last(t).procs[q].pc.Done?
    ensures Holds(Last(t), s.procs[q].payload) && CrashReads(Last(t).disk, Target, None)
  {
    t := Trail([s], []);
    t := ReachReady(t, p);
    hide Sound;
    t := ReplaceStep(t, p);
    t := Take(t, Event(q, Proceed));
    assert s.disk.dir in Last(t).disk.versions;
    assert VersionReads(Last(t).disk, s.disk.dir, Target, None);
  }

  /**
   Any publisher that finds no target can fail after any part of its payload; the
   target stays absent, and a capture leaves exactly that part under its own name.
   */
  lemma WritingCanFail(s: System, p: nat, written: nat) returns (t: Trail)
    requires Initial(s) && Target !in s.disk.dir && p in s.procs && written <= |s.procs[p].payload|
    ensures Sound(t) && t.run[0] == s && p in Last(t).procs && Last(t).procs[p].pc.Failed?
    ensures Target !in Last(t).disk.dir && Valid(Last(t).disk)
    ensures Read(Last(t).disk, Temp(p)) == if s.procs[p].kind.Capture? then Some(s.procs[p].payload[..written]) else None
  {
    t := Trail([s], []);
    t := ReachWriting(t, p, written);
    SoloFacts(Trail([s], []), t, p, Writing(written));
    LastInv(t);
    assert TempInvariant(Last(t), p);
    hide Sound, Inv, Initial, Continues, Unpublished;
    t := Take(t, Event(p, Raise));
    t := Take(t, Event(p, Proceed));
  }
}
