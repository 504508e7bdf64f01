/**
 Any number of publishers of one artifact, of all three create-once kinds,
 interleaved step by step over one store.
 */
module Publishers {
  import opened FileStore
  import opened Wrappers

  /** Capture checks before its replace, Ledger before writing and before its replace, Idempotent only before writing. */
  datatype Kind = Capture | Ledger | Idempotent

  datatype Pc =
    | Start
    | Opening
    | Writing(written: nat)
    | Synced
    | Ready
    | Replaced
    | DirectorySynced
    | Failing
    | Failed
    | Done

  datatype Proc = Proc(kind: Kind, payload: Bytes, pc: Pc, file: nat)

  type Procs = map<nat, Proc>

  datatype System = System(disk: Disk, procs: Procs)

  /** How a step goes when it is not determined: as intended, writing `count` bytes, or raising. */
  datatype Choice = Proceed | Chunk(count: nat) | Raise

  // ---------------------------------------------------------- transitions

  function Goto(s: System, p: nat, pc: Pc): System
    requires p in s.procs
  {
    s.(procs := s.procs[p := s.procs[p].(pc := pc)])
  }

  predicate Runnable(s: System, p: nat, choice: Choice) {
    p in s.procs && var q := s.procs[p];
    match q.pc
    case Writing(n) =>
      q.file < |s.disk.files| &&
      (match choice
       case Proceed => n == |q.payload|
       case Chunk(count) => 0 < count && n + count <= |q.payload|
       case Raise => true)
    case Ready => choice == Proceed && Temp(p) in s.disk.dir
    case Failed => false
    case Done => false
    case _ => choice == Proceed
  }

  function Next(s: System, p: nat, choice: Choice): System
    requires Valid(s.disk) && Runnable(s, p, choice)
  {
    var q, d := s.procs[p], s.disk;
    match q.pc
    case Start =>
      if q.kind.Capture? then Goto(s, p, Opening)
      else if Target !in d.dir then Goto(s, p, Opening)
      else if q.kind.Idempotent? && Read(d, Target) == Some(q.payload) then Goto(s, p, Done)
      else Goto(s, p, Failed)
    case Opening =>
      if Temp(p) in d.dir then Goto(s, p, Failed)
      else System(Create(d, Temp(p)), s.procs[p := q.(pc := Writing(0), file := |d.files|)])
    case Writing(n) =>
      (match choice
       case Proceed => Goto(s.(disk := Sync(d, q.file)), p, Synced)
       case Chunk(count) => Goto(s.(disk := Append(d, q.file, q.payload[n..n + count])), p, Writing(n + count))
       case Raise => Goto(s, p, Failing))
    case Synced =>
      if q.kind.Idempotent? then Goto(s, p, Ready)
      else if Target in d.dir then Goto(s, p, Failing)
      else Goto(s, p, Ready)
    case Ready =>
      System(Replace(d, Temp(p)), s.procs[p := q.(pc := Replaced)])
    case Replaced => Goto(s.(disk := SyncDirectory(d)), p, DirectorySynced)
    case DirectorySynced =>
      if q.kind.Capture? || Read(d, Target) == Some(q.payload) then Goto(s, p, Done) else Goto(s, p, Failing)
    case Failing =>
      if q.kind.Capture? then Goto(s, p, Failed) else Goto(s.(disk := Unlink(d, Temp(p))), p, Failed)
    case _ => s
  }

  /** All publishers at their start over a store whose target, if any, is complete and durable. */
  ghost predicate Initial(s: System) {
    && Valid(s.disk) && s.disk.versions == [s.disk.dir]
    && (Target in s.disk.dir ==> s.disk.files[s.disk.dir[Target]].synced)
    && (forall p | p in s.procs :: s.procs[p].pc == Start && Temp(p) !in s.disk.dir)
  }

  // ------------------------------------------------------------ invariant

  predicate Holding(pc: Pc) {
    pc.Writing? || pc.Synced? || pc.Ready?
  }

  /** A publisher between creating its temporary file and replacing: what is in that file. */
  ghost predicate TempInvariant(s: System, p: nat)
    requires p in s.procs
  {
    var q, d := s.procs[p], s.disk;
    && (q.pc.Start? || q.pc.Opening? ==> Temp(p) !in d.dir)
    && (Holding(q.pc) ==>
          && Temp(p) in d.dir && d.dir[Temp(p)] == q.file && q.file < |d.files|
          && Unpublished(d, q.file)
          && (q.pc.Writing? ==> q.pc.written <= |q.payload| && d.files[q.file].data == q.payload[..q.pc.written])
          && (!q.pc.Writing? ==> d.files[q.file] == File(q.payload, true)))
  }

  /** Temporary files are private. */
  ghost predicate Separate(s: System) {
    forall p, r | p in s.procs && r in s.procs && p != r && Holding(s.procs[p].pc) && Holding(s.procs[r].pc) ::
      s.procs[p].file != s.procs[r].file
  }

  /** Every directory that may survive a crash shows the initial target or some publisher's whole synced payload. */
  ghost predicate TargetInvariant(s0: System, s: System)
    requires Valid(s0.disk)
  {
    forall v | v in s.disk.versions ::
      if Target in v
      then v[Target] < |s.disk.files| && var f := s.disk.files[v[Target]];
           f.synced && (Read(s0.disk, Target) == Some(f.data) || exists p | p in s.procs :: s.procs[p].payload == f.data)
      else Target !in s0.disk.dir
  }

  ghost predicate Inv(s0: System, s: System) {
    && Valid(s0.disk) && Valid(s.disk)
    && (forall p | p in s.procs :: TempInvariant(s, p))
    && Separate(s)
    && TargetInvariant(s0, s)
  }

  lemma InitialInv(s: System)
    requires Initial(s)
    ensures Inv(s, s)
  {}

  /** Publishers keep their kind and payload. */
  lemma PayloadsFixed(s: System, p: nat, choice: Choice)
    requires Valid(s.disk) && Runnable(s, p, choice)
    ensures Next(s, p, choice).procs.Keys == s.procs.Keys
    ensures forall r | r in s.procs ::
              Next(s, p, choice).procs[r].payload == s.procs[r].payload && Next(s, p, choice).procs[r].kind == s.procs[r].kind
  {}

  /** The directory looks the same under the target, and files other than `file` are untouched. */
  ghost predicate TargetKept(d: Disk, d': Disk) {
    && (forall v | v in d'.versions :: exists w | w in d.versions :: SameTarget(d, w, d', v))
    && (Target in d'.dir <==> Target in d.dir)
  }

  lemma TargetInvariantKept(s0: System, s: System, s': System)
    requires Valid(s0.disk) && TargetInvariant(s0, s) && TargetKept(s.disk, s'.disk)
    requires s'.procs.Keys == s.procs.Keys && forall r | r in s.procs :: s'.procs[r].payload == s.procs[r].payload
    ensures TargetInvariant(s0, s')
  {}

  /** What a step must leave alone for another publisher's temporary file. */
  ghost predicate OtherKept(s: System, s': System, r: nat)
    requires r in s.procs
  {
    var q, d, d' := s.procs[r], s.disk, s'.disk;
    && r in s'.procs && s'.procs[r] == q
    && (Temp(r) in d'.dir <==> Temp(r) in d.dir)
    && (Temp(r) in d.dir ==> d'.dir[Temp(r)] == d.dir[Temp(r)])
    && (Holding(q.pc) ==> q.file < |d.files| && q.file < |d'.files| && d'.files[q.file] == d.files[q.file]
                          && (Unpublished(d, q.file) ==> Unpublished(d', q.file)))
  }

  lemma OtherTempKept(s: System, s': System, r: nat)
    requires r in s.procs && TempInvariant(s, r) && OtherKept(s, s', r)
    ensures TempInvariant(s', r)
  {}

  /** The parts of the invariant put together after a step of `p`. */
  lemma StepInv(s0: System, s: System, s': System, p: nat)
    requires Inv(s0, s) && p in s.procs
    requires Valid(s'.disk) && TargetKept(s.disk, s'.disk)
    requires s'.procs.Keys == s.procs.Keys && s'.procs[p].payload == s.procs[p].payload && s'.procs[p].kind == s.procs[p].kind
    requires TempInvariant(s', p)
    requires forall r | r in s.procs && r != p :: s'.procs[r] == s.procs[r] && OtherKept(s, s', r)
    requires Holding(s'.procs[p].pc) ==>
               (Holding(s.procs[p].pc) && s'.procs[p].file == s.procs[p].file) || s'.procs[p].file == |s.disk.files|
    ensures Inv(s0, s')
  {
    forall r | r in s.procs ensures Holding(s.procs[r].pc) ==> s.procs[r].file < |s.disk.files| {
      assert TempInvariant(s, r);
    }
    forall r | r in s'.procs ensures TempInvariant(s', r) {
      if r != p {
        assert TempInvariant(s, r);
        OtherTempKept(s, s', r);
      }
    }
    hide TempInvariant, OtherKept;
    TargetInvariantKept(s0, s, s');
    hide TargetInvariant;
    assert Separate(s');
  }

  /** The effect of a step other than a replace, seen from the target and from the other publishers' files. */
  ghost predicate QuietStep(d: Disk, d': Disk) {
    && Valid(d') && TargetKept(d, d')
    && (forall file: nat | file < |d.files| && Unpublished(d, file) :: Unpublished(d', file))
  }

  lemma UnchangedIsQuiet(d: Disk)
    requires Valid(d)
    ensures QuietStep(d, d)
  {}

  lemma CreateIsQuiet(d: Disk, name: Name)
    requires Valid(d) && name != Target
    ensures QuietStep(d, Create(d, name)) && Unpublished(Create(d, name), |d.files|)
  {
    var d' := Create(d, name);
    assert d.dir in d.versions;
    forall v | v in d'.versions ensures exists w | w in d.versions :: SameTarget(d, w, d', v) {
      assert SameTarget(d, if v in d.versions then v else d.dir, d', v);
    }
  }

  lemma OwnFileIsQuiet(d: Disk, d': Disk, file: nat)
    requires Valid(d) && Unpublished(d, file) && OnlyFileChanged(d, d', file)
    ensures QuietStep(d, d')
  {}

  lemma SyncDirectoryIsQuiet(d: Disk)
    requires Valid(d)
    ensures QuietStep(d, SyncDirectory(d))
  {
    assert d.dir in d.versions;
    assert forall v | v in SyncDirectory(d).versions :: SameTarget(d, d.dir, SyncDirectory(d), v);
  }

  lemma UnlinkIsQuiet(d: Disk, name: Name)
    requires Valid(d) && name != Target
    ensures QuietStep(d, Unlink(d, name))
  {}

  /** A quiet step that touches only names and files of `p` leaves the others' temporary files alone. */
  lemma OthersKept(s0: System, s: System, s': System, p: nat)
    requires Inv(s0, s) && p in s.procs && QuietStep(s.disk, s'.disk)
    requires forall r | r in s.procs && r != p :: r in s'.procs && s'.procs[r] == s.procs[r]
    requires forall r | r != p :: Temp(r) in s'.disk.dir <==> Temp(r) in s.disk.dir
    requires forall r | r != p && Temp(r) in s.disk.dir :: s'.disk.dir[Temp(r)] == s.disk.dir[Temp(r)]
    requires |s.disk.files| <= |s'.disk.files|
    requires forall r | r in s.procs && r != p && Holding(s.procs[r].pc) && s.procs[r].file < |s.disk.files| ::
               s'.disk.files[s.procs[r].file] == s.disk.files[s.procs[r].file]
    ensures forall r | r in s.procs && r != p :: OtherKept(s, s', r)
  {}

  lemma MovedOwnTemp(s: System, p: nat, pc: Pc)
    requires p in s.procs && TempInvariant(s, p)
    requires Holding(pc) ==> s.procs[p].pc.Synced? && pc.Ready?
    requires pc.Start? || pc.Opening? ==> s.procs[p].pc.Start?
    ensures TempInvariant(Goto(s, p, pc), p)
  {}

  lemma MovedOthers(s: System, p: nat, pc: Pc, r: nat)
    requires p in s.procs && r in s.procs && r != p && TempInvariant(s, r)
    ensures OtherKept(s, Goto(s, p, pc), r)
  {}

  lemma InvGivesTemps(s0: System, s: System)
    requires Inv(s0, s)
    ensures Valid(s.disk) && forall r | r in s.procs :: TempInvariant(s, r)
  {}

  /** A step that leaves the disk alone. */
  lemma LocalStepInv(s0: System, s: System, p: nat, pc: Pc)
    requires Inv(s0, s) && p in s.procs
    requires Holding(pc) ==> s.procs[p].pc.Synced? && pc.Ready?
    requires pc.Start? || pc.Opening? ==> s.procs[p].pc.Start?
    ensures Inv(s0, Goto(s, p, pc))
  {
    hide Inv, Valid, TempInvariant, OtherKept, TargetKept;
    var s' := Goto(s, p, pc);
    InvGivesTemps(s0, s);
    MovedOwnTemp(s, p, pc);
    forall r | r in s.procs && r != p ensures OtherKept(s, s', r) {
      MovedOthers(s, p, pc, r);
    }
    UnchangedIsQuiet(s.disk);
    StepInv(s0, s, s', p);
  }

  lemma CreateInv(s0: System, s: System, p: nat)
    requires Inv(s0, s) && p in s.procs && s.procs[p].pc.Opening?
    ensures Inv(s0, System(Create(s.disk, Temp(p)), s.procs[p := s.procs[p].(pc := Writing(0), file := |s.disk.files|)]))
  {
    var d, d' := s.disk, Create(s.disk, Temp(p));
    var s' := System(d', s.procs[p := s.procs[p].(pc := Writing(0), file := |d.files|)]);
    CreateIsQuiet(d, Temp(p));
    hide Unpublished;
    assert TempInvariant(s', p);
    OthersKept(s0, s, s', p);
    hide Inv, TempInvariant, OtherKept;
    StepInv(s0, s, s', p);
  }

  /** A write or sync of the publisher's own temporary file. */
  lemma OwnFileInv(s0: System, s: System, p: nat, d': Disk, pc: Pc)
    requires Inv(s0, s) && p in s.procs && s.procs[p].pc.Writing?
    requires var q := s.procs[p];
             && OnlyFileChanged(s.disk, d', q.file) && q.file < |d'.files|
             && ((pc.Writing? && pc.written <= |q.payload| && d'.files[q.file].data == q.payload[..pc.written])
                 || (pc.Synced? && d'.files[q.file] == File(q.payload, true)))
    ensures Inv(s0, System(d', s.procs[p := s.procs[p].(pc := pc)]))
  {
    var d, q := s.disk, s.procs[p];
    var s' := System(d', s.procs[p := q.(pc := pc)]);
    assert TempInvariant(s, p);
    OwnFileIsQuiet(d, d', q.file);
    hide Unpublished;
    assert TempInvariant(s', p);
    assert Separate(s);
    OthersKept(s0, s, s', p);
    hide Inv, TempInvariant, OtherKept;
    StepInv(s0, s, s', p);
  }

  lemma ReplaceInv(s0: System, s: System, p: nat)
    requires Inv(s0, s) && p in s.procs && s.procs[p].pc.Ready?
    ensures Temp(p) in s.disk.dir
    ensures Inv(s0, System(Replace(s.disk, Temp(p)), s.procs[p := s.procs[p].(pc := Replaced)]))
  {
    assert TempInvariant(s, p);
    var d, d' := s.disk, Replace(s.disk, Temp(p));
    var s' := System(d', s.procs[p := s.procs[p].(pc := Replaced)]);
    forall r | r in s'.procs ensures TempInvariant(s', r) {
      assert TempInvariant(s, r);
    }
    assert Separate(s');
    forall v | v in d'.versions && v !in d.versions ensures v == d'.dir {}
    assert s'.procs[p].payload == d'.files[d'.dir[Target]].data;
    hide TempInvariant;
    forall x | x in s.procs ensures x in s'.procs && s'.procs[x].payload == s.procs[x].payload {}
    assert TargetInvariant(s0, s');
  }

  lemma SyncDirectoryInv(s0: System, s: System, p: nat)
    requires Inv(s0, s) && p in s.procs && s.procs[p].pc.Replaced?
    ensures Inv(s0, System(SyncDirectory(s.disk), s.procs[p := s.procs[p].(pc := DirectorySynced)]))
  {
    var s' := System(SyncDirectory(s.disk), s.procs[p := s.procs[p].(pc := DirectorySynced)]);
    SyncDirectoryIsQuiet(s.disk);
    OthersKept(s0, s, s', p);
    hide Inv, OtherKept;
    StepInv(s0, s, s', p);
  }

  lemma UnlinkInv(s0: System, s: System, p: nat)
    requires Inv(s0, s) && p in s.procs && s.procs[p].pc.Failing?
    ensures Inv(s0, System(Unlink(s.disk, Temp(p)), s.procs[p := s.procs[p].(pc := Failed)]))
  {
    var s' := System(Unlink(s.disk, Temp(p)), s.procs[p := s.procs[p].(pc := Failed)]);
    UnlinkIsQuiet(s.disk, Temp(p));
    OthersKept(s0, s, s', p);
    hide Inv, OtherKept;
    StepInv(s0, s, s', p);
  }

  /** Every step of every publisher keeps the invariant. */
  lemma NextInv(s0: System, s: System, p: nat, choice: Choice)
    requires Inv(s0, s) && Runnable(s, p, choice)
    ensures Inv(s0, Next(s, p, choice))
  {
    var q, d := s.procs[p], s.disk;
    var s' := Next(s, p, choice);
    assert TempInvariant(s, p);
    hide Inv;
    match q.pc {
      case Start => LocalStepInv(s0, s, p, s'.procs[p].pc);
      case Opening => if Temp(p) in d.dir { LocalStepInv(s0, s, p, Failed); } else { CreateInv(s0, s, p); }
      case Writing(n) => WritingInv(s0, s, p, choice);
      case Synced => SyncedInv(s0, s, p, choice);
      case Ready => ReplaceInv(s0, s, p);
      case Replaced => SyncDirectoryInv(s0, s, p);
      case DirectorySynced => LocalStepInv(s0, s, p, s'.procs[p].pc);
      case Failing => if q.kind.Capture? { LocalStepInv(s0, s, p, Failed); } else { UnlinkInv(s0, s, p); }
      case _ =>
    }
  }

  lemma WritingInv(s0: System, s: System, p: nat, choice: Choice)
    requires Inv(s0, s) && Runnable(s, p, choice) && s.procs[p].pc.Writing?
    ensures Inv(s0, Next(s, p, choice))
  {
    var q, d := s.procs[p], s.disk;
    var n := q.pc.written;
    assert TempInvariant(s, p);
    hide Inv;
    match choice {
      case Proceed =>
        assert q.payload[..n] == q.payload;
        OwnFileInv(s0, s, p, Sync(d, q.file), Synced);
      case Chunk(count) =>
        assert q.payload[..n] + q.payload[n..n + count] == q.payload[..n + count];
        OwnFileInv(s0, s, p, Append(d, q.file, q.payload[n..n + count]), Writing(n + count));
      case Raise => LocalStepInv(s0, s, p, Failing);
    }
  }

  lemma SyncedInv(s0: System, s: System, p: nat, choice: Choice)
    requires Inv(s0, s) && Runnable(s, p, choice) && s.procs[p].pc.Synced?
    ensures Inv(s0, Next(s, p, choice))
  {
    var s' := Next(s, p, choice);
    LocalStepInv(s0, s, p, s'.procs[p].pc);
  }
}
