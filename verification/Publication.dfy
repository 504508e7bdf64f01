/**
 The durable writers as sequences of store steps. The store records every state
 it passes through, so a contract can speak about a crash at any point of a call.
 */
module Publication {
  import opened FileStore
  import opened Wrappers

  datatype Outcome = Published | AlreadyExists | ShortWrite | TemporaryExists | Differs

  ghost function Total(taken: seq<nat>): nat {
    if taken == [] then 0 else Total(taken[..|taken| - 1]) + taken[|taken| - 1]
  }

  /** Some write took nothing while bytes remained. */
  ghost predicate Stalled(taken: seq<nat>, size: nat) {
    exists k | 0 <= k < |taken| :: taken[k] == 0 && Total(taken[..k]) < size
  }

  /** The states in which writes that took these many bytes leave the store, one after the other. */
  ghost function Filling(d: Disk, file: nat, payload: Bytes, taken: seq<nat>): (states: seq<Disk>)
    requires file < |d.files| && Total(taken) <= |payload|
    ensures |states| == |taken| && forall s | s in states :: |s.files| == |d.files|
  {
    if taken == [] then []
    else
      var front := taken[..|taken| - 1];
      var states := Filling(d, file, payload, front);
      states + [Append(if states == [] then d else states[|states| - 1], file, payload[Total(front)..Total(taken)])]
  }

  /** After these states came a new temporary file and writes that took these many bytes of the payload. */
  ghost predicate Wrote(before: seq<Disk>, d: Disk, uuid: nat, payload: Bytes, taken: seq<nat>, after: seq<Disk>) {
    && Total(taken) <= |payload|
    && var created := Create(d, Temp(uuid));
       before + [created] + Filling(created, |d.files|, payload, taken) <= after
  }

  class Store {
    var disk: Disk
    ghost var trace: seq<Disk>

    ghost predicate Healthy()
      reads this
    {
      Valid(disk) && |trace| > 0 && trace[|trace| - 1] == disk
    }

    /** Every state since position `from` leaves the target as before or as the whole payload after a crash. */
    ghost predicate SafeSince(from: nat, before: Disk, payload: Bytes)
      reads this
      requires Valid(before)
    {
      from <= |trace| && forall k | from <= k < |trace| :: OldOrWhole(before, trace[k], payload)
    }

    constructor (initial: Disk)
      requires Valid(initial)
      ensures Healthy() && disk == initial && trace == [initial]
    {
      disk, trace := initial, [initial];
    }

    method Step(next: Disk)
      requires Healthy() && Valid(next)
      modifies this
      ensures Healthy() && disk == next && trace == old(trace) + [next]
    {
      disk := next;
      trace := trace + [next];
    }

    /** `os.write`: any part of the chunk, or nothing, may be written. */
    method Write(file: nat, chunk: Bytes) returns (count: nat)
      requires Healthy() && file < |disk.files|
      modifies this
      ensures Healthy() && count <= |chunk|
      ensures disk == Append(old(disk), file, chunk[..count])
      ensures trace == old(trace) + [disk]
    {
      count :| 0 <= count <= |chunk|;
      Step(Append(disk, file, chunk[..count]));
    }

    /** So far the writes that took these bytes have filled the file, and nothing else has changed. */
    ghost predicate Filled(start: Disk, states: seq<Disk>, file: nat, payload: Bytes, taken: seq<nat>)
      reads this
      requires Valid(start)
    {
      && Healthy() && file < |start.files| && |disk.files| == |start.files|
      && disk.dir == start.dir && Read(disk, Target) == Read(start, Target)
      && Total(taken) <= |payload| && disk.files[file].data == payload[..Total(taken)]
      && trace == states + Filling(start, file, payload, taken)
    }

    /** One write of the loop. */
    method WriteNext(file: nat, payload: Bytes, written: nat, ghost from: nat, ghost before: Disk,
                     ghost start: Disk, ghost states: seq<Disk>, ghost taken: seq<nat>)
      returns (count: nat)
      requires Valid(start) && states != [] && states[|states| - 1] == start
      requires Filled(start, states, file, payload, taken) && written == Total(taken)
      requires Valid(before) && SafeSince(from, before, payload) && from < |trace| && Unpublished(disk, file)
      modifies this
      ensures written + count <= |payload| && Filled(start, states, file, payload, taken + [count])
      ensures SafeSince(from, before, payload) && from < |trace| && Unpublished(disk, file)
    {
      hide OldOrWhole, Unpublished, Filling, Total;
      ghost var was, earlier := disk, trace;
      count := Write(file, payload[written..]);
      FileChangeKeeps(before, was, disk, file, payload);
      FillingNext(start, was, file, payload, taken, count, states, earlier);
      assert payload[written..][..count] == payload[written..written + count];
      assert payload[..written] + payload[written..][..count] == payload[..written + count];
    }

    /** The checked write loop: it fails exactly when some write takes nothing while bytes remain. */
    method WriteAll(file: nat, payload: Bytes, ghost from: nat, ghost before: Disk) returns (ok: bool, ghost taken: seq<nat>)
      requires Healthy() && file < |disk.files| && disk.files[file].data == []
      requires Valid(before) && SafeSince(from, before, payload) && from < |trace| && Unpublished(disk, file)
      modifies this
      ensures Filled(old(disk), old(trace), file, payload, taken)
      ensures SafeSince(from, before, payload) && from < |trace| && Unpublished(disk, file)
      ensures ok <==> !Stalled(taken, |payload|)
      ensures ok ==> disk.files[file].data == payload
    {
      var written := 0;
      taken := [];
      assert trace == old(trace) + Filling(disk, file, payload, []);
      while written < |payload|
        invariant 0 <= written <= |payload| && written == Total(taken)
        invariant Filled(old(disk), old(trace), file, payload, taken)
        invariant SafeSince(from, before, payload) && from < |trace| && Unpublished(disk, file)
        invariant forall k | 0 <= k < |taken| :: taken[k] > 0
      {
        hide OldOrWhole, Unpublished, Stalled, Filling, Total, Filled, SafeSince, Healthy;
        var count := WriteNext(file, payload, written, from, before, old(disk), old(trace), taken);
        TotalNext(taken, count);
        ghost var wrote := taken;
        taken := taken + [count];
        if count <= 0 {
          assert taken[..|taken| - 1] == wrote;
          StallsAt(taken, |payload|);
          ok := false;
          return;
        }
        written := written + count;
      }
      assert payload[..written] == payload;
      NeverStalls(taken, |payload|);
      ok := true;
    }

    /** A new temporary file with the whole payload in it, synced, unless a write stalls. */
    method Prepare(uuid: nat, payload: Bytes, ghost from: nat, ghost before: Disk) returns (ready: bool, ghost taken: seq<nat>)
      requires Healthy() && Temp(uuid) !in disk.dir
      requires Valid(before) && SafeSince(from, before, payload) && from < |trace|
      modifies this
      ensures Healthy() && SafeSince(from, before, payload) && from < |trace|
      ensures Read(disk, Target) == Read(old(disk), Target)
      ensures Temp(uuid) in disk.dir && forall n | n != Temp(uuid) :: n in disk.dir <==> n in old(disk).dir
      ensures Wrote(old(trace), old(disk), uuid, payload, taken, trace)
      ensures ready <==> !Stalled(taken, |payload|)
      ensures ready ==> disk.files[disk.dir[Temp(uuid)]] == File(payload, true)
    {
      hide OldOrWhole, Unpublished, Stalled, Filling, Total;
      var file := |disk.files|;
      CreateKeeps(before, disk, Temp(uuid), payload);
      Step(Create(disk, Temp(uuid)));
      ready, taken := WriteAll(file, payload, from, before);
      if ready {
        FileChangeKeeps(before, disk, Sync(disk, file), file, payload);
        Step(Sync(disk, file));
      }
    }

    /** Replace the target by the prepared file and sync the directory. */
    method Commit(uuid: nat, payload: Bytes, ghost from: nat, ghost before: Disk)
      requires Healthy() && Temp(uuid) in disk.dir && disk.files[disk.dir[Temp(uuid)]] == File(payload, true)
      requires Valid(before) && SafeSince(from, before, payload) && from < |trace|
      modifies this
      ensures Healthy() && SafeSince(from, before, payload)
      ensures Durable(disk, payload) && Temp(uuid) !in disk.dir && old(trace) <= trace
    {
      hide OldOrWhole, Durable;
      ReplaceKeeps(before, disk, Temp(uuid), payload);
      Step(Replace(disk, Temp(uuid)));
      SyncDirectoryKeeps(before, disk, payload);
      SyncedTargetIsDurable(disk, payload);
      Step(SyncDirectory(disk));
    }

    method Cleanup(uuid: nat, payload: Bytes, ghost from: nat, ghost before: Disk)
      requires Healthy() && Valid(before) && SafeSince(from, before, payload) && from < |trace|
      modifies this
      ensures Healthy() && SafeSince(from, before, payload)
      ensures Read(disk, Target) == Read(old(disk), Target) && Temp(uuid) !in disk.dir && old(trace) <= trace
    {
      hide OldOrWhole;
      UnlinkKeeps(before, disk, Temp(uuid), payload);
      Step(Unlink(disk, Temp(uuid)));
    }

    /**
     The capture writer: exclusive temporary file, checked writes, file sync,
     existence check, replace, directory sync. A failed call leaves the temporary file.
     */
    method DurableBytes(uuid: nat, payload: Bytes) returns (outcome: Outcome, ghost taken: seq<nat>)
      requires Healthy()
      modifies this
      ensures Healthy() && SafeSince(|old(trace)| - 1, old(disk), payload)
      ensures outcome == Published ==> Target !in old(disk).dir && Durable(disk, payload)
      ensures outcome != Published ==> Read(disk, Target) == Read(old(disk), Target)
      ensures outcome == TemporaryExists <==> Temp(uuid) in old(disk).dir
      ensures outcome != TemporaryExists ==> Wrote(old(trace), old(disk), uuid, payload, taken, trace)
      ensures outcome == ShortWrite <==> Temp(uuid) !in old(disk).dir && Stalled(taken, |payload|)
      ensures outcome == AlreadyExists <==> Temp(uuid) !in old(disk).dir && !Stalled(taken, |payload|) && Target in old(disk).dir
      ensures outcome == Published <==> Temp(uuid) !in old(disk).dir && !Stalled(taken, |payload|) && Target !in old(disk).dir
      ensures outcome in {Published, AlreadyExists, ShortWrite, TemporaryExists}
    {
      hide OldOrWhole, Durable, Stalled, Total, Filling;
      ghost var before, from := disk, |trace| - 1;
      StartsSafe(before, payload);
      taken := [];
      if Temp(uuid) in disk.dir {
        outcome := TemporaryExists;
        return;
      }
      var ready;
      ready, taken := Prepare(uuid, payload, from, before);
      if !ready {
        outcome := ShortWrite;
        return;
      }
      if Target in disk.dir {
        outcome := AlreadyExists;
        return;
      }
      Commit(uuid, payload, from, before);
      outcome := Published;
    }

    /**
     The ledger writer: existence checked before and after the write, readback,
     and the temporary file removed on every failure. `mkstemp` supplies a new name.
     */
    method PublishLedger(uuid: nat, payload: Bytes) returns (outcome: Outcome, ghost taken: seq<nat>)
      requires Healthy() && Temp(uuid) !in disk.dir
      modifies this
      ensures Healthy() && SafeSince(|old(trace)| - 1, old(disk), payload)
      ensures outcome == AlreadyExists <==> Target in old(disk).dir
      ensures outcome != AlreadyExists ==> Wrote(old(trace), old(disk), uuid, payload, taken, trace)
      ensures outcome == ShortWrite <==> Target !in old(disk).dir && Stalled(taken, |payload|)
      ensures outcome == Published <==> Target !in old(disk).dir && !Stalled(taken, |payload|)
      ensures outcome == Published ==> Durable(disk, payload)
      ensures outcome != Published ==> Read(disk, Target) == Read(old(disk), Target)
      ensures Temp(uuid) !in disk.dir
      ensures outcome in {Published, AlreadyExists, ShortWrite}
    {
      hide OldOrWhole, Stalled, Total, Filling;
      ghost var before, from := disk, |trace| - 1;
      StartsSafe(before, payload);
      taken := [];
      if Target in disk.dir {
        outcome := AlreadyExists;
        return;
      }
      var ready;
      ready, taken := Prepare(uuid, payload, from, before);
      if !ready {
        Cleanup(uuid, payload, from, before);
        outcome := ShortWrite;
        return;
      }
      // The second existence check and the readback can only fail when another
      // publisher is at work, which the interleaved model of module Publishers shows.
      assert Target !in disk.dir;
      Commit(uuid, payload, from, before);
      assert Read(disk, Target) == Some(payload);
      outcome := Published;
    }

    /**
     The idempotent writer: an existing equal artifact counts as published and
     nothing is touched, an existing different one is refused.
     */
    method PublishBytes(uuid: nat, payload: Bytes) returns (outcome: Outcome, ghost taken: seq<nat>)
      requires Healthy() && Temp(uuid) !in disk.dir
      modifies this
      ensures Healthy() && SafeSince(|old(trace)| - 1, old(disk), payload)
      ensures Target in old(disk).dir ==>
                disk == old(disk) && outcome == if Read(old(disk), Target) == Some(payload) then Published else Differs
      ensures Target !in old(disk).dir ==>
                && Wrote(old(trace), old(disk), uuid, payload, taken, trace)
                && outcome == if Stalled(taken, |payload|) then ShortWrite else Published
      ensures Target !in old(disk).dir && outcome == Published ==> Durable(disk, payload)
      ensures outcome != Published ==> Read(disk, Target) == Read(old(disk), Target)
      ensures outcome == Published ==> Read(disk, Target) == Some(payload)
      ensures Temp(uuid) !in disk.dir
      ensures outcome in {Published, Differs, ShortWrite}
    {
      hide OldOrWhole, Stalled, Total, Filling;
      ghost var before, from := disk, |trace| - 1;
      StartsSafe(before, payload);
      taken := [];
      if Target in disk.dir {
        var existing := Read(disk, Target);
        outcome := if existing != Some(payload) then Differs else Published;
        return;
      }
      var ready;
      ready, taken := Prepare(uuid, payload, from, before);
      if !ready {
        Cleanup(uuid, payload, from, before);
        outcome := ShortWrite;
        return;
      }
      Commit(uuid, payload, from, before);
      assert Read(disk, Target) == Some(payload);
      outcome := Published;
    }

    /** Create, one write whose count nobody checks, file sync, replace, directory sync. */
    method WriteOnce(uuid: nat, payload: Bytes) returns (count: nat)
      requires Healthy() && Temp(uuid) !in disk.dir
      modifies this
      ensures Healthy() && count <= |payload|
      ensures trace == old(trace) + SingleWrite(old(disk), uuid, payload[..count])
      ensures disk == SingleWrite(old(disk), uuid, payload[..count])[4]
    {
      var file := |disk.files|;
      Step(Create(disk, Temp(uuid)));
      count := Write(file, payload);
      Step(Sync(disk, file));
      Step(Replace(disk, Temp(uuid)));
      Step(SyncDirectory(disk));
    }

    /**
     The contrasting writer with a single unchecked write and no existence check.
     It passes through the states of `SingleWrite` for whatever that write took.
     */
    method DurableJson(uuid: nat, payload: Bytes) returns (written: Option<nat>)
      requires Healthy()
      modifies this
      ensures Healthy()
      ensures written.None? <==> Temp(uuid) in old(disk).dir
      ensures written.None? ==> disk == old(disk) && trace == old(trace)
      ensures written.Some? ==>
                && written.value <= |payload|
                && trace == old(trace) + SingleWrite(old(disk), uuid, payload[..written.value])
                && Durable(disk, payload[..written.value]) && (Durable(disk, payload) <==> written.value == |payload|)
    {
      hide Durable, OldOrWhole, SingleWrite;
      if Temp(uuid) in disk.dir {
        return None;
      }
      var count := WriteOnce(uuid, payload);
      SingleWriteExactly(old(disk), uuid, payload, count);
      written := Some(count);
    }
  }

  lemma TotalNext(taken: seq<nat>, count: nat)
    ensures Total(taken + [count]) == Total(taken) + count
  {
    assert (taken + [count])[..|taken|] == taken;
  }

  /** One more write adds one more state. */
  lemma FillingNext(d: Disk, was: Disk, file: nat, payload: Bytes, taken: seq<nat>, count: nat, start: seq<Disk>, trace: seq<Disk>)
    requires file < |d.files| && Total(taken) + count <= |payload|
    requires trace == start + Filling(d, file, payload, taken) && start != [] && start[|start| - 1] == d
    requires trace[|trace| - 1] == was && file < |was.files|
    ensures Total(taken + [count]) == Total(taken) + count
    ensures start + Filling(d, file, payload, taken + [count])
         == trace + [Append(was, file, payload[Total(taken)..Total(taken) + count])]
  {
    TotalNext(taken, count);
    assert (taken + [count])[..|taken|] == taken;
    var states := Filling(d, file, payload, taken);
    assert was == if states == [] then d else states[|states| - 1];
  }

  lemma StallsAt(taken: seq<nat>, size: nat)
    requires taken != [] && taken[|taken| - 1] == 0 && Total(taken[..|taken| - 1]) < size
    ensures Stalled(taken, size)
  {}

  lemma NeverStalls(taken: seq<nat>, size: nat)
    requires forall k | 0 <= k < |taken| :: taken[k] > 0
    ensures !Stalled(taken, size)
  {}

  lemma StartsSafe(before: Disk, payload: Bytes)
    requires Valid(before)
    ensures OldOrWhole(before, before, payload)
  {}

  // ------------------------------------------------- the single unchecked write

  /** The states of create, a write that takes these bytes, file sync, replace and directory sync. */
  ghost function SingleWrite(d: Disk, uuid: nat, taken: Bytes): (states: seq<Disk>)
    ensures |states| == 5
  {
    var created, file := Create(d, Temp(uuid)), |d.files|;
    var filled := Append(created, file, taken);
    var synced := Sync(filled, file);
    var replaced := Replace(synced, Temp(uuid));
    [created, filled, synced, replaced, SyncDirectory(replaced)]
  }

  /** Up to the file sync nothing shows under the target. */
  lemma SingleWritePrepares(d: Disk, uuid: nat, taken: Bytes, payload: Bytes)
    requires Valid(d) && Temp(uuid) !in d.dir
    ensures var states := SingleWrite(d, uuid, taken);
            OldOrWhole(d, states[0], payload) && OldOrWhole(d, states[1], payload) && OldOrWhole(d, states[2], payload)
  {
    var file, created := |d.files|, Create(d, Temp(uuid));
    StartsSafe(d, payload);
    CreateKeeps(d, d, Temp(uuid), payload);
    hide OldOrWhole, Unpublished;
    var filled := Append(created, file, taken);
    FileChangeKeeps(d, created, filled, file, payload);
    FileChangeKeeps(d, filled, Sync(filled, file), file, payload);
  }

  /** The replace adds what the write took to what a crash may leave, and nothing else. */
  lemma SingleWriteShows(d: Disk, uuid: nat, taken: Bytes)
    requires Valid(d) && Temp(uuid) !in d.dir
    ensures var replaced := SingleWrite(d, uuid, taken)[3];
            && Valid(replaced)
            && Target in replaced.dir && replaced.dir[Target] < |replaced.files|
            && replaced.files[replaced.dir[Target]] == File(taken, true)
            && forall content :: CrashReads(replaced, Target, content) <==> CrashReads(d, Target, content) || content == Some(taken)
  {
    var replaced := SingleWrite(d, uuid, taken)[3];
    assert [] + taken == taken;
    assert d.dir in d.versions && replaced.dir in replaced.versions;
    assert replaced.files[replaced.dir[Target]] == File(taken, true);
    assert replaced.versions[..|d.versions|] == d.versions;
    var created := Create(d, Temp(uuid)).dir;
    assert forall v | v in replaced.versions :: v in d.versions || v == created || v == replaced.dir;
    forall content ensures CrashReads(replaced, Target, content) <==> CrashReads(d, Target, content) || content == Some(taken) {
      SingleWriteOutcome(d, replaced, created, taken, content);
    }
  }

  lemma SingleWriteOutcome(d: Disk, replaced: Disk, created: Directory, taken: Bytes, content: Option<Bytes>)
    requires Valid(d) && Valid(replaced) && d.dir in d.versions
    requires d.files <= replaced.files
    requires forall v | v in d.versions :: v in replaced.versions
    requires forall v | v in replaced.versions :: v in d.versions || v == created || v == replaced.dir
    requires (Target in created <==> Target in d.dir) && (Target in created ==> created[Target] == d.dir[Target])
    requires Target in replaced.dir && replaced.dir in replaced.versions && replaced.dir[Target] < |replaced.files|
    requires replaced.files[replaced.dir[Target]] == File(taken, true)
    ensures CrashReads(replaced, Target, content) <==> CrashReads(d, Target, content) || content == Some(taken)
  {
    if v :| v in d.versions && VersionReads(d, v, Target, content) {
      assert VersionReads(replaced, v, Target, content);
    }
    if content == Some(taken) {
      assert VersionReads(replaced, replaced.dir, Target, content);
    }
    if v :| v in replaced.versions && VersionReads(replaced, v, Target, content) {
      if v in d.versions {
        assert VersionReads(d, v, Target, content);
      } else if v == created {
        assert VersionReads(d, d.dir, Target, content);
      }
    }
  }

  /**
   For every store and every count the single write may take: the target ends
   durably as what it took, and every moment of the call leaves the target as
   before or whole after a crash exactly when the write took everything, or took
   what a crash could already have left.
   */
  lemma SingleWriteExactly(d: Disk, uuid: nat, payload: Bytes, k: nat)
    requires Valid(d) && Temp(uuid) !in d.dir && k <= |payload|
    ensures var states := SingleWrite(d, uuid, payload[..k]);
            && Durable(states[4], payload[..k])
            && (Durable(states[4], payload) <==> k == |payload|)
            && (OldOrWhole(d, states[4], payload) <==> k == |payload| || CrashReads(d, Target, Some(payload[..k])))
            && ((forall i | 0 <= i < 5 :: OldOrWhole(d, states[i], payload))
                <==> k == |payload| || CrashReads(d, Target, Some(payload[..k])))
  {
    var taken := payload[..k];
    var states := SingleWrite(d, uuid, taken);
    SingleWritePrepares(d, uuid, taken, payload);
    SingleWriteShows(d, uuid, taken);
    SyncedTargetIsDurable(states[3], taken);
    assert states[4] == SyncDirectory(states[3]);
    hide SingleWrite, CrashReads, Read, Valid;
    assert taken == payload <==> k == |payload|;
    assert CrashReads(states[4], Target, Some(taken));
    assert CrashReads(states[3], Target, Some(taken));
  }
}
