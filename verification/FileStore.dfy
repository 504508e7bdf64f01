/**
 An abstract file store: what is visible now, and what a crash may leave. File
 contents are certain after a file sync, directory entries after a directory sync.
 */
module FileStore {
  import opened Wrappers

  newtype Byte = x: int | 0 <= x < 256
  type Bytes = seq<Byte>

  /** The published name and the private temporary names. */
  datatype Name = Target | Temp(owner: nat)

  datatype File = File(data: Bytes, synced: bool)

  type Directory = map<Name, nat>

  /** `versions` are the directories that may survive a crash: every one since the last directory sync. */
  datatype Disk = Disk(files: seq<File>, dir: Directory, versions: seq<Directory>)

  ghost predicate Valid(d: Disk) {
    && |d.versions| > 0 && d.versions[|d.versions| - 1] == d.dir
    && forall v, n | v in d.versions && n in v :: v[n] < |d.files|
  }

  // ------------------------------------------------------------ operations

  function WithDirectory(d: Disk, dir: Directory): Disk {
    d.(dir := dir, versions := d.versions + [dir])
  }

  function Create(d: Disk, name: Name): Disk {
    WithDirectory(d.(files := d.files + [File([], false)]), d.dir[name := |d.files|])
  }

  function Append(d: Disk, file: nat, chunk: Bytes): Disk
    requires file < |d.files|
  {
    d.(files := d.files[file := File(d.files[file].data + chunk, false)])
  }

  function Sync(d: Disk, file: nat): Disk
    requires file < |d.files|
  {
    d.(files := d.files[file := d.files[file].(synced := true)])
  }

  function Replace(d: Disk, from: Name): Disk
    requires from in d.dir
  {
    WithDirectory(d, (d.dir - {from})[Target := d.dir[from]])
  }

  function Unlink(d: Disk, name: Name): Disk {
    if name in d.dir then WithDirectory(d, d.dir - {name}) else d
  }

  function SyncDirectory(d: Disk): Disk {
    d.(versions := [d.dir])
  }

  // ------------------------------------------------------------ observation

  function Read(d: Disk, name: Name): Option<Bytes>
    requires Valid(d)
  {
    if name in d.dir
    then (assert d.dir in d.versions; Some(d.files[d.dir[name]].data))
    else None
  }

  ghost predicate VersionReads(d: Disk, v: Directory, name: Name, content: Option<Bytes>)
    requires forall n | n in v :: v[n] < |d.files|
  {
    if name !in v then content.None?
    else content.Some? && (d.files[v[name]].synced ==> content.value == d.files[v[name]].data)
  }

  /** After a crash now, `name` may hold `content`; an unsynced file may hold anything. */
  ghost predicate CrashReads(d: Disk, name: Name, content: Option<Bytes>)
    requires Valid(d)
  {
    exists v | v in d.versions :: VersionReads(d, v, name, content)
  }

  /** Whatever a crash leaves under the target, it could have been left before or it is the whole payload. */
  ghost predicate OldOrWhole(before: Disk, d: Disk, payload: Bytes)
    requires Valid(before)
  {
    Valid(d) && forall content | CrashReads(d, Target, content) :: CrashReads(before, Target, content) || content == Some(payload)
  }

  /** The target holds exactly the payload, now and after any crash. */
  ghost predicate Durable(d: Disk, payload: Bytes) {
    && Valid(d) && Read(d, Target) == Some(payload)
    && forall content :: CrashReads(d, Target, content) <==> content == Some(payload)
  }

  // --------------------------------------------------- how steps observe

  /** Nothing in the directory versions leads to this file under the target name. */
  ghost predicate Unpublished(d: Disk, file: nat) {
    forall v | v in d.versions && Target in v :: v[Target] != file
  }

  /** Changing only files that are not published, or adding versions that agree on the target, is invisible there. */
  lemma TargetUnaffected(before: Disk, d: Disk, d': Disk, payload: Bytes)
    requires Valid(before) && OldOrWhole(before, d, payload) && Valid(d')
    requires forall v | v in d'.versions :: exists w | w in d.versions :: SameTarget(d, w, d', v)
    ensures OldOrWhole(before, d', payload)
  {}

  ghost predicate SameTarget(d: Disk, w: Directory, d': Disk, v: Directory) {
    && (Target in w <==> Target in v)
    && (Target in w ==> w[Target] < |d.files| && v[Target] < |d'.files| && d.files[w[Target]] == d'.files[v[Target]])
  }

  lemma CreateKeeps(before: Disk, d: Disk, name: Name, payload: Bytes)
    requires Valid(before) && OldOrWhole(before, d, payload) && name != Target
    ensures OldOrWhole(before, Create(d, name), payload)
    ensures Read(Create(d, name), Target) == Read(d, Target)
    ensures Unpublished(Create(d, name), |d.files|)
  {
    var d' := Create(d, name);
    forall v | v in d'.versions ensures exists w | w in d.versions :: SameTarget(d, w, d', v) {
      assert SameTarget(d, if v in d.versions then v else d.dir, d', v);
    }
    TargetUnaffected(before, d, d', payload);
  }

  ghost predicate OnlyFileChanged(d: Disk, d': Disk, file: nat) {
    && d'.dir == d.dir && d'.versions == d.versions && |d'.files| == |d.files|
    && forall f | 0 <= f < |d.files| && f != file :: d'.files[f] == d.files[f]
  }

  lemma FileChangeKeeps(before: Disk, d: Disk, d': Disk, file: nat, payload: Bytes)
    requires Valid(before) && OldOrWhole(before, d, payload)
    requires Unpublished(d, file) && OnlyFileChanged(d, d', file)
    ensures OldOrWhole(before, d', payload) && Unpublished(d', file)
    ensures Read(d', Target) == Read(d, Target)
  {}

  lemma UnlinkKeeps(before: Disk, d: Disk, name: Name, payload: Bytes)
    requires Valid(before) && OldOrWhole(before, d, payload) && name != Target
    ensures OldOrWhole(before, Unlink(d, name), payload)
    ensures Read(Unlink(d, name), Target) == Read(d, Target)
  {
    var d' := Unlink(d, name);
    forall v | v in d'.versions ensures exists w | w in d.versions :: SameTarget(d, w, d', v) {
      assert SameTarget(d, if v in d.versions then v else d.dir, d', v);
    }
    TargetUnaffected(before, d, d', payload);
  }

  /** Replacing by a synced complete file adds one outcome, the whole payload. */
  lemma ReplaceKeeps(before: Disk, d: Disk, from: Name, payload: Bytes)
    requires Valid(before) && OldOrWhole(before, d, payload)
    requires from in d.dir && from != Target && d.dir[from] < |d.files| && d.files[d.dir[from]] == File(payload, true)
    ensures OldOrWhole(before, Replace(d, from), payload)
    ensures Read(Replace(d, from), Target) == Some(payload)
  {}

  lemma SyncDirectoryKeeps(before: Disk, d: Disk, payload: Bytes)
    requires Valid(before) && OldOrWhole(before, d, payload)
    ensures OldOrWhole(before, SyncDirectory(d), payload)
  {
    var d' := SyncDirectory(d);
    forall v | v in d'.versions ensures exists w | w in d.versions :: SameTarget(d, w, d', v) {
      assert SameTarget(d, d.dir, d', v);
    }
    TargetUnaffected(before, d, d', payload);
  }

  /** Once the directory is synced the target survives every crash with the content it holds. */
  lemma SyncedTargetIsDurable(d: Disk, payload: Bytes)
    requires Valid(d) && Target in d.dir && d.dir[Target] < |d.files| && d.files[d.dir[Target]] == File(payload, true)
    ensures Durable(SyncDirectory(d), payload)
  {}

  /** Replacing before the file is synced lets a crash leave any content at all under the target. */
  lemma ReplaceBeforeSyncLosesEverything(d: Disk, from: Name, content: Bytes)
    requires Valid(d) && from in d.dir && !d.files[d.dir[from]].synced
    ensures Valid(Replace(d, from)) && CrashReads(Replace(d, from), Target, Some(content))
    ensures Valid(SyncDirectory(Replace(d, from))) && CrashReads(SyncDirectory(Replace(d, from)), Target, Some(content))
  {
    var d' := Replace(d, from);
    assert VersionReads(d', d'.dir, Target, Some(content));
    assert VersionReads(SyncDirectory(d'), d'.dir, Target, Some(content));
  }

  /**
   Without a file sync a publication is worth nothing: created, written and replaced
   into place, and even with the directory synced, a crash can leave any content.
   */
  lemma UnsyncedPublishLosesEverything(d: Disk, owner: nat, chunks: seq<Bytes>, content: Bytes)
    requires Valid(d) && Temp(owner) !in d.dir
    ensures var written := Written(Create(d, Temp(owner)), |d.files|, chunks);
            && Temp(owner) in written.dir && Valid(SyncDirectory(Replace(written, Temp(owner))))
            && CrashReads(SyncDirectory(Replace(written, Temp(owner))), Target, Some(content))
  {
    var written := Written(Create(d, Temp(owner)), |d.files|, chunks);
    WrittenUnsynced(Create(d, Temp(owner)), |d.files|, chunks);
    ReplaceBeforeSyncLosesEverything(written, Temp(owner), content);
  }

  /** One write after the other. */
  ghost function Written(d: Disk, file: nat, chunks: seq<Bytes>): (w: Disk)
    requires file < |d.files|
    ensures |w.files| == |d.files|
  {
    if chunks == [] then d else Append(Written(d, file, chunks[..|chunks| - 1]), file, chunks[|chunks| - 1])
  }

  lemma {:induction false} WrittenUnsynced(d: Disk, file: nat, chunks: seq<Bytes>)
    requires Valid(d) && file < |d.files| && !d.files[file].synced
    ensures var w := Written(d, file, chunks);
            Valid(w) && w.dir == d.dir && !w.files[file].synced
  {
    if chunks != [] {
      WrittenUnsynced(d, file, chunks[..|chunks| - 1]);
    }
  }

  /** Writing to a published file makes what a crash leaves there uncertain again, even if it was synced. */
  lemma WritingUnsettles(d: Disk, name: Name, chunk: Bytes, content: Bytes)
    requires Valid(d) && name in d.dir
    ensures Valid(Append(d, d.dir[name], chunk)) && CrashReads(Append(d, d.dir[name], chunk), name, Some(content))
  {
    var d' := Append(d, d.dir[name], chunk);
    assert VersionReads(d', d'.dir, name, Some(content));
  }
}
