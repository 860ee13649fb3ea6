/** Snapshots taken before an export, and undoing the export from them. */
module Rollback {
  import opened Wrappers
  import opened Disk
  import Paths

  datatype RollbackError = NoSnapshot | CorruptManifest | RestoreFailed(path: string)

  /** Standard output and unset paths are not backed up. */
  predicate IsListed(paths: seq<string>, path: string) {
    path in paths && path != "" && path != "-"
  }

  ghost predicate ListedFile(os: OS, paths: seq<string>, f: FileId) {
    exists p :: IsListed(paths, p) && os.File(p) == f
  }

  /** The name of a backup within the rollback directory. */
  ghost predicate IsBackup(name: string) {
    '/' !in name && exists i: nat, p :: name == BackupName(i, p)
  }

  /**
   The rollback directory holds its own files: manifest and backups lie inside, the manifest is no backup, and backups of
   different list positions are different files.
   */
  ghost predicate SoundDir(os: OS, dir: string) {
    && os.Inside(dir, ManifestFile(os, dir))
    && (forall n :: IsBackup(n) ==> os.Inside(dir, os.File(Paths.Join(dir, n))) && os.File(Paths.Join(dir, n)) != ManifestFile(os, dir))
    && forall i: nat, p, j: nat, q :: i != j && IsBackup(BackupName(i, p)) && IsBackup(BackupName(j, q)) ==>
         os.File(Paths.Join(dir, BackupName(i, p))) != os.File(Paths.Join(dir, BackupName(j, q)))
  }

  /** Where clean paths are their own files, and a directory holds what lies within it, any directory is sound. */
  lemma PlainDirIsSound(os: OS, dir: string)
    requires dir != "" && forall path :: os.File(path) == Paths.Clean(path)
    requires forall path :: Paths.Within(dir, path) ==> os.Inside(dir, Paths.Clean(path))
    ensures SoundDir(os, dir)
  {
    hide BackupName, Paths.Plain, Paths.Within, Paths.Join, Paths.Clean;
    assert Paths.Plain(ROLLBACK_MANIFEST) by { ManifestIsPlain(); }
    forall n | IsBackup(n) ensures Paths.Plain(n) { BackupIsPlain(n); }
    forall m | Paths.Plain(m) ensures os.Inside(dir, os.File(Paths.Join(dir, m))) {
      PlainIsWithin(dir, m);
    }
    forall m, n | Paths.Plain(m) && Paths.Plain(n) && os.File(Paths.Join(dir, m)) == os.File(Paths.Join(dir, n)) ensures m == n {
      PlainTells(dir, m, n);
    }
    forall i: nat, p, j: nat, q ensures BackupName(i, p) != ROLLBACK_MANIFEST && (BackupName(i, p) == BackupName(j, q) ==> i == j) {
      BackupNamesDiffer(i, p, j, q);
    }
  }

  lemma ManifestIsPlain()
    ensures Paths.Plain(ROLLBACK_MANIFEST)
  {
  }

  lemma BackupIsPlain(n: string)
    requires IsBackup(n)
    ensures Paths.Plain(n)
  {
    var i: nat, p :| n == BackupName(i, p);
    assert n[0] == 'b';
  }

  lemma PlainIsWithin(dir: string, name: string)
    requires dir != "" && Paths.Plain(name)
    ensures Paths.Within(dir, Paths.Join(dir, name))
  {
    Paths.JoinedName(dir, name);
  }

  lemma PlainTells(dir: string, m: string, n: string)
    requires dir != "" && Paths.Plain(m) && Paths.Plain(n)
    requires Paths.Clean(Paths.Join(dir, m)) == Paths.Clean(Paths.Join(dir, n))
    ensures m == n
  {
    hide Paths.Clean, Paths.Join, Paths.Segments, Paths.Plain;
    Paths.CleanLeadsThere(Paths.Join(dir, m));
    Paths.CleanLeadsThere(Paths.Join(dir, n));
    Paths.JoinedName(dir, m);
    Paths.JoinedName(dir, n);
    var up := Paths.Segments(dir);
    assert (up + [m])[|up|] == m && (up + [n])[|up|] == n;
  }

  /** The listed paths name files outside the rollback directory. */
  ghost predicate SoundPaths(os: OS, dir: string, paths: seq<string>) {
    forall p :: IsListed(paths, p) ==> NamesAFile(p) && !os.Inside(dir, os.File(p))
  }

  function BackupFile(os: OS, dir: string, e: RollbackEntry): FileId {
    os.File(Paths.Join(dir, e.backupName))
  }

  function ManifestFile(os: OS, dir: string): FileId {
    os.File(Paths.Join(dir, ROLLBACK_MANIFEST))
  }

  /** One manifest entry tells what was at its path originally. */
  ghost predicate Faithful(os: OS, dir: string, files: Files, orig: Files, e: RollbackEntry) {
    var f := os.File(e.originalPath);
    && IsBackup(e.backupName)
    && (e.wasNew <==> f !in orig)
    && (!e.wasNew ==> BackupFile(os, dir, e) in files && files[BackupFile(os, dir, e)] == orig[f])
  }

  /** The entries record exactly the listed paths. */
  ghost predicate Records(os: OS, dir: string, files: Files, orig: Files, paths: seq<string>, entries: seq<RollbackEntry>) {
    && (forall e :: e in entries ==> IsListed(paths, e.originalPath) && Faithful(os, dir, files, orig, e))
    && forall p :: IsListed(paths, p) ==> exists e :: e in entries && e.originalPath == p
  }

  ghost predicate SameOutside(os: OS, dir: string, a: Files, b: Files) {
    forall f :: !os.Inside(dir, f) ==> SameFile(f, a, b)
  }

  /** A complete snapshot of orig is in place, and only listed files differ from orig. */
  ghost predicate Recoverable(os: OS, dir: string, paths: seq<string>, files: Files, orig: Files) {
    && SoundDir(os, dir) && SoundPaths(os, dir, paths)
    && ManifestFile(os, dir) in files
    && var manifest := files[ManifestFile(os, dir)];
    && manifest.Manifest? && Records(os, dir, files, orig, paths, manifest.entries)
    && forall f :: !os.Inside(dir, f) && !ListedFile(os, paths, f) ==> SameFile(f, files, orig)
  }

  /** Every entry has the backup name of one of the first i positions. */
  ghost predicate NamedBefore(i: nat, entries: seq<RollbackEntry>) {
    forall e :: e in entries ==> exists k, p :: 0 <= k < i && e.backupName == BackupName(k, p)
  }

  /** There is an entry for each of the first i paths. */
  ghost predicate Covers(paths: seq<string>, i: nat, entries: seq<RollbackEntry>)
    requires i <= |paths|
  {
    forall k :: 0 <= k < i && IsListed(paths, paths[k]) ==> exists e :: e in entries && e.originalPath == paths[k]
  }

  /** The first i listed paths are backed up. */
  ghost predicate BackedUp(os: OS, dir: string, files: Files, orig: Files, paths: seq<string>, i: nat,
                           entries: seq<RollbackEntry>)
    requires i <= |paths|
  {
    && SameOutside(os, dir, orig, files)
    && (forall e :: e in entries ==> IsListed(paths, e.originalPath) && Faithful(os, dir, files, orig, e))
    && NamedBefore(i, entries) && Covers(paths, i, entries)
  }

  ghost predicate IsSnapshotFile(os: OS, dir: string, f: FileId) {
    f == ManifestFile(os, dir) || exists i: nat, path :: f == os.File(Paths.Join(dir, BackupName(i, path)))
  }

  /** Nothing is left of an earlier snapshot but what has the name of a file of this one. */
  ghost predicate OnlySnapshot(os: OS, dir: string, files: Files) {
    forall f :: f in files && os.Inside(dir, f) ==> IsSnapshotFile(os, dir, f)
  }

  lemma BackupIsSnapshotFile(os: OS, dir: string, i: nat, path: string)
    ensures IsSnapshotFile(os, dir, os.File(Paths.Join(dir, BackupName(i, path))))
  {
  }

  lemma ManifestIsSnapshotFile(os: OS, dir: string)
    ensures IsSnapshotFile(os, dir, ManifestFile(os, dir))
  {
  }

  lemma SnapshotGrows(os: OS, dir: string, before: Files, files: Files, g: FileId)
    requires OnlySnapshot(os, dir, before) && IsSnapshotFile(os, dir, g)
    requires forall f :: f != g ==> SameFile(f, before, files)
    ensures OnlySnapshot(os, dir, files)
  {
    hide IsSnapshotFile;
    forall f | f in files && os.Inside(dir, f) ensures IsSnapshotFile(os, dir, f) {
      if f != g { assert SameFile(f, before, files); }
    }
  }

  /** A complete snapshot has exactly the paths that are written as files: not the empty one, and not standard output. */
  lemma SnapshotRecords(os: OS, dir: string, paths: seq<string>, files: Files, orig: Files, p: string)
    requires Recoverable(os, dir, paths, files, orig)
    ensures (exists e :: e in files[ManifestFile(os, dir)].entries && e.originalPath == p) <==>
            p in paths && p != "" && p != "-"
  {
    hide SoundDir, SoundPaths, Faithful;
    assert IsListed(paths, p) <==> p in paths && p != "" && p != "-";
  }

  /**
   Replaces the previous snapshot by one of the listed files; only a disk fault can prevent it. When they lie outside
   the rollback directory, no file outside it is touched, and on success the file system is recoverable to what it was.
   */
  method SaveRollbackSnapshot(fs: FileSystem, workspace: string, paths: seq<string>) returns (ok: bool)
    requires SoundDir(fs.os, RollbackDir(workspace))
    modifies fs
    ensures SoundPaths(fs.os, RollbackDir(workspace), paths) ==>
              && SameOutside(fs.os, RollbackDir(workspace), old(fs.files), fs.files)
              && (ok ==> Recoverable(fs.os, RollbackDir(workspace), paths, fs.files, old(fs.files)))
    ensures fs.ops >= old(fs.ops) && (!ok ==> fs.FaultSince(old(fs.ops)))
    ensures ok ==> OnlySnapshot(fs.os, RollbackDir(workspace), fs.files)
  {
    hide BackedUp, SoundDir, SoundPaths, Recoverable, IsSnapshotFile, Paths.Join;
    var dir := RollbackDir(workspace);
    ghost var orig := fs.files;
    ghost var good := SoundPaths(fs.os, dir, paths);
    ok := fs.RemoveAll(dir);
    if !ok {
      return;
    }
    var failed, _ := fs.Next();
    if failed {
      return false;
    }
    var entries: seq<RollbackEntry> := [];
    NothingBackedUp(fs.os, dir, fs.files, orig, paths);
    for i := 0 to |paths|
      invariant good ==> BackedUp(fs.os, dir, fs.files, orig, paths, i, entries)
      invariant OnlySnapshot(fs.os, dir, fs.files) && fs.ops >= old(fs.ops)
    {
      ghost var before := fs.files;
      var path := paths[i];
      if path == "" || path == "-" {
        if good {
          SkipPath(fs.os, dir, fs.files, orig, paths, i, entries);
        }
        continue;
      }
      if good {
        BackedUpOutside(fs.os, dir, before, orig, paths, i, entries);
        BackupIsInside(fs.os, dir, paths, i);
      }
      var entry := RollbackEntry(path, BackupName(i, path), false);
      var statFailed, _ := fs.Next();
      if !statFailed && fs.os.File(path) !in fs.files {
        entry := entry.(wasNew := true);
        ok := true;
      } else {
        assert fs.files == before;
        ok := fs.CopyFile(path, Paths.Join(dir, entry.backupName));
        BackupIsSnapshotFile(fs.os, dir, i, path);
        SnapshotGrows(fs.os, dir, before, fs.files, BackupFile(fs.os, dir, entry));
        if !ok {
          if good {
            OutsideKept(fs.os, dir, orig, before, fs.files, BackupFile(fs.os, dir, entry));
          }
          return;
        }
      }
      if good {
        AddPath(fs.os, dir, before, fs.files, orig, paths, i, entries, entry);
      }
      entries := entries + [entry];
    }
    if good {
      BackedUpOutside(fs.os, dir, fs.files, orig, paths, |paths|, entries);
    }
    ManifestIsInside(fs.os, dir);
    ghost var before := fs.files;
    ok := fs.WriteFile(Paths.Join(dir, ROLLBACK_MANIFEST), Manifest(entries));
    ManifestIsSnapshotFile(fs.os, dir);
    SnapshotGrows(fs.os, dir, before, fs.files, ManifestFile(fs.os, dir));
    if good {
      OutsideKept(fs.os, dir, orig, before, fs.files, ManifestFile(fs.os, dir));
      if ok {
        SnapshotDone(fs.os, dir, before, fs.files, orig, paths, entries);
      }
    }
  }

  lemma NothingBackedUp(os: OS, dir: string, files: Files, orig: Files, paths: seq<string>)
    requires SameOutside(os, dir, orig, files)
    ensures BackedUp(os, dir, files, orig, paths, 0, [])
  {
  }

  lemma BackedUpOutside(os: OS, dir: string, files: Files, orig: Files, paths: seq<string>, i: nat, entries: seq<RollbackEntry>)
    requires i <= |paths| && BackedUp(os, dir, files, orig, paths, i, entries)
    ensures SameOutside(os, dir, orig, files)
  {
  }

  lemma SkipPath(os: OS, dir: string, files: Files, orig: Files, paths: seq<string>, i: nat, entries: seq<RollbackEntry>)
    requires i < |paths| && BackedUp(os, dir, files, orig, paths, i, entries) && !IsListed(paths, paths[i])
    ensures BackedUp(os, dir, files, orig, paths, i + 1, entries)
  {
  }

  lemma BackupIsInside(os: OS, dir: string, paths: seq<string>, i: nat)
    requires SoundDir(os, dir) && SoundPaths(os, dir, paths) && i < |paths| && IsListed(paths, paths[i])
    ensures IsBackup(BackupName(i, paths[i])) && os.Inside(dir, os.File(Paths.Join(dir, BackupName(i, paths[i]))))
  {
    BackupNameIsOneName(i, paths[i]);
  }

  lemma ManifestIsInside(os: OS, dir: string)
    requires SoundDir(os, dir)
    ensures os.Inside(dir, ManifestFile(os, dir))
  {
  }

  /** A new file is recorded as new, an existing one is copied; backups made before stay as they are. */
  lemma AddPath(os: OS, dir: string, before: Files, files: Files, orig: Files, paths: seq<string>, i: nat,
                entries: seq<RollbackEntry>, e: RollbackEntry)
    requires SoundDir(os, dir) && SoundPaths(os, dir, paths)
    requires i < |paths| && BackedUp(os, dir, before, orig, paths, i, entries) && IsListed(paths, paths[i])
    requires e == RollbackEntry(paths[i], BackupName(i, paths[i]), e.wasNew)
    requires if e.wasNew then os.File(paths[i]) !in before && files == before
             else os.File(paths[i]) in before && files == before[BackupFile(os, dir, e) := before[os.File(paths[i])]]
    ensures BackedUp(os, dir, files, orig, paths, i + 1, entries + [e])
  {
    hide SoundPaths, SoundDir, Faithful, Covers, NamedBefore;
    BackupIsInside(os, dir, paths, i);
    ListedIsOutside(os, dir, paths, paths[i]);
    assert SameFile(os.File(paths[i]), orig, before);
    EntryIsFaithful(os, dir, before, files, orig, e);
    OthersKept(os, dir, before, files, orig, entries, e, i, paths[i]);
    NamesGrow(entries, e, i, paths[i]);
    CoverGrows(paths, entries, e, i);
  }

  lemma OthersKept(os: OS, dir: string, before: Files, files: Files, orig: Files, entries: seq<RollbackEntry>,
                   e: RollbackEntry, i: nat, q: string)
    requires SoundDir(os, dir) && NamedBefore(i, entries) && forall d :: d in entries ==> Faithful(os, dir, before, orig, d)
    requires e.backupName == BackupName(i, q) && IsBackup(e.backupName)
    requires forall f :: f != BackupFile(os, dir, e) ==> SameFile(f, before, files)
    ensures forall d :: d in entries ==> Faithful(os, dir, files, orig, d)
  {
    hide SoundDir, Faithful;
    forall d | d in entries ensures Faithful(os, dir, files, orig, d) {
      var k, p :| 0 <= k < i && d.backupName == BackupName(k, p);
      OtherBackupKept(os, dir, before, files, orig, d, e, k, p, i, q);
    }
  }

  lemma EntryIsFaithful(os: OS, dir: string, before: Files, files: Files, orig: Files, e: RollbackEntry)
    requires IsBackup(e.backupName) && SameFile(os.File(e.originalPath), orig, before)
    requires e.wasNew ==> os.File(e.originalPath) !in before && files == before
    requires !e.wasNew ==> os.File(e.originalPath) in before
    requires !e.wasNew ==> files == before[BackupFile(os, dir, e) := before[os.File(e.originalPath)]]
    ensures Faithful(os, dir, files, orig, e)
  {
  }

  lemma OtherBackupKept(os: OS, dir: string, before: Files, files: Files, orig: Files, d: RollbackEntry, e: RollbackEntry,
                        k: nat, p: string, i: nat, q: string)
    requires SoundDir(os, dir) && Faithful(os, dir, before, orig, d)
    requires d.backupName == BackupName(k, p) && e.backupName == BackupName(i, q) && k != i && IsBackup(e.backupName)
    requires forall f :: f != BackupFile(os, dir, e) ==> SameFile(f, before, files)
    ensures Faithful(os, dir, files, orig, d)
  {
    StillFaithful(os, dir, before, files, orig, d);
  }

  lemma NamesGrow(entries: seq<RollbackEntry>, e: RollbackEntry, i: nat, path: string)
    requires NamedBefore(i, entries) && e.backupName == BackupName(i, path)
    ensures NamedBefore(i + 1, entries + [e])
  {
    forall d | d in entries + [e] ensures exists k, p :: 0 <= k < i + 1 && d.backupName == BackupName(k, p) {
      if d in entries {
        var k, p :| 0 <= k < i && d.backupName == BackupName(k, p);
        assert 0 <= k < i + 1;
      }
    }
  }

  lemma CoverGrows(paths: seq<string>, entries: seq<RollbackEntry>, e: RollbackEntry, i: nat)
    requires i < |paths| && e.originalPath == paths[i] && Covers(paths, i, entries)
    ensures Covers(paths, i + 1, entries + [e])
  {
    forall k | 0 <= k < i + 1 && IsListed(paths, paths[k])
      ensures exists d :: d in entries + [e] && d.originalPath == paths[k]
    {
      if k < i {
        var d :| d in entries && d.originalPath == paths[k];
        assert d in entries + [e];
      } else {
        assert e in entries + [e];
      }
    }
  }

  lemma OutsideKept(os: OS, dir: string, orig: Files, before: Files, files: Files, g: FileId)
    requires SameOutside(os, dir, orig, before) && os.Inside(dir, g)
    requires forall f :: f != g ==> SameFile(f, before, files)
    ensures SameOutside(os, dir, orig, files)
  {
    forall f | !os.Inside(dir, f) ensures SameFile(f, orig, files) {
      assert SameFile(f, before, files);
    }
  }

  lemma ListedIsOutside(os: OS, dir: string, paths: seq<string>, p: string)
    requires SoundPaths(os, dir, paths) && IsListed(paths, p)
    ensures !os.Inside(dir, os.File(p))
  {
  }

  /** An entry stays faithful while its backup file stays. */
  lemma StillFaithful(os: OS, dir: string, before: Files, files: Files, orig: Files, e: RollbackEntry)
    requires Faithful(os, dir, before, orig, e) && SameFile(BackupFile(os, dir, e), before, files)
    ensures Faithful(os, dir, files, orig, e)
  {
  }

  lemma SnapshotDone(os: OS, dir: string, before: Files, files: Files, orig: Files, paths: seq<string>,
                     entries: seq<RollbackEntry>)
    requires SoundDir(os, dir) && SoundPaths(os, dir, paths)
    requires BackedUp(os, dir, before, orig, paths, |paths|, entries)
    requires files == before[ManifestFile(os, dir) := Manifest(entries)]
    ensures Recoverable(os, dir, paths, files, orig)
  {
    hide SoundPaths, SoundDir, Faithful;
    ManifestIsInside(os, dir);
    forall e | e in entries ensures Faithful(os, dir, files, orig, e) {
      BackupIsNotManifest(os, dir, before, orig, e);
      StillFaithful(os, dir, before, files, orig, e);
    }
    forall p | IsListed(paths, p) ensures exists e :: e in entries && e.originalPath == p {
      var k :| 0 <= k < |paths| && paths[k] == p;
    }
  }

  lemma BackupIsNotManifest(os: OS, dir: string, files: Files, orig: Files, e: RollbackEntry)
    requires SoundDir(os, dir) && Faithful(os, dir, files, orig, e)
    ensures BackupFile(os, dir, e) != ManifestFile(os, dir)
  {
  }

  /** A snapshot stays usable as long as only listed files change. */
  lemma ListedWritesKeepRecoverable(os: OS, dir: string, paths: seq<string>, before: Files, files: Files, orig: Files)
    requires Recoverable(os, dir, paths, before, orig)
    requires forall f :: !ListedFile(os, paths, f) ==> SameFile(f, before, files)
    ensures Recoverable(os, dir, paths, files, orig)
  {
    var m := ManifestFile(os, dir);
    InsideIsUnlisted(os, dir, paths, m);
    forall e | e in before[m].entries ensures Faithful(os, dir, files, orig, e) {
      InsideIsUnlisted(os, dir, paths, BackupFile(os, dir, e));
      StillFaithful(os, dir, before, files, orig, e);
    }
  }

  lemma InsideIsUnlisted(os: OS, dir: string, paths: seq<string>, f: FileId)
    requires SoundPaths(os, dir, paths) && os.Inside(dir, f)
    ensures !ListedFile(os, paths, f)
  {
  }

  /** After the first i entries were worked off. */
  ghost predicate Restored(os: OS, files: Files, orig: Files, entries: seq<RollbackEntry>, i: nat)
    requires i <= |entries|
  {
    forall k :: 0 <= k < i ==> SameFile(os.File(entries[k].originalPath), files, orig)
  }

  /**
   Restores every recorded file, content or absence. From a complete snapshot only a disk fault can make it fail, and
   a rollback that fails partway leaves the snapshot in place, so that it can be run again. The listed paths and the
   original files are those of the snapshot, if there is one.
   */
  method Rollback(fs: FileSystem, workspace: string, ghost paths: seq<string>, ghost orig: Files)
    returns (err: Option<RollbackError>)
    modifies fs
    ensures fs.ops >= old(fs.ops)
    ensures err == Some(NoSnapshot) <==> ManifestFile(fs.os, RollbackDir(workspace)) !in old(fs.files)
    ensures err == Some(NoSnapshot) || err == Some(CorruptManifest) ==> fs.files == old(fs.files)
    ensures err.None? ==> fs.FaultSince(old(fs.ops)) || forall f :: f in fs.files ==> !fs.os.Inside(RollbackDir(workspace), f)
    ensures Recoverable(fs.os, RollbackDir(workspace), paths, old(fs.files), orig) ==>
              && (err.None? ==> SameOutside(fs.os, RollbackDir(workspace), fs.files, orig))
              && (err.Some? ==> fs.FaultSince(old(fs.ops)) && Recoverable(fs.os, RollbackDir(workspace), paths, fs.files, orig))
              && forall f :: !fs.os.Inside(RollbackDir(workspace), f) && !ListedFile(fs.os, paths, f) ==>
                   SameFile(f, old(fs.files), fs.files)
  {
    hide Recoverable, Restored, ListedFile, RollbackDir, Paths.Join;
    var dir := RollbackDir(workspace);
    ghost var good := Recoverable(fs.os, dir, paths, fs.files, orig);
    if good {
      OnlyListedDiffer(fs.os, dir, paths, fs.files, orig);
      SnapshotIsInside(fs.os, dir, paths, fs.files, orig);
    }
    if ManifestFile(fs.os, dir) !in fs.files {
      return Some(NoSnapshot);
    }
    var failed, _ := fs.Next();
    if failed || !fs.files[ManifestFile(fs.os, dir)].Manifest? {
      return Some(CorruptManifest);
    }
    var entries := fs.files[ManifestFile(fs.os, dir)].entries;
    RestoredNone(fs.os, fs.files, orig, entries);
    for i := 0 to |entries|
      invariant good ==> InProgress(fs.os, dir, paths, fs.files, orig, entries, i)
      invariant fs.ops >= old(fs.ops)
    {
      var entry := entries[i];
      ghost var before := fs.files;
      if good {
        EntryUsable(fs.os, dir, paths, before, orig, entry);
      }
      var ok;
      if entry.wasNew {
        ok := fs.Remove(entry.originalPath);
      } else {
        ok := fs.CopyFile(Paths.Join(dir, entry.backupName), entry.originalPath);
      }
      if good {
        RestoreStep(fs.os, dir, paths, before, fs.files, orig, entries, i, ok);
        OnlyListedDiffer(fs.os, dir, paths, fs.files, orig);
      }
      if !ok {
        return Some(RestoreFailed(entry.originalPath));
      }
    }
    if good {
      AllRestored(fs.os, dir, paths, fs.files, orig, entries);
      OnlyListedDiffer(fs.os, dir, paths, fs.files, orig);
    }
    var cleaned := fs.RemoveAll(dir);
    return None;
  }

  /** The snapshot is in place and the first i entries are restored. */
  ghost predicate InProgress(os: OS, dir: string, paths: seq<string>, files: Files, orig: Files,
                             entries: seq<RollbackEntry>, i: nat)
    requires i <= |entries|
  {
    && Recoverable(os, dir, paths, files, orig) && ManifestFile(os, dir) in files
    && files[ManifestFile(os, dir)] == Manifest(entries)
    && Restored(os, files, orig, entries, i)
  }

  lemma OnlyListedDiffer(os: OS, dir: string, paths: seq<string>, files: Files, orig: Files)
    requires Recoverable(os, dir, paths, files, orig)
    ensures forall f :: !os.Inside(dir, f) && !ListedFile(os, paths, f) ==> SameFile(f, files, orig)
  {
  }

  lemma RestoredNone(os: OS, files: Files, orig: Files, entries: seq<RollbackEntry>)
    ensures Restored(os, files, orig, entries, 0)
  {
  }

  lemma EntryUsable(os: OS, dir: string, paths: seq<string>, files: Files, orig: Files, e: RollbackEntry)
    requires Recoverable(os, dir, paths, files, orig) && e in files[ManifestFile(os, dir)].entries
    ensures IsListed(paths, e.originalPath) && ListedFile(os, paths, os.File(e.originalPath))
    ensures !os.Inside(dir, os.File(e.originalPath))
    ensures e.wasNew <==> os.File(e.originalPath) !in orig
    ensures !e.wasNew ==> BackupFile(os, dir, e) in files && files[BackupFile(os, dir, e)] == orig[os.File(e.originalPath)]
  {
    assert Faithful(os, dir, files, orig, e);
  }

  lemma RestoreStep(os: OS, dir: string, paths: seq<string>, before: Files, files: Files, orig: Files,
                    entries: seq<RollbackEntry>, i: nat, ok: bool)
    requires Recoverable(os, dir, paths, before, orig) && before[ManifestFile(os, dir)] == Manifest(entries)
    requires i < |entries| && Restored(os, before, orig, entries, i)
    requires forall f :: f != os.File(entries[i].originalPath) ==> SameFile(f, before, files)
    requires ok ==> SameFile(os.File(entries[i].originalPath), files, orig)
    ensures Recoverable(os, dir, paths, files, orig) && ManifestFile(os, dir) in files
    ensures files[ManifestFile(os, dir)] == Manifest(entries)
    ensures ok ==> Restored(os, files, orig, entries, i + 1)
  {
    hide Recoverable, Restored, ListedFile, RollbackDir, Paths.Join;
    var e := entries[i];
    SnapshotIsInside(os, dir, paths, before, orig);
    assert e in before[ManifestFile(os, dir)].entries;
    EntryUsable(os, dir, paths, before, orig, e);
    assert SameFile(ManifestFile(os, dir), before, files);
    ListedWritesKeepRecoverable(os, dir, paths, before, files, orig);
    if ok {
      RestoredOneMore(os, before, files, orig, entries, i);
    }
  }

  lemma SnapshotIsInside(os: OS, dir: string, paths: seq<string>, files: Files, orig: Files)
    requires Recoverable(os, dir, paths, files, orig)
    ensures os.Inside(dir, ManifestFile(os, dir)) && ManifestFile(os, dir) in files && files[ManifestFile(os, dir)].Manifest?
  {
    ManifestIsInside(os, dir);
  }

  lemma RestoredOneMore(os: OS, before: Files, files: Files, orig: Files, entries: seq<RollbackEntry>, i: nat)
    requires i < |entries| && Restored(os, before, orig, entries, i)
    requires forall f :: f != os.File(entries[i].originalPath) ==> SameFile(f, before, files)
    requires SameFile(os.File(entries[i].originalPath), files, orig)
    ensures Restored(os, files, orig, entries, i + 1)
  {
    forall k | 0 <= k < i + 1 ensures SameFile(os.File(entries[k].originalPath), files, orig) {
      var f := os.File(entries[k].originalPath);
      if f != os.File(entries[i].originalPath) {
        assert SameFile(f, before, orig) && SameFile(f, before, files);
      }
    }
  }

  lemma AllRestored(os: OS, dir: string, paths: seq<string>, files: Files, orig: Files, entries: seq<RollbackEntry>)
    requires Recoverable(os, dir, paths, files, orig) && files[ManifestFile(os, dir)] == Manifest(entries)
    requires Restored(os, files, orig, entries, |entries|)
    ensures SameOutside(os, dir, files, orig)
  {
    forall f | !os.Inside(dir, f) ensures SameFile(f, files, orig) {
      if ListedFile(os, paths, f) {
        var p :| IsListed(paths, p) && os.File(p) == f;
        var e :| e in entries && e.originalPath == p;
        var k :| 0 <= k < |entries| && entries[k] == e;
        assert SameFile(os.File(entries[k].originalPath), files, orig);
      }
    }
  }
}
