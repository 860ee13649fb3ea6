/** A file system whose operations may fail, and the naming of rollback backups. */
module Disk {
  import Paths

  /** One backed-up file, as recorded in the rollback manifest. */
  datatype RollbackEntry = RollbackEntry(originalPath: string, backupName: string, wasNew: bool)

  /** File contents: arbitrary bytes, or an encoded rollback manifest. */
  datatype Content = Raw(bytes: string) | Manifest(entries: seq<RollbackEntry>)

  /** The identity of a file; different spellings of a path may lead to the same file. */
  type FileId = string

  type Files = map<FileId, Content>

  const ROLLBACK_DIR: string := ".zhi-rollback"
  const ROLLBACK_MANIFEST: string := "manifest.json"

  function RollbackDir(workspace: string): string {
    Paths.Join(workspace, ROLLBACK_DIR)
  }

  /** The rollback directory lies directly in the workspace. */
  lemma RollbackDirIsInside(workspace: string)
    requires workspace != ""
    ensures Paths.Segments(RollbackDir(workspace)) == Paths.Segments(workspace) + [".zhi-rollback"]
    ensures Paths.Within(workspace, RollbackDir(workspace))
  {
    assert Paths.Plain(".zhi-rollback");
    hide Paths.Plain, Paths.Join, Paths.Segments;
    Paths.JoinedName(workspace, ".zhi-rollback");
  }

  function Digits(n: nat): (s: string)
    ensures s != "" && '_' !in s
  {
    var d := ['0' + (n % 10) as char];
    if n < 10 then d else Digits(n / 10) + d
  }

  function ValueOf(s: string): int {
    if s == "" then 0 else 10 * ValueOf(s[..|s| - 1]) + (s[|s| - 1] as int - '0' as int)
  }

  lemma {:induction false} DigitsValue(n: nat)
    ensures ValueOf(Digits(n)) == n
  {
    if n < 10 {
      assert Digits(n)[..0] == "";
    } else {
      DigitsValue(n / 10);
      assert Digits(n)[..|Digits(n)| - 1] == Digits(n / 10);
    }
  }

  /** The last element of a path, as Go's `filepath.Base`. */
  function Base(path: string): string {
    if path == "" then "."
    else if path[|path| - 1] == '/' then
      if forall i :: 0 <= i < |path| ==> path[i] == '/' then "/" else Base(path[..|path| - 1])
    else LastElement(path)
  }

  function LastElement(path: string): (s: string)
    ensures '/' !in s
  {
    if path == "" || path[|path| - 1] == '/' then ""
    else LastElement(path[..|path| - 1]) + [path[|path| - 1]]
  }

  /** A path with something besides slashes in it. */
  predicate NamesAFile(path: string) {
    exists i :: 0 <= i < |path| && path[i] != '/'
  }

  lemma {:induction false} BaseIsOneName(path: string)
    requires NamesAFile(path)
    ensures '/' !in Base(path)
  {
    if path[|path| - 1] == '/' {
      var i :| 0 <= i < |path| && path[i] != '/';
      assert path[..|path| - 1][i] != '/';
      BaseIsOneName(path[..|path| - 1]);
    }
  }

  function BackupName(i: nat, path: string): string {
    "backup_" + Digits(i) + "_" + Base(path)
  }

  lemma DigitsEnd(a: string, x: string, b: string, y: string)
    requires '_' !in a && '_' !in b && a + "_" + x == b + "_" + y
    ensures a == b
  {
    var s := a + "_" + x;
    assert s[|a|] == '_' && s == b + "_" + y && s[|b|] == '_';
    assert forall k :: 0 <= k < |a| ==> s[k] == a[k];
    assert forall k :: 0 <= k < |b| ==> s[k] == b[k];
    assert |a| == |b|;
    assert a == s[..|a|] && b == s[..|b|];
  }

  lemma BackupTail(i: nat, p: string)
    ensures |BackupName(i, p)| > 7 && BackupName(i, p)[0] == 'b' && BackupName(i, p)[7..] == Digits(i) + "_" + Base(p)
  {
  }

  /** Backups of different list positions never share a name, nor do they clash with the manifest. */
  lemma BackupNamesDiffer(i: nat, p: string, j: nat, q: string)
    ensures BackupName(i, p) == BackupName(j, q) ==> i == j
    ensures BackupName(i, p) != ROLLBACK_MANIFEST
  {
    BackupTail(i, p);
    BackupTail(j, q);
    hide BackupName;
    if BackupName(i, p) == BackupName(j, q) {
      DigitsEnd(Digits(i), Base(p), Digits(j), Base(q));
      DigitsValue(i);
      DigitsValue(j);
    }
  }

  lemma BackupNameIsOneName(i: nat, path: string)
    requires NamesAFile(path)
    ensures '/' !in BackupName(i, path)
  {
    BaseIsOneName(path);
    NoSlashInDigits(i);
  }

  lemma {:induction false} NoDotInDigits(n: nat)
    ensures '.' !in Digits(n)
  {
    if n >= 10 {
      NoDotInDigits(n / 10);
    }
  }

  lemma {:induction false} NoSlashInDigits(n: nat)
    ensures '/' !in Digits(n)
  {
    if n >= 10 {
      NoSlashInDigits(n / 10);
    }
  }

  /** The file the operating system finds under a path, and whether a file lies in a directory. */
  datatype OS = OS(resolve: string -> FileId, within: (string, FileId) -> bool) {
    function File(path: string): FileId {
      resolve(path)
    }

    predicate Inside(dir: string, f: FileId) {
      within(dir, f)
    }
  }

  class FileSystem {
    const os: OS
    /** Says of the n-th operation whether it fails, and what a failed write leaves behind. */
    const fails: nat -> bool
    const junk: nat -> Content
    var ops: nat
    var files: Files

    constructor (os: OS, fails: nat -> bool, junk: nat -> Content)
      ensures this.os == os && files == map[]
    {
      this.os, this.fails, this.junk := os, fails, junk;
      ops, files := 0, map[];
    }

    /** Of the operations done from the given one on, one failed. */
    ghost predicate FaultSince(start: nat)
      reads this`ops
    {
      exists n :: start <= n < ops && fails(n)
    }

    method Next() returns (failed: bool, left: Content)
      modifies this`ops
      ensures ops == old(ops) + 1 && (failed ==> FaultSince(old(ops)))
    {
      failed, left := fails(ops), junk(ops);
      ops := ops + 1;
      assert fails(ops - 1) == failed;
    }

    /** Copies src over dst. A failed copy may leave dst truncated or half-written. */
    method CopyFile(src: string, dst: string) returns (ok: bool)
      modifies this
      ensures ops >= old(ops)
      ensures ok ==> os.File(src) in old(files) && files == old(files)[os.File(dst) := old(files)[os.File(src)]]
      ensures !ok ==> forall f :: f != os.File(dst) ==> SameFile(f, old(files), files)
      ensures !ok ==> os.File(src) !in old(files) || FaultSince(old(ops))
    {
      if os.File(src) !in files {
        return false;
      }
      var content := files[os.File(src)];
      var failed, left := Next();
      if failed {
        files := files[os.File(dst) := left];
        return false;
      }
      files := files[os.File(dst) := content];
      return true;
    }

    method WriteFile(path: string, content: Content) returns (ok: bool)
      modifies this
      ensures ops >= old(ops)
      ensures ok ==> files == old(files)[os.File(path) := content]
      ensures !ok ==> FaultSince(old(ops)) && forall f :: f != os.File(path) ==> SameFile(f, old(files), files)
    {
      var failed, left := Next();
      files := files[os.File(path) := if failed then left else content];
      return !failed;
    }

    /** Removes a file; removing a missing file is fine. */
    method Remove(path: string) returns (ok: bool)
      modifies this
      ensures ops >= old(ops)
      ensures ok ==> files == old(files) - {os.File(path)}
      ensures !ok ==> FaultSince(old(ops)) && files == old(files)
    {
      if os.File(path) !in files {
        assert files - {os.File(path)} == files;
        return true;
      }
      var failed, left := Next();
      if !failed {
        files := files - {os.File(path)};
      }
      return !failed;
    }

    /** Removes a directory with its files; when it fails, some of them may be gone. */
    method RemoveAll(dir: string) returns (ok: bool)
      modifies this
      ensures ops >= old(ops)
      ensures ok ==> files == map f | f in old(files) && !os.Inside(dir, f) :: old(files)[f]
      ensures !ok ==> FaultSince(old(ops)) && forall f :: !os.Inside(dir, f) ==> SameFile(f, old(files), files)
    {
      var failed, left := Next();
      if failed {
        var gone: set<FileId> := *;
        files := map f | f in files && !(os.Inside(dir, f) && f in gone) :: files[f];
        return false;
      }
      files := map f | f in files && !os.Inside(dir, f) :: files[f];
      return true;
    }
  }

  /** The file is absent on both sides, or has the same content. */
  ghost predicate SameFile(f: FileId, a: Files, b: Files) {
    (f in a <==> f in b) && (f in a ==> a[f] == b[f])
  }
}
