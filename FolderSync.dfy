/**
 * The folder synchronizer: a first full pass makes the replica folder a copy
 * of the source folder, then each change the watcher reports in the source
 * is repeated in the replica. The synchronizer's own writes are marked so
 * that the events they raise can be told apart.
 */
module FolderSync {
  import opened Text
  import opened WindowsPath
  import opened SyncTree

  // ----- the set of internal changes -----

  /** The key a path is stored under: the set compares with OrdinalIgnoreCase. */
  function Key(path: string): string {
    AsciiUpperString(path)
  }

  predicate IsMarked(marks: set<string>, path: string) {
    path != [] && Key(path) in marks
  }

  function WithMark(marks: set<string>, path: string): set<string> {
    if path == [] then marks else marks + {Key(path)}
  }

  function WithoutMark(marks: set<string>, path: string): set<string> {
    if path == [] then marks else marks - {Key(path)}
  }

  /** After marking p, exactly p and the paths equal to it ignoring case are added; an empty path is never marked. */
  lemma MarkMeaning(marks: set<string>, p: string, q: string)
    ensures IsMarked(WithMark(marks, p), q) <==> IsMarked(marks, q) || (p != [] && q != [] && EqualsIgnoreCase(p, q))
    ensures !IsMarked(marks, [])
  {
  }

  /** After unmarking p, exactly p and the paths equal to it ignoring case are removed. */
  lemma UnmarkMeaning(marks: set<string>, p: string, q: string)
    ensures IsMarked(WithoutMark(marks, p), q) <==> IsMarked(marks, q) && !(p != [] && EqualsIgnoreCase(p, q))
  {
  }

  /** Marking then unmarking a path leaves it unmarked whether or not it was marked before, and nothing else changes. */
  lemma MarkThenUnmark(marks: set<string>, p: string)
    ensures WithoutMark(WithMark(marks, p), p) == WithoutMark(marks, p)
    ensures WithoutMark(marks, p) <= marks
  {
  }

  /** A file name Office uses for its lock and temporary files. */
  predicate IsTemporaryName(name: string) {
    || (|name| >= 2 && name[..2] == "~$")
    || (|name| >= 4 && EqualsIgnoreCase(name[|name| - 4..], ".tmp"))
  }

  lemma UpperKeepsTmp(t: string)
    requires |t| == 4 && EqualsIgnoreCase(t, ".tmp")
    ensures EqualsIgnoreCase(AsciiUpperString(t), ".tmp")
  {
    assert AsciiUpperString(AsciiUpperString(t)) == AsciiUpperString(t);
  }

  lemma TemporaryNames(s: string)
    ensures IsTemporaryName("~$" + s) && IsTemporaryName(s + ".tmp") && IsTemporaryName(s + ".TMP")
    ensures IsTemporaryName(s) ==> IsTemporaryName(AsciiUpperString(s))
  {
    assert ("~$" + s)[..2] == "~$";
    assert (s + ".tmp")[|s|..] == ".tmp";
    assert (s + ".TMP")[|s|..] == ".TMP";
    assert AsciiUpperString(".TMP") == AsciiUpperString(".tmp");
    var u := AsciiUpperString(s);
    if |s| >= 2 && s[..2] == "~$" {
      assert u[..2] == "~$" by {
        assert u[0] == s[0] && u[1] == s[1];
      }
    }
    if |s| >= 4 && EqualsIgnoreCase(s[|s| - 4..], ".tmp") {
      assert u[|s| - 4..] == AsciiUpperString(s[|s| - 4..]);
      UpperKeepsTmp(s[|s| - 4..]);
    }
  }

  /** ShouldIgnore: the synchronizer's own write, or an Office temporary file. */
  predicate Ignored(marks: set<string>, fullPath: string) {
    IsMarked(marks, fullPath) || IsTemporaryName(FileName(fullPath))
  }

  /** The full path of an entry: the folder's path and the entry's names joined by '\\'. */
  function FullPath(root: string, rel: Path): string {
    Join([root] + rel, "\\")
  }

  /**
   * ShouldIgnore on an entry of a folder looks at the entry's own name: the
   * entry is ignored exactly when its full path is marked or its name is an
   * Office temporary name.
   */
  lemma IgnoredEntry(marks: set<string>, root: string, dir: Path, name: string)
    requires forall k :: 0 <= k < |name| ==> !IsDirectorySeparator(name[k])
    ensures var full := FullPath(root, dir + [name]);
      Ignored(marks, full) <==> IsMarked(marks, full) || IsTemporaryName(name)
  {
    assert [root] + (dir + [name]) == ([root] + dir) + [name];
    JoinSnoc([root] + dir, name, "\\");
    FileNameOfCombined(Join([root] + dir, "\\"), name);
  }

  class FolderSynchronizer {
    const sourceRoot: string
    const replicaRoot: string
    /** The source folder; the synchronizer only reads it. */
    var source: Tree
    var replica: Tree
    /** InternalChangePaths, each path stored upper-cased. */
    var internalChanges: set<string>
    var isInitialSyncDone: bool

    ghost predicate Valid()
      reads this
    {
      TreeShaped(source) && TreeShaped(replica)
    }

    constructor (sourceRoot: string, replicaRoot: string, source: Tree, replica: Tree)
      requires TreeShaped(source) && TreeShaped(replica)
      ensures Valid()
      ensures this.sourceRoot == sourceRoot && this.replicaRoot == replicaRoot
      ensures this.source == source && this.replica == replica
      ensures internalChanges == {} && !isInitialSyncDone
    {
      this.sourceRoot := sourceRoot;
      this.replicaRoot := replicaRoot;
      this.source := source;
      this.replica := replica;
      internalChanges := {};
      isInitialSyncDone := false;
    }

    method MarkInternalChange(path: string)
      modifies this`internalChanges
      ensures internalChanges == WithMark(old(internalChanges), path)
    {
      if path == [] {
        return;
      }
      internalChanges := internalChanges + {Key(path)};
    }

    predicate IsInternalChange(path: string)
      reads this
    {
      IsMarked(internalChanges, path)
    }

    method UnmarkInternalChange(path: string)
      modifies this`internalChanges
      ensures internalChanges == WithoutMark(old(internalChanges), path)
    {
      if path == [] {
        return;
      }
      internalChanges := internalChanges - {Key(path)};
    }

    method ShouldIgnore(fullPath: string) returns (ignore: bool)
      ensures ignore == Ignored(internalChanges, fullPath)
    {
      if IsInternalChange(fullPath) {
        return true;
      }
      var fileName := FileName(fullPath);
      ignore := IsTemporaryName(fileName);
    }

    // ----- the file-system operations on the replica -----

    /** Directory.CreateDirectory: fails, changing nothing, when a file is in the way. */
    method CreateDirectory(rel: Path) returns (ok: bool)
      requires Valid()
      modifies this`replica
      ensures Valid()
      ensures ok == CanCreate(old(replica), rel)
      ensures replica == if ok then WithDirectories(old(replica), rel) else old(replica)
      ensures ok ==> IsDir(replica, rel)
    {
      ok := CanCreate(replica, rel);
      if ok {
        WithDirectoriesMeaning(replica, rel);
        replica := WithDirectories(replica, rel);
      }
    }

    /** One copy attempt once the target's directory exists: mark the target, try the copy, unmark the target. */
    method Attempt(rel: Path, io: CopyIO, attempt: nat) returns (outcome: AttemptResult)
      requires Valid() && rel != [] && IsDir(replica, Parent(rel))
      modifies this`replica, this`internalChanges
      ensures Valid() && IsDir(replica, Parent(rel))
      ensures outcome == AttemptOutcome(source, old(replica), rel, io, attempt)
      ensures outcome == Copied ==> IsFile(source, rel) && replica == old(replica)[rel := source[rel]]
      ensures outcome != Copied ==> replica == old(replica)
      ensures internalChanges == WithoutMark(old(internalChanges), FullPath(replicaRoot, rel))
    {
      var target := FullPath(replicaRoot, rel);
      MarkInternalChange(target);
      outcome := AttemptOutcome(source, replica, rel, io, attempt);
      if outcome == Copied {
        WriteFileShaped(replica, rel, source[rel]);
        replica := replica[rel := source[rel]];
      }
      UnmarkInternalChange(target);
      MarkThenUnmark(old(internalChanges), target);
    }

    /**
     * CopyFileWithRetry: up to five attempts, each creating the target's
     * directory first; an in-use answer is retried, a copy or any other error
     * ends the loop.
     */
    method CopyFileWithRetry(rel: Path, io: CopyIO) returns (copied: bool, attempts: nat)
      requires Valid() && rel != []
      modifies this`replica, this`internalChanges
      ensures Valid()
      ensures var c := CopyResult(source, old(replica), rel, io);
        copied == c.copied && attempts == c.attempts && replica == c.replica
      ensures internalChanges ==
        if CanCreate(old(replica), Parent(rel)) then WithoutMark(old(internalChanges), FullPath(replicaRoot, rel))
        else old(internalChanges)
    {
      ghost var r := WithDirectories(replica, Parent(rel));
      ghost var marks := WithoutMark(internalChanges, FullPath(replicaRoot, rel));
      CopyResultCases(source, replica, rel, io);
      var attempt := 1;
      while true
        invariant Valid() && 1 <= attempt <= MaxRetryAttempts
        invariant attempt > 1 ==> CanCreate(old(replica), Parent(rel)) && replica == r && internalChanges == marks
        invariant attempt == 1 ==> replica == old(replica) && internalChanges == old(internalChanges)
        invariant CanCreate(old(replica), Parent(rel)) ==> Retry(source, r, rel, io, 1) == Retry(source, r, rel, io, attempt)
        decreases MaxRetryAttempts - attempt
      {
        if attempt > 1 {
          WithDirectoriesMeaning(old(replica), Parent(rel));
          WithDirectoriesExisting(r, Parent(rel));
        }
        var ok := CreateDirectory(Parent(rel));
        if !ok {
          return false, attempt;
        }
        var outcome := Attempt(rel, io, attempt);
        MarkThenUnmark(old(internalChanges), FullPath(replicaRoot, rel));
        RetryStep(source, r, rel, io, attempt);
        if outcome == Copied {
          return true, attempt;
        }
        if outcome == OtherError || attempt == MaxRetryAttempts {
          return false, attempt;
        }
        attempt := attempt + 1;
      }
    }

    /** DeleteFile: File.Delete on the replica. */
    method DeleteFile(rel: Path)
      requires Valid() && IsFile(replica, rel)
      modifies this`replica
      ensures Valid() && replica == old(replica) - {rel}
    {
      RemoveFileShaped(replica, rel);
      replica := replica - {rel};
    }

    /** DeleteDirectory: Directory.Delete(path, true) on the replica. */
    method DeleteDirectory(rel: Path)
      requires Valid()
      modifies this`replica
      ensures Valid() && replica == RemoveTree(old(replica), rel)
    {
      RemoveTreeShaped(replica, rel);
      replica := RemoveTree(replica, rel);
    }

    /** DeleteFile on each file of the replica at rel with no file at the same path in the source. */
    method DeleteExtraFiles(rel: Path)
      requires Valid()
      modifies this`replica
      ensures Valid()
      ensures RemovedFiles(old(replica), replica, ExtraFiles(source, old(replica), rel))
    {
      var extra := ExtraFiles(source, replica, rel);
      var todo := extra;
      ghost var done := {};
      while todo != {}
        invariant Valid() && todo <= extra && done == extra - todo
        invariant RemovedFiles(old(replica), replica, done)
        decreases todo
      {
        var f :| f in todo;
        ghost var before := replica;
        RemovedFilesAt(old(replica), replica, done, f);
        DeleteFile(f);
        RemoveFileStep(old(replica), before, done, f);
        todo := todo - {f};
        done := done + {f};
      }
    }

    /** DeleteDirectory on each directory of the replica at rel with no directory at the same path in the source. */
    method DeleteExtraDirectories(rel: Path)
      requires Valid()
      modifies this`replica
      ensures Valid()
      ensures RemovedDirectories(old(replica), replica, rel, ExtraDirectories(source, old(replica), rel))
    {
      var extra := ExtraDirectories(source, replica, rel);
      var todo := extra;
      ghost var done := {};
      while todo != {}
        invariant Valid() && todo <= extra && done == extra - todo
        invariant RemovedDirectories(old(replica), replica, rel, done)
        decreases todo
      {
        var d :| d in todo;
        ghost var before := replica;
        DeleteDirectory(d);
        RemoveDirectoryStep(old(replica), before, rel, done, d);
        todo := todo - {d};
        done := done + {d};
      }
    }

    /** CopyFileWithRetry on each of the source files at rel. */
    method CopyFiles(rel: Path, files: set<Path>, io: CopyIO)
      requires Valid() && IsDir(replica, rel)
      requires forall q :: q in files ==> IsChild(rel, q)
      modifies this`replica, this`internalChanges
      ensures Valid() && IsDir(replica, rel)
      ensures internalChanges <= old(internalChanges)
      ensures CopiedFiles(source, old(replica), replica, files, io)
    {
      var todo := files;
      ghost var done := {};
      while todo != {}
        invariant Valid() && IsDir(replica, rel) && todo <= files && done == files - todo
        invariant internalChanges <= old(internalChanges)
        invariant CopiedFiles(source, old(replica), replica, done, io)
        decreases todo
      {
        var q :| q in todo;
        assert Parent(q) == rel;
        ghost var before := replica;
        CopyInPlace(source, replica, q, io);
        var copied, attempts := CopyFileWithRetry(q, io);
        CopyStep(source, old(replica), before, replica, done, q, io);
        todo := todo - {q};
        done := done + {q};
      }
    }

    /** SynchronizeFolders on each of the source directories at rel. */
    method SyncSubdirectories(rel: Path, dirs: set<Path>, io: CopyIO)
      requires Valid() && IsDir(replica, rel)
      requires forall d :: d in dirs ==> IsChild(rel, d) && d in source && source[d].Directory?
      modifies this`replica, this`internalChanges
      ensures Valid() && IsDir(replica, rel)
      ensures internalChanges <= old(internalChanges)
      ensures SyncedDirectories(source, old(replica), replica, rel, dirs, io)
      decreases Below(source, rel), 0
    {
      var todo := dirs;
      ghost var done := {};
      while todo != {}
        invariant Valid() && IsDir(replica, rel) && todo <= dirs && done == dirs - todo
        invariant internalChanges <= old(internalChanges)
        invariant SyncedDirectories(source, old(replica), replica, rel, done, io)
        decreases todo
      {
        var d :| d in todo;
        BelowShrinks(source, rel, d);
        ghost var before := replica;
        SynchronizeFolders(d, io);
        assert !Under(d, rel) && Same(before, replica, rel);
        SyncStep(source, old(replica), before, replica, rel, done, d, io);
        todo := todo - {d};
        done := done + {d};
      }
    }

    /**
     * SynchronizeFolders(source/rel, replica/rel): create the replica's
     * directory, then reconcile its contents. A file in the way of the
     * directory ends the pass before any change.
     */
    method SynchronizeFolders(rel: Path, io: CopyIO)
      requires Valid() && IsDir(source, rel) && (rel == [] || IsDir(replica, Parent(rel)))
      modifies this`replica, this`internalChanges
      ensures Valid()
      ensures internalChanges <= old(internalChanges)
      ensures forall x :: !Under(rel, x) ==> Same(old(replica), replica, x)
      ensures NoKindConflicts(source, old(replica), rel) && CopiesSucceed(io, rel) ==> MirroredAt(source, replica, rel)
      decreases Below(source, rel), 2
    {
      var ok := CreateDirectory(rel);
      if !ok {
        CreateBlocked(source, replica, rel);
        return;
      }
      CreateOne(old(replica), rel);
      ghost var r1 := replica;
      Reconcile(rel, io);
      ConditionsAfterCreate(source, old(replica), r1, replica, rel, io);
    }

    /**
     * The rest of SynchronizeFolders, once the replica's directory exists:
     * copy the files, recurse into the directories, then delete the
     * replica's files and directories that the source does not have.
     */
    method Reconcile(rel: Path, io: CopyIO)
      requires Valid() && IsDir(source, rel) && IsDir(replica, rel)
      modifies this`replica, this`internalChanges
      ensures Valid()
      ensures internalChanges <= old(internalChanges)
      ensures forall x :: !Under(rel, x) ==> Same(old(replica), replica, x)
      ensures NoKindConflicts(source, old(replica), rel) && CopiesSucceed(io, rel) ==> MirroredAt(source, replica, rel)
      decreases Below(source, rel), 1
    {
      CopyFiles(rel, Files(source, rel), io);
      ghost var r2 := replica;
      SyncSubdirectories(rel, Directories(source, rel), io);
      ghost var r3 := replica;
      DeleteExtraFiles(rel);
      ghost var r4 := replica;
      DeleteExtraDirectories(rel);
      PassResult(source, old(replica), r2, r3, r4, replica, rel, io);
    }

    /** InitialSync: one SynchronizeFolders over the whole folders, then the gate opens. */
    method InitialSync(io: CopyIO)
      requires Valid()
      modifies this`replica, this`internalChanges, this`isInitialSyncDone
      ensures Valid() && isInitialSyncDone
      ensures internalChanges <= old(internalChanges)
      ensures NoKindConflicts(source, old(replica), []) && CopiesSucceed(io, []) ==> replica == source
    {
      SynchronizeFolders([], io);
      if NoKindConflicts(source, old(replica), []) && CopiesSucceed(io, []) {
        MirroredEverywhere(source, replica);
      }
      isInitialSyncDone := true;
    }

    /** OnFileChanged: a source file that is not ignored is copied. */
    method OnFileChanged(rel: Path, io: CopyIO)
      requires Valid() && rel != []
      modifies this`replica, this`internalChanges
      ensures Valid()
      ensures internalChanges <= old(internalChanges)
      ensures replica == EventEffect(old(replica), old(internalChanges), Changed(rel), io)
    {
      var ignore := ShouldIgnore(FullPath(sourceRoot, rel));
      if ignore {
        return;
      }
      if IsFile(source, rel) {
        var copied, attempts := CopyFileWithRetry(rel, io);
      }
    }

    /** OnFileCreated: a source file that is not ignored is copied, a source directory created in the replica. */
    method OnFileCreated(rel: Path, io: CopyIO)
      requires Valid() && rel != []
      modifies this`replica, this`internalChanges
      ensures Valid()
      ensures internalChanges <= old(internalChanges)
      ensures replica == EventEffect(old(replica), old(internalChanges), Created(rel), io)
    {
      var ignore := ShouldIgnore(FullPath(sourceRoot, rel));
      if ignore {
        return;
      }
      if IsFile(source, rel) {
        var copied, attempts := CopyFileWithRetry(rel, io);
      } else if rel in source {
        var ok := CreateDirectory(rel);
      }
    }

    /** OnFileDeleted: the replica's file at the path, or else its directory, is deleted. */
    method OnFileDeleted(rel: Path, io: CopyIO)
      requires Valid() && rel != []
      modifies this`replica
      ensures Valid()
      ensures replica == EventEffect(old(replica), internalChanges, Deleted(rel), io)
    {
      var ignore := ShouldIgnore(FullPath(sourceRoot, rel));
      if ignore {
        return;
      }
      if IsFile(replica, rel) {
        DeleteFile(rel);
      } else if rel in replica {
        DeleteDirectory(rel);
      }
    }

    /**
     * OnFileRenamed: skipped only when both paths are ignored; otherwise the
     * replica's old entry is deleted and the new one handled as a create.
     */
    method OnFileRenamed(oldRel: Path, newRel: Path, io: CopyIO)
      requires Valid() && oldRel != [] && newRel != []
      modifies this`replica, this`internalChanges
      ensures Valid()
      ensures internalChanges <= old(internalChanges)
      ensures replica == EventEffect(old(replica), old(internalChanges), Renamed(oldRel, newRel), io)
    {
      var ignoreOld := ShouldIgnore(FullPath(sourceRoot, oldRel));
      var ignoreNew := ShouldIgnore(FullPath(sourceRoot, newRel));
      if ignoreOld && ignoreNew {
        return;
      }
      if IsFile(replica, oldRel) {
        DeleteFile(oldRel);
      } else if oldRel in replica {
        DeleteDirectory(oldRel);
      }
      if IsFile(source, newRel) {
        var copied, attempts := CopyFileWithRetry(newRel, io);
      } else if newRel in source {
        var ok := CreateDirectory(newRel);
      }
    }

    /**
     * HandleEvent: before the initial synchronization is done an event
     * changes nothing; afterwards it goes to its handler.
     */
    method HandleEvent(e: Event, io: CopyIO)
      requires Valid() && e.path != [] && (e.Renamed? ==> e.oldPath != [])
      modifies this`replica, this`internalChanges
      ensures Valid()
      ensures internalChanges <= old(internalChanges)
      ensures !isInitialSyncDone ==> replica == old(replica) && internalChanges == old(internalChanges)
      ensures isInitialSyncDone ==> replica == EventEffect(old(replica), old(internalChanges), e, io)
    {
      if !isInitialSyncDone {
        return;
      }
      match e
      case Changed(rel) => OnFileChanged(rel, io);
      case Created(rel) => OnFileCreated(rel, io);
      case Deleted(rel) => OnFileDeleted(rel, io);
      case Renamed(oldRel, rel) => OnFileRenamed(oldRel, rel, io);
    }

    /** The replica after an event that passes the gate, from the replica and the marks before it. */
    ghost function EventEffect(r: Tree, marks: set<string>, e: Event, io: CopyIO): Tree
      reads this
      requires e.path != [] && (e.Renamed? ==> e.oldPath != [])
    {
      match e
      case Changed(rel) => if Ignored(marks, FullPath(sourceRoot, rel)) then r else ChangedEffect(source, r, rel, io)
      case Created(rel) => if Ignored(marks, FullPath(sourceRoot, rel)) then r else CreatedEffect(source, r, rel, io)
      case Deleted(rel) => if Ignored(marks, FullPath(sourceRoot, rel)) then r else DeletedEffect(r, rel)
      case Renamed(oldRel, rel) =>
        if Ignored(marks, FullPath(sourceRoot, oldRel)) && Ignored(marks, FullPath(sourceRoot, rel)) then r
        else RenamedEffect(source, r, oldRel, rel, io)
    }

    /** The replica's file at rel, or else its directory, deleted; as both OnFileDeleted and OnFileRenamed do. */
    method DeleteEntry(rel: Path)
      requires Valid() && rel != []
      modifies this`replica
      ensures Valid() && replica == DeletedEffect(old(replica), rel)
    {
      if IsFile(replica, rel) {
        DeleteFile(rel);
      } else if rel in replica {
        DeleteDirectory(rel);
      }
    }

    /**
     * OnFileRenamed as it evidently should be: a renamed directory is
     * synchronized whole, so that it ends up mirrored; anything else is
     * handled as before. Outside the two paths the replica keeps its entries.
     */
    method OnFileRenamedCorrected(oldRel: Path, newRel: Path, io: CopyIO)
      requires Valid() && oldRel != [] && newRel != []
      modifies this`replica, this`internalChanges
      ensures Valid()
      ensures internalChanges <= old(internalChanges)
      ensures !(newRel in source && source[newRel].Directory?) ==>
        replica == EventEffect(old(replica), old(internalChanges), Renamed(oldRel, newRel), io)
      ensures var deleted := DeletedEffect(old(replica), oldRel);
        && !(Ignored(old(internalChanges), FullPath(sourceRoot, oldRel)) && Ignored(old(internalChanges), FullPath(sourceRoot, newRel)))
        && newRel in source && source[newRel].Directory? && CanCreate(deleted, Parent(newRel))
        && NoKindConflicts(source, deleted, newRel) && CopiesSucceed(io, newRel)
        ==> MirroredAt(source, replica, newRel)
      ensures newRel in source && source[newRel].Directory? ==>
        if Ignored(old(internalChanges), FullPath(sourceRoot, oldRel)) && Ignored(old(internalChanges), FullPath(sourceRoot, newRel))
        then replica == old(replica)
        else KeptOutside(DeletedEffect(old(replica), oldRel), replica, newRel, Parent(newRel))
      ensures forall x :: !Under(oldRel, x) && !Under(newRel, x) && x in old(replica) ==> x in replica && replica[x] == old(replica)[x]
    {
      var ignoreOld := ShouldIgnore(FullPath(sourceRoot, oldRel));
      var ignoreNew := ShouldIgnore(FullPath(sourceRoot, newRel));
      if ignoreOld && ignoreNew {
        return;
      }
      DeleteEntry(oldRel);
      DeletedMeaning(old(replica), oldRel);
      if IsFile(source, newRel) {
        var copied, attempts := CopyFileWithRetry(newRel, io);
        RenamedKeepsOthers(source, old(replica), oldRel, newRel, io);
      } else if newRel in source {
        SyncRenamedDirectory(newRel, io);
      } else {
        RenamedKeepsOthers(source, old(replica), oldRel, newRel, io);
      }
    }

    /** The corrected rename's directory branch: create the parent, then synchronize the directory whole. */
    method SyncRenamedDirectory(rel: Path, io: CopyIO)
      requires Valid() && rel != [] && rel in source && source[rel].Directory?
      modifies this`replica, this`internalChanges
      ensures Valid()
      ensures internalChanges <= old(internalChanges)
      ensures KeptOutside(old(replica), replica, rel, Parent(rel))
      ensures CanCreate(old(replica), Parent(rel)) && NoKindConflicts(source, old(replica), rel) && CopiesSucceed(io, rel)
        ==> MirroredAt(source, replica, rel)
    {
      var ok := CreateDirectory(Parent(rel));
      if ok {
        WithDirectoriesMeaning(old(replica), Parent(rel));
        CreateAboveKeeps(old(replica), rel);
        if NoKindConflicts(source, old(replica), rel) && CopiesSucceed(io, rel) {
          assert Under(rel, rel);
          ConditionsBelow(source, old(replica), replica, rel, rel, io);
        }
        ghost var r1 := replica;
        SynchronizeFolders(rel, io);
        KeptAfterCreate(old(replica), r1, replica, rel);
      }
    }
  }
}
