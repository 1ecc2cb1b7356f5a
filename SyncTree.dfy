/**
 * The folder synchronizer's view of the two folders it keeps in step: each
 * folder is a tree of entries keyed by their path relative to the folder,
 * and every change the synchronizer makes to the replica is described here
 * as a function of the trees before it.
 */
module SyncTree {
  /** A path below a synchronized folder, as its list of names. */
  type Path = seq<string>

  datatype Node = File(content: seq<int>) | Directory

  /** The entries below a folder, keyed by relative path; the folder itself is not an entry. */
  type Tree = map<Path, Node>

  /** `q` is `root` or lies below it. */
  predicate Under(root: Path, q: Path) {
    |root| <= |q| && q[..|root|] == root
  }

  function Parent(q: Path): Path
    requires q != []
  {
    q[..|q| - 1]
  }

  predicate IsChild(rel: Path, q: Path) {
    |q| == |rel| + 1 && q[..|rel|] == rel
  }

  /** `rel` is the folder itself or a directory entry. */
  predicate IsDir(t: Tree, rel: Path) {
    rel == [] || (rel in t && t[rel].Directory?)
  }

  predicate IsFile(t: Tree, rel: Path) {
    rel in t && t[rel].File?
  }

  /** What every file system guarantees: the parent of each entry is the folder itself or a directory entry. */
  ghost predicate TreeShaped(t: Tree) {
    forall q :: q in t ==> q != [] && IsDir(t, Parent(q))
  }

  lemma UnderParent(d: Path, q: Path)
    requires q != [] && Under(d, Parent(q))
    ensures Under(d, q)
  {
    assert q[..|d|] == Parent(q)[..|d|];
  }

  /** In a tree every proper ancestor of an entry is a directory. */
  lemma {:induction false} AncestorsAreDirectories(t: Tree, q: Path, k: nat)
    requires TreeShaped(t) && q in t && k < |q|
    ensures IsDir(t, q[..k])
    decreases |q| - k
  {
    if k == |q| - 1 {
      assert q[..k] == Parent(q);
    } else {
      AncestorsAreDirectories(t, q, k + 1);
      var p := q[..k + 1];
      assert Parent(p) == q[..k];
    }
  }

  /** Below a path that is not a directory there is nothing. */
  lemma NothingBelow(t: Tree, c: Path, q: Path)
    requires TreeShaped(t) && c != [] && !IsDir(t, c) && Under(c, q) && q != c
    ensures q !in t
  {
    if q in t {
      AncestorsAreDirectories(t, q, |c|);
    }
  }

  // ----- Directory.CreateDirectory -----

  /** No file stands where Directory.CreateDirectory(rel) needs a directory: at rel or above it. */
  predicate CanCreate(t: Tree, rel: Path) {
    forall k :: 1 <= k <= |rel| ==> !IsFile(t, rel[..k])
  }

  /** The tree after Directory.CreateDirectory(rel): rel and its missing ancestors added as directories. */
  function WithDirectories(t: Tree, rel: Path): Tree
    decreases |rel|
  {
    if rel == [] then t
    else
      var u := WithDirectories(t, Parent(rel));
      if rel in u then u else u[rel := Directory]
  }

  /**
   * Creating a directory where no file is in the way keeps the tree shape,
   * leaves a directory at rel, keeps every entry, and adds nothing but
   * directories at rel and above it.
   */
  lemma {:induction false} WithDirectoriesMeaning(t: Tree, rel: Path)
    requires TreeShaped(t) && CanCreate(t, rel)
    ensures Added(t, WithDirectories(t, rel), rel)
    decreases |rel|
  {
    if rel != [] {
      var p := Parent(rel);
      assert CanCreate(t, p) by {
        forall k | 1 <= k <= |p|
          ensures !IsFile(t, p[..k])
        {
          assert p[..k] == rel[..k];
        }
      }
      WithDirectoriesMeaning(t, p);
      WithDirectoriesStep(t, rel, WithDirectories(t, p));
    }
  }

  /**
   * u is t with directories added at rel and above it only: the tree shape
   * kept, a directory at rel, and every entry of t kept.
   */
  ghost predicate Added(t: Tree, u: Tree, rel: Path) {
    && TreeShaped(u) && IsDir(u, rel)
    && (forall q :: q in t ==> q in u && u[q] == t[q])
    && (forall q :: q in u && q !in t ==> Under(q, rel) && u[q] == Directory)
  }

  lemma WithDirectoriesStep(t: Tree, rel: Path, u: Tree)
    requires rel != [] && CanCreate(t, rel) && Added(t, u, Parent(rel))
    ensures Added(t, if rel in u then u else u[rel := Directory], rel)
  {
    var p := Parent(rel);
    assert rel[..|rel|] == rel;
    forall q | q in u && q !in t
      ensures Under(q, rel)
    {
      assert rel[..|q|] == p[..|q|];
    }
    if rel in u {
      assert IsDir(u, rel);
    } else {
      var v := u[rel := Directory];
      assert TreeShaped(v) by {
        forall q | q in v
          ensures q != [] && IsDir(v, Parent(q))
        {
          if q != rel {
            assert IsDir(u, Parent(q));
          }
        }
      }
      assert forall q :: q in t ==> q in v && v[q] == t[q];
    }
  }

  /** Creating a directory that is already there changes nothing. */
  lemma {:induction false} WithDirectoriesExisting(t: Tree, rel: Path)
    requires TreeShaped(t) && IsDir(t, rel)
    ensures CanCreate(t, rel) && WithDirectories(t, rel) == t
    decreases |rel|
  {
    if rel != [] {
      var p := Parent(rel);
      WithDirectoriesExisting(t, p);
      forall k | 1 <= k <= |rel|
        ensures !IsFile(t, rel[..k])
      {
        if k < |rel| {
          AncestorsAreDirectories(t, rel, k);
        } else {
          assert rel[..k] == rel;
        }
      }
    }
  }

  // ----- File.Delete and Directory.Delete(path, true) -----

  /** The tree after a recursive delete of d: d and everything below it gone. */
  function RemoveTree(t: Tree, d: Path): Tree {
    map q | q in t && !Under(d, q) :: t[q]
  }

  lemma RemoveTreeShaped(t: Tree, d: Path)
    requires TreeShaped(t)
    ensures TreeShaped(RemoveTree(t, d))
  {
    var r := RemoveTree(t, d);
    forall q | q in r
      ensures q != [] && IsDir(r, Parent(q))
    {
      if Parent(q) != [] && Under(d, Parent(q)) {
        UnderParent(d, q);
      }
    }
  }

  lemma RemoveFileShaped(t: Tree, f: Path)
    requires TreeShaped(t) && IsFile(t, f)
    ensures TreeShaped(t - {f})
  {
  }

  // ----- CopyFileWithRetry -----

  datatype AttemptResult = Copied | InUse | OtherError

  /**
   * What the file system answers to attempt `n` at copying the file at a
   * path, when nothing in the trees already rules the copy out. InUse is the
   * IOException about a file being used by another process.
   */
  type CopyIO = (Path, nat) -> AttemptResult

  const MaxRetryAttempts: nat := 5

  /** One attempt: a missing source file or a directory in the way fails it; otherwise the file system decides. */
  function AttemptOutcome(source: Tree, replica: Tree, rel: Path, io: CopyIO, attempt: nat): AttemptResult {
    if IsFile(source, rel) && !(rel in replica && replica[rel].Directory?) then io(rel, attempt) else OtherError
  }

  /** The attempts from `attempt` on, with nothing changing between them: whether one copied, and the last one made. */
  function Retry(source: Tree, replica: Tree, rel: Path, io: CopyIO, attempt: nat): (r: (bool, nat))
    requires 1 <= attempt <= MaxRetryAttempts
    ensures attempt <= r.1 <= MaxRetryAttempts
    ensures r.0 <==> AttemptOutcome(source, replica, rel, io, r.1) == Copied
    decreases MaxRetryAttempts - attempt
  {
    var o := AttemptOutcome(source, replica, rel, io, attempt);
    if o == Copied then (true, attempt)
    else if o == InUse && attempt < MaxRetryAttempts then Retry(source, replica, rel, io, attempt + 1)
    else (false, attempt)
  }

  /**
   * At most five attempts, and only an in-use answer is retried: every
   * attempt before the last was InUse, and a failed copy ended on another
   * error or on the fifth attempt.
   */
  lemma {:induction false} RetryMeaning(source: Tree, replica: Tree, rel: Path, io: CopyIO, attempt: nat)
    requires 1 <= attempt <= MaxRetryAttempts
    ensures var (copied, n) := Retry(source, replica, rel, io, attempt);
      && (forall k :: attempt <= k < n ==> AttemptOutcome(source, replica, rel, io, k) == InUse)
      && (!copied ==> AttemptOutcome(source, replica, rel, io, n) == OtherError || n == MaxRetryAttempts)
    decreases MaxRetryAttempts - attempt
  {
    var o := AttemptOutcome(source, replica, rel, io, attempt);
    if o == InUse && attempt < MaxRetryAttempts {
      RetryMeaning(source, replica, rel, io, attempt + 1);
    }
  }

  /** What CopyFileWithRetry did: whether the file was copied, how many attempts it made, and the replica after it. */
  datatype CopyReport = CopyReport(copied: bool, attempts: nat, replica: Tree)

  /**
   * CopyFileWithRetry(source/rel, replica/rel): each attempt first creates
   * the target's directory (a file in the way ends the copy at once), then
   * copies or fails as the attempt's outcome says.
   */
  function CopyResult(source: Tree, replica: Tree, rel: Path, io: CopyIO): CopyReport
    requires rel != []
  {
    if !CanCreate(replica, Parent(rel)) then CopyReport(false, 1, replica)
    else
      var r := WithDirectories(replica, Parent(rel));
      var (copied, n) := Retry(source, r, rel, io, 1);
      CopyReport(copied, n, if copied then r[rel := source[rel]] else r)
  }

  /** One step of the retry loop: a copy or another error ends it, an in-use answer moves on. */
  lemma RetryStep(source: Tree, replica: Tree, rel: Path, io: CopyIO, attempt: nat)
    requires 1 <= attempt <= MaxRetryAttempts
    ensures var o := AttemptOutcome(source, replica, rel, io, attempt);
      Retry(source, replica, rel, io, attempt) ==
        if o == Copied then (true, attempt)
        else if o == OtherError || attempt == MaxRetryAttempts then (false, attempt)
        else Retry(source, replica, rel, io, attempt + 1)
  {
  }

  /** The copy's report read from the directory creation and the attempts. */
  lemma CopyResultCases(source: Tree, replica: Tree, rel: Path, io: CopyIO)
    requires rel != []
    ensures !CanCreate(replica, Parent(rel)) ==> CopyResult(source, replica, rel, io) == CopyReport(false, 1, replica)
    ensures CanCreate(replica, Parent(rel)) ==>
      var r := WithDirectories(replica, Parent(rel));
      var (copied, n) := Retry(source, r, rel, io, 1);
      CopyResult(source, replica, rel, io) == CopyReport(copied, n, if copied then r[rel := source[rel]] else r)
  {
  }

  /** The file system lets attempt `attempt` or a later one through, with only in-use answers before it. */
  predicate Succeeds(io: CopyIO, rel: Path, attempt: nat)
    requires 1 <= attempt <= MaxRetryAttempts
    decreases MaxRetryAttempts - attempt
  {
    || io(rel, attempt) == Copied
    || (io(rel, attempt) == InUse && attempt < MaxRetryAttempts && Succeeds(io, rel, attempt + 1))
  }

  lemma {:induction false} RetrySucceeds(source: Tree, replica: Tree, rel: Path, io: CopyIO, attempt: nat)
    requires 1 <= attempt <= MaxRetryAttempts
    requires IsFile(source, rel) && !(rel in replica && replica[rel].Directory?) && Succeeds(io, rel, attempt)
    ensures Retry(source, replica, rel, io, attempt).0
    decreases MaxRetryAttempts - attempt
  {
    if io(rel, attempt) != Copied {
      RetrySucceeds(source, replica, rel, io, attempt + 1);
    }
  }

  /**
   * A copy keeps the tree shape and every other entry, adds nothing but
   * the copied file and directories above it, and on success leaves the
   * replica's file equal to the source's.
   */
  lemma CopyMeaning(source: Tree, replica: Tree, rel: Path, io: CopyIO)
    requires rel != [] && TreeShaped(replica)
    ensures var c := CopyResult(source, replica, rel, io);
      && TreeShaped(c.replica)
      && (c.copied ==> IsFile(source, rel) && c.replica[rel] == source[rel])
      && (forall q :: q in replica && q != rel ==> q in c.replica && c.replica[q] == replica[q])
      && (forall q :: q in c.replica && q !in replica ==> q == rel || (Under(q, Parent(rel)) && c.replica[q] == Directory))
  {
    if CanCreate(replica, Parent(rel)) {
      var r := WithDirectories(replica, Parent(rel));
      WithDirectoriesMeaning(replica, Parent(rel));
      forall q | q in r && q !in replica
        ensures q != rel
      {
        assert |q| <= |rel| - 1;
      }
      if Retry(source, r, rel, io, 1).0 {
        var v := r[rel := source[rel]];
        assert TreeShaped(v) by {
          forall q | q in v
            ensures q != [] && IsDir(v, Parent(q))
          {
            if q != rel {
              assert IsDir(r, Parent(q));
            }
          }
        }
      }
    }
  }

  /**
   * The copy succeeds when the source file exists, nothing in the replica is
   * in the way, and the file system lets one of the five attempts through.
   */
  lemma CopySucceeds(source: Tree, replica: Tree, rel: Path, io: CopyIO)
    requires rel != [] && TreeShaped(replica)
    requires IsFile(source, rel) && CanCreate(replica, Parent(rel)) && !(rel in replica && replica[rel].Directory?)
    requires Succeeds(io, rel, 1)
    ensures CopyResult(source, replica, rel, io).copied
  {
    WithDirectoriesMeaning(replica, Parent(rel));
    var r := WithDirectories(replica, Parent(rel));
    RetrySucceeds(source, r, rel, io, 1);
  }

  // ----- the event handlers' effect on the replica -----

  datatype Event =
    | Changed(path: Path)
    | Created(path: Path)
    | Deleted(path: Path)
    | Renamed(oldPath: Path, path: Path)

  /** OnFileDeleted: the replica's file at rel, or else its directory at rel with everything below it, removed. */
  function DeletedEffect(replica: Tree, rel: Path): Tree {
    if IsFile(replica, rel) then replica - {rel}
    else if rel in replica then RemoveTree(replica, rel)
    else replica
  }

  /** OnFileCreated: a source file copied; a source directory created in the replica, empty. */
  function CreatedEffect(source: Tree, replica: Tree, rel: Path, io: CopyIO): Tree
    requires rel != []
  {
    if IsFile(source, rel) then CopyResult(source, replica, rel, io).replica
    else if rel in source && CanCreate(replica, rel) then WithDirectories(replica, rel)
    else replica
  }

  /** OnFileChanged: a source file copied; anything else left alone. */
  function ChangedEffect(source: Tree, replica: Tree, rel: Path, io: CopyIO): Tree
    requires rel != []
  {
    if IsFile(source, rel) then CopyResult(source, replica, rel, io).replica else replica
  }

  /** OnFileRenamed: the old entry deleted, then the new one handled as OnFileCreated handles it. */
  function RenamedEffect(source: Tree, replica: Tree, oldRel: Path, newRel: Path, io: CopyIO): Tree
    requires newRel != []
  {
    CreatedEffect(source, DeletedEffect(replica, oldRel), newRel, io)
  }

  /**
   * A delete keeps the tree shape, leaves nothing at or below rel, and
   * keeps every entry elsewhere.
   */
  lemma DeletedMeaning(replica: Tree, rel: Path)
    requires TreeShaped(replica) && rel != []
    ensures var r := DeletedEffect(replica, rel);
      && TreeShaped(r)
      && (forall q :: Under(rel, q) ==> q !in r)
      && (forall q :: !Under(rel, q) ==> (q in r <==> q in replica) && (q in r ==> r[q] == replica[q]))
  {
    var r := DeletedEffect(replica, rel);
    if IsFile(replica, rel) {
      RemoveFileShaped(replica, rel);
      forall q | Under(rel, q) && q != rel
        ensures q !in r
      {
        NothingBelow(replica, rel, q);
      }
      assert Under(rel, rel);
    } else if rel in replica {
      RemoveTreeShaped(replica, rel);
    } else {
      forall q | Under(rel, q)
        ensures q !in r
      {
        if q != rel {
          NothingBelow(replica, rel, q);
        }
      }
    }
  }

  /**
   * A create keeps the tree shape; a created source directory is a
   * directory in the replica when no file is in its way, and a created
   * source file is the replica's file when its copy goes through.
   */
  lemma CreatedMeaning(source: Tree, replica: Tree, rel: Path, io: CopyIO)
    requires TreeShaped(replica) && rel != []
    ensures var r := CreatedEffect(source, replica, rel, io);
      && TreeShaped(r)
      && (rel in source && source[rel].Directory? && CanCreate(replica, rel) ==> IsDir(r, rel))
      && (IsFile(source, rel) && CopyResult(source, replica, rel, io).copied ==> r[rel] == source[rel])
  {
    if IsFile(source, rel) {
      CopyMeaning(source, replica, rel, io);
    } else if rel in source && CanCreate(replica, rel) {
      WithDirectoriesMeaning(replica, rel);
    }
  }

  /**
   * A rename to a path outside the old one leaves nothing at or below the
   * old path, and handles the new path as a create does.
   */
  lemma RenamedMeaning(source: Tree, replica: Tree, oldRel: Path, newRel: Path, io: CopyIO)
    requires TreeShaped(replica) && oldRel != [] && newRel != [] && !Under(oldRel, newRel)
    ensures var r := RenamedEffect(source, replica, oldRel, newRel, io);
      && TreeShaped(r)
      && (forall q :: Under(oldRel, q) ==> q !in r)
      && r == CreatedEffect(source, DeletedEffect(replica, oldRel), newRel, io)
  {
    DeletedMeaning(replica, oldRel);
    var d := DeletedEffect(replica, oldRel);
    CreatedMeaning(source, d, newRel, io);
    var r := RenamedEffect(source, replica, oldRel, newRel, io);
    forall q | Under(oldRel, q)
      ensures q !in r
    {
      if q in r {
        assert q !in d;
        AddedAbove(source, d, newRel, io, q);
      }
    }
  }

  /** Whatever a create adds to the replica is the created path or a directory above it. */
  lemma AddedAbove(source: Tree, replica: Tree, rel: Path, io: CopyIO, q: Path)
    requires TreeShaped(replica) && rel != []
    requires q in CreatedEffect(source, replica, rel, io) && q !in replica
    ensures Under(q, rel)
  {
    if IsFile(source, rel) {
      CopyMeaning(source, replica, rel, io);
      if q != rel {
        assert Under(q, Parent(rel));
        assert rel[..|q|] == Parent(rel)[..|q|];
      }
    } else {
      WithDirectoriesMeaning(replica, rel);
    }
  }

  // ----- the mirror -----

  /** The two trees agree about q: both lack it, or both hold the same entry there. */
  ghost predicate Same(a: Tree, b: Tree, q: Path) {
    (q in a <==> q in b) && (q in a ==> a[q] == b[q])
  }

  /**
   * Outside rel, b keeps every entry of a, and the only entries it adds are
   * directories at `above` or on the path to it.
   */
  ghost predicate KeptOutside(a: Tree, b: Tree, rel: Path, above: Path) {
    forall x :: !Under(rel, x) ==>
      && (x in a ==> x in b && b[x] == a[x])
      && (x in b && x !in a ==> Under(x, above) && b[x] == Directory)
  }

  /** At and below rel the replica holds exactly the source's entries. */
  ghost predicate MirroredAt(source: Tree, replica: Tree, rel: Path) {
    forall q :: Under(rel, q) ==> Same(source, replica, q)
  }

  /** At and below rel, no path is a file on one side and a directory on the other. */
  ghost predicate NoKindConflicts(source: Tree, replica: Tree, rel: Path) {
    forall q :: Under(rel, q) && q in source && q in replica ==> (source[q].File? <==> replica[q].File?)
  }

  /** Every copy at or below rel gets through one of its five attempts. */
  ghost predicate CopiesSucceed(io: CopyIO, rel: Path) {
    forall q :: Under(rel, q) ==> Succeeds(io, q, 1)
  }

  /** Mirrored at the root means equal. */
  lemma MirroredEverywhere(source: Tree, replica: Tree)
    requires MirroredAt(source, replica, [])
    ensures replica == source
  {
    forall q
      ensures (q in replica <==> q in source) && (q in replica ==> replica[q] == source[q])
    {
      assert Under([], q);
      assert Same(source, replica, q);
    }
  }

  lemma UnderTransitive(a: Path, b: Path, c: Path)
    requires Under(a, b) && Under(b, c)
    ensures Under(a, c)
  {
    assert c[..|a|] == b[..|a|];
  }

  // ----- the parts of a folder that SynchronizeFolders enumerates -----

  /** Directory.GetFiles at rel. */
  function Files(t: Tree, rel: Path): set<Path> {
    set q | q in t && IsChild(rel, q) && t[q].File?
  }

  /** Directory.GetDirectories at rel. */
  function Directories(t: Tree, rel: Path): set<Path> {
    set q | q in t && IsChild(rel, q) && t[q].Directory?
  }

  /** The replica's files at rel with no file at the same path in the source. */
  function ExtraFiles(source: Tree, replica: Tree, rel: Path): set<Path> {
    set q | q in replica && IsChild(rel, q) && replica[q].File? && !IsFile(source, q)
  }

  /** The replica's directories at rel with no directory at the same path in the source. */
  function ExtraDirectories(source: Tree, replica: Tree, rel: Path): set<Path> {
    set q | q in replica && IsChild(rel, q) && replica[q].Directory? && !(q in source && source[q].Directory?)
  }

  /** x lies at or below one of the children ds of rel. */
  ghost predicate Within(ds: set<Path>, rel: Path, x: Path) {
    Under(rel, x) && |x| > |rel| && x[..|rel| + 1] in ds
  }

  /** The entries strictly below rel. */
  ghost function Below(t: Tree, rel: Path): set<Path> {
    set q | q in t && Under(rel, q) && q != rel
  }

  /** Below a child directory there is strictly less than below its parent. */
  lemma BelowShrinks(t: Tree, rel: Path, d: Path)
    requires IsChild(rel, d) && d in t
    ensures Below(t, d) < Below(t, rel)
  {
    forall q | q in Below(t, d)
      ensures q in Below(t, rel)
    {
      assert Under(rel, d);
      UnderTransitive(rel, d, q);
    }
    assert d in Below(t, rel);
  }

  /** What lies below a child d of rel is what has d as its first step below rel. */
  lemma UnderChild(rel: Path, d: Path, x: Path)
    requires IsChild(rel, d)
    ensures Under(d, x) <==> Under(rel, x) && |x| > |rel| && x[..|rel| + 1] == d
  {
    if Under(d, x) {
      assert x[..|rel|] == d[..|rel|];
      assert x[..|rel| + 1] == d;
    }
  }

  /** An attempt only looks at the replica's entry at the copied path. */
  lemma {:induction false} RetrySame(source: Tree, a: Tree, b: Tree, rel: Path, io: CopyIO, attempt: nat)
    requires 1 <= attempt <= MaxRetryAttempts && Same(a, b, rel)
    ensures Retry(source, a, rel, io, attempt) == Retry(source, b, rel, io, attempt)
    decreases MaxRetryAttempts - attempt
  {
    if attempt < MaxRetryAttempts {
      RetrySame(source, a, b, rel, io, attempt + 1);
    }
  }

  /** Writing a file where there is no directory, in an existing directory, keeps the tree shape. */
  lemma WriteFileShaped(t: Tree, rel: Path, n: Node)
    requires TreeShaped(t) && rel != [] && IsDir(t, Parent(rel)) && !(rel in t && t[rel].Directory?) && n.File?
    ensures TreeShaped(t[rel := n])
  {
    var u := t[rel := n];
    forall q | q in u
      ensures q != [] && IsDir(u, Parent(q))
    {
      if q != rel {
        assert IsDir(t, Parent(q));
      }
    }
  }

  /** A copy into an existing directory writes the one file or nothing. */
  lemma CopyInPlace(source: Tree, replica: Tree, rel: Path, io: CopyIO)
    requires rel != [] && TreeShaped(replica) && IsDir(replica, Parent(rel))
    ensures var (copied, n) := Retry(source, replica, rel, io, 1);
      CopyResult(source, replica, rel, io) == CopyReport(copied, n, if copied then replica[rel := source[rel]] else replica)
  {
    WithDirectoriesExisting(replica, Parent(rel));
  }

  // ----- the finding about renamed directories -----

  /**
   * OnFileRenamed deletes the old directory with its contents and creates
   * the new one empty: renaming a directory that holds a file loses the file
   * from the replica.
   */
  lemma RenamedDirectoryLosesContents(io: CopyIO)
    ensures var source := map[["new"] := Directory, ["new", "a.txt"] := File([7])];
      var replica := map[["old"] := Directory, ["old", "a.txt"] := File([7])];
      var r := RenamedEffect(source, replica, ["old"], ["new"], io);
      && r == map[["new"] := Directory]
      && ["new", "a.txt"] in source && ["new", "a.txt"] !in r
  {
    var source := map[["new"] := Directory, ["new", "a.txt"] := File([7])];
    var replica := map[["old"] := Directory, ["old", "a.txt"] := File([7])];
    var d := DeletedEffect(replica, ["old"]);
    assert Under(["old"], ["old", "a.txt"]);
    assert d == map[];
    assert CanCreate(d, ["new"]);
    assert WithDirectories(d, ["new"]) == map[["new"] := Directory] by {
      assert Parent(["new"]) == [];
    }
  }

  // ----- SynchronizeFolders, phase by phase -----

  /**
   * The replica at the end of SynchronizeFolders at rel is a mirror of the
   * source below rel when rel was created (r1), every source file at rel was
   * copied (r2), every source directory at rel is mirrored (r3), the extra
   * files at rel were deleted (r4), and then the extra directories at rel (r5).
   */
  lemma {:induction false} MirrorAfterPhases(s: Tree, r1: Tree, r2: Tree, r3: Tree, r4: Tree, r5: Tree, rel: Path)
    requires TreeShaped(s) && TreeShaped(r1) && TreeShaped(r3) && IsDir(s, rel) && IsDir(r1, rel)
    requires forall x :: x in Files(s, rel) ==> x in r2 && r2[x] == s[x]
    requires forall x :: x !in Files(s, rel) ==> Same(r1, r2, x)
    requires forall d :: d in Directories(s, rel) ==> MirroredAt(s, r3, d)
    requires forall x :: !Within(Directories(s, rel), rel, x) ==> Same(r2, r3, x)
    requires forall x :: x in ExtraFiles(s, r3, rel) ==> x !in r4
    requires forall x :: x !in ExtraFiles(s, r3, rel) ==> Same(r3, r4, x)
    requires forall x :: Within(ExtraDirectories(s, r4, rel), rel, x) ==> x !in r5
    requires forall x :: !Within(ExtraDirectories(s, r4, rel), rel, x) ==> Same(r4, r5, x)
    ensures MirroredAt(s, r5, rel)
  {
    forall x | Under(rel, x)
      ensures Same(s, r5, x)
    {
      if x == rel {
        assert x !in Files(s, rel) && !Within(Directories(s, rel), rel, x);
        assert x !in ExtraFiles(s, r3, rel) && !Within(ExtraDirectories(s, r4, rel), rel, x);
      } else {
        var c := x[..|rel| + 1];
        assert IsChild(rel, c);
        UnderChild(rel, c, x);
        if c in s && s[c].Directory? {
          MirrorInDirectory(s, r3, r4, r5, rel, c, x);
        } else if c in s {
          MirrorAtFile(s, r1, r2, r3, r4, r5, rel, c, x);
        } else {
          MirrorOutside(s, r3, r4, r5, rel, c, x);
        }
      }
    }
  }

  lemma MirrorInDirectory(s: Tree, r3: Tree, r4: Tree, r5: Tree, rel: Path, c: Path, x: Path)
    requires IsChild(rel, c) && Under(c, x) && c in s && s[c].Directory?
    requires forall d :: d in Directories(s, rel) ==> MirroredAt(s, r3, d)
    requires forall x :: x !in ExtraFiles(s, r3, rel) ==> Same(r3, r4, x)
    requires forall x :: !Within(ExtraDirectories(s, r4, rel), rel, x) ==> Same(r4, r5, x)
    ensures Same(s, r5, x)
  {
    UnderChild(rel, c, x);
    assert c in Directories(s, rel);
    assert Same(s, r3, x) && Same(s, r3, c) by {
      assert Under(c, c);
    }
    assert x !in ExtraFiles(s, r3, rel);
    assert Same(r3, r4, x) && Same(r3, r4, c);
    assert c !in ExtraDirectories(s, r4, rel);
    assert !Within(ExtraDirectories(s, r4, rel), rel, x);
  }

  lemma MirrorAtFile(s: Tree, r1: Tree, r2: Tree, r3: Tree, r4: Tree, r5: Tree, rel: Path, c: Path, x: Path)
    requires TreeShaped(s) && TreeShaped(r3)
    requires IsChild(rel, c) && Under(c, x) && c in s && s[c].File?
    requires forall x :: x in Files(s, rel) ==> x in r2 && r2[x] == s[x]
    requires forall x :: !Within(Directories(s, rel), rel, x) ==> Same(r2, r3, x)
    requires forall x :: x in ExtraFiles(s, r3, rel) ==> x !in r4
    requires forall x :: x !in ExtraFiles(s, r3, rel) ==> Same(r3, r4, x)
    requires forall x :: Within(ExtraDirectories(s, r4, rel), rel, x) ==> x !in r5
    requires forall x :: !Within(ExtraDirectories(s, r4, rel), rel, x) ==> Same(r4, r5, x)
    ensures Same(s, r5, x)
  {
    UnderChild(rel, c, x);
    assert c in Files(s, rel) && c !in Directories(s, rel);
    assert c[..|rel| + 1] == c;
    assert !Within(Directories(s, rel), rel, c);
    assert Same(r2, r3, c);
    assert c !in ExtraFiles(s, r3, rel);
    if x == c {
      assert c !in ExtraDirectories(s, r4, rel);
      assert !Within(ExtraDirectories(s, r4, rel), rel, c);
    } else {
      NothingBelow(s, c, x);
      NothingBelow(r3, c, x);
    }
  }

  lemma MirrorOutside(s: Tree, r3: Tree, r4: Tree, r5: Tree, rel: Path, c: Path, x: Path)
    requires TreeShaped(s) && TreeShaped(r3)
    requires IsChild(rel, c) && Under(c, x) && c !in s
    requires forall x :: x in ExtraFiles(s, r3, rel) ==> x !in r4
    requires forall x :: x !in ExtraFiles(s, r3, rel) ==> Same(r3, r4, x)
    requires forall x :: Within(ExtraDirectories(s, r4, rel), rel, x) ==> x !in r5
    requires forall x :: !Within(ExtraDirectories(s, r4, rel), rel, x) ==> Same(r4, r5, x)
    ensures Same(s, r5, x)
  {
    UnderChild(rel, c, x);
    if x != c {
      NothingBelow(s, c, x);
    }
    if c in r3 && r3[c].Directory? {
      assert c !in ExtraFiles(s, r3, rel);
      assert c in ExtraDirectories(s, r4, rel);
    } else {
      if x != c {
        NothingBelow(r3, c, x);
      }
      if c in r3 {
        assert c in ExtraFiles(s, r3, rel);
      }
    }
  }

  /** Creating rel inside an existing directory touches nothing but rel. */
  lemma CreateOne(t: Tree, rel: Path)
    requires TreeShaped(t) && (rel == [] || IsDir(t, Parent(rel))) && CanCreate(t, rel)
    ensures forall x :: x != rel ==> Same(t, WithDirectories(t, rel), x)
  {
    if rel != [] {
      WithDirectoriesExisting(t, Parent(rel));
    }
  }

  /** What holds for the whole of rel holds for a part of it that the earlier phases left alone. */
  lemma ConditionsBelow(s: Tree, r0: Tree, r2: Tree, rel: Path, d: Path, io: CopyIO)
    requires Under(rel, d) && (forall x :: Under(d, x) ==> Same(r0, r2, x))
    requires NoKindConflicts(s, r0, rel) && CopiesSucceed(io, rel)
    ensures NoKindConflicts(s, r2, d) && CopiesSucceed(io, d)
  {
    forall x | Under(d, x)
      ensures Under(rel, x)
    {
      UnderTransitive(rel, d, x);
    }
  }

  // ----- the state after each phase of a pass -----

  /** Of the files given, those whose copy goes through now match the source; nothing else changed. */
  ghost predicate CopiedFiles(s: Tree, r0: Tree, r: Tree, files: set<Path>, io: CopyIO) {
    && (forall x :: x in files && Retry(s, r0, x, io, 1).0 ==> x in r && r[x] == s[x])
    && (forall x :: !(x in files && Retry(s, r0, x, io, 1).0) ==> Same(r0, r, x))
  }

  /**
   * Of the directories given, each is mirrored when nothing below it was in
   * the way and its copies go through; nothing outside them changed.
   */
  ghost predicate SyncedDirectories(s: Tree, r0: Tree, r: Tree, rel: Path, dirs: set<Path>, io: CopyIO) {
    && (forall x :: !Within(dirs, rel, x) ==> Same(r0, r, x))
    && (forall d :: d in dirs && NoKindConflicts(s, r0, d) && CopiesSucceed(io, d) ==> MirroredAt(s, r, d))
  }

  /** The entries given are gone; nothing else changed. */
  ghost predicate RemovedFiles(r0: Tree, r: Tree, gone: set<Path>) {
    && (forall x :: x in gone ==> x !in r)
    && (forall x :: x !in gone ==> Same(r0, r, x))
  }

  /** The directories given are gone with everything below them; nothing else changed. */
  ghost predicate RemovedDirectories(r0: Tree, r: Tree, rel: Path, gone: set<Path>) {
    && (forall x :: Within(gone, rel, x) ==> x !in r)
    && (forall x :: !Within(gone, rel, x) ==> Same(r0, r, x))
  }

  lemma CopyStep(s: Tree, r0: Tree, r: Tree, r': Tree, done: set<Path>, q: Path, io: CopyIO)
    requires CopiedFiles(s, r0, r, done, io) && q !in done
    requires var (copied, _) := Retry(s, r, q, io, 1); r' == if copied then r[q := s[q]] else r
    ensures CopiedFiles(s, r0, r', done + {q}, io)
  {
    assert Same(r0, r, q);
    RetrySame(s, r0, r, q, io, 1);
  }

  lemma SyncStep(s: Tree, r0: Tree, r: Tree, r': Tree, rel: Path, done: set<Path>, d: Path, io: CopyIO)
    requires SyncedDirectories(s, r0, r, rel, done, io) && d !in done && IsChild(rel, d)
    requires forall e :: e in done ==> IsChild(rel, e)
    requires forall x :: !Under(d, x) ==> Same(r, r', x)
    requires NoKindConflicts(s, r, d) && CopiesSucceed(io, d) ==> MirroredAt(s, r', d)
    ensures SyncedDirectories(s, r0, r', rel, done + {d}, io)
  {
    forall x | Under(d, x)
      ensures Same(r0, r, x)
    {
      UnderChild(rel, d, x);
    }
    forall x | !Within(done + {d}, rel, x)
      ensures Same(r0, r', x)
    {
      UnderChild(rel, d, x);
      assert !Within(done, rel, x) && !Under(d, x);
    }
    forall e, x | e in done && MirroredAt(s, r, e) && Under(e, x)
      ensures Same(s, r', x)
    {
      UnderChild(rel, e, x);
      UnderChild(rel, d, x);
    }
  }

  lemma RemovedFilesAt(r0: Tree, r: Tree, done: set<Path>, f: Path)
    requires RemovedFiles(r0, r, done) && f !in done
    ensures Same(r0, r, f)
  {
  }

  lemma RemoveFileStep(r0: Tree, r: Tree, done: set<Path>, f: Path)
    requires RemovedFiles(r0, r, done)
    ensures RemovedFiles(r0, r - {f}, done + {f})
  {
  }

  lemma RemoveDirectoryStep(r0: Tree, r: Tree, rel: Path, done: set<Path>, d: Path)
    requires RemovedDirectories(r0, r, rel, done) && IsChild(rel, d)
    ensures RemovedDirectories(r0, RemoveTree(r, d), rel, done + {d})
  {
    var r' := RemoveTree(r, d);
    forall x | !Within(done + {d}, rel, x)
      ensures Same(r0, r', x)
    {
      UnderChild(rel, d, x);
      assert !Within(done, rel, x) && !Under(d, x);
    }
    forall x | Within(done + {d}, rel, x)
      ensures x !in r'
    {
      UnderChild(rel, d, x);
      if !Within(done, rel, x) {
        assert Under(d, x);
      }
    }
  }

  /**
   * A pass at rel, phase by phase, once rel exists in the replica (r1): the
   * source files copied (r2), the source directories synchronized (r3), the
   * extra files deleted (r4) and the extra directories deleted (r5). Nothing
   * outside rel changes, and when nothing was in the way and every copy goes
   * through, rel is mirrored.
   */
  lemma PassResult(s: Tree, r1: Tree, r2: Tree, r3: Tree, r4: Tree, r5: Tree, rel: Path, io: CopyIO)
    requires TreeShaped(s) && TreeShaped(r1) && TreeShaped(r3) && IsDir(s, rel) && IsDir(r1, rel)
    requires CopiedFiles(s, r1, r2, Files(s, rel), io)
    requires SyncedDirectories(s, r2, r3, rel, Directories(s, rel), io)
    requires RemovedFiles(r3, r4, ExtraFiles(s, r3, rel))
    requires RemovedDirectories(r4, r5, rel, ExtraDirectories(s, r4, rel))
    ensures forall x :: !Under(rel, x) ==> Same(r1, r5, x)
    ensures NoKindConflicts(s, r1, rel) && CopiesSucceed(io, rel) ==> MirroredAt(s, r5, rel)
  {
    forall x | !Under(rel, x)
      ensures Same(r1, r5, x)
    {
      PassOutside(s, r1, r2, r3, r4, r5, rel, io, x);
    }
    if NoKindConflicts(s, r1, rel) && CopiesSucceed(io, rel) {
      PassMirrors(s, r1, r2, r3, r4, r5, rel, io);
    }
  }

  lemma PassOutside(s: Tree, r1: Tree, r2: Tree, r3: Tree, r4: Tree, r5: Tree, rel: Path, io: CopyIO, x: Path)
    requires !Under(rel, x)
    requires CopiedFiles(s, r1, r2, Files(s, rel), io)
    requires SyncedDirectories(s, r2, r3, rel, Directories(s, rel), io)
    requires RemovedFiles(r3, r4, ExtraFiles(s, r3, rel))
    requires RemovedDirectories(r4, r5, rel, ExtraDirectories(s, r4, rel))
    ensures Same(r1, r5, x)
  {
    assert !IsChild(rel, x);
    assert x !in Files(s, rel) && x !in ExtraFiles(s, r3, rel);
    assert !Within(Directories(s, rel), rel, x) && !Within(ExtraDirectories(s, r4, rel), rel, x);
    assert Same(r1, r2, x) && Same(r2, r3, x) && Same(r3, r4, x) && Same(r4, r5, x);
  }

  lemma PassMirrors(s: Tree, r1: Tree, r2: Tree, r3: Tree, r4: Tree, r5: Tree, rel: Path, io: CopyIO)
    requires TreeShaped(s) && TreeShaped(r1) && TreeShaped(r3) && IsDir(s, rel) && IsDir(r1, rel)
    requires NoKindConflicts(s, r1, rel) && CopiesSucceed(io, rel)
    requires CopiedFiles(s, r1, r2, Files(s, rel), io)
    requires SyncedDirectories(s, r2, r3, rel, Directories(s, rel), io)
    requires RemovedFiles(r3, r4, ExtraFiles(s, r3, rel))
    requires RemovedDirectories(r4, r5, rel, ExtraDirectories(s, r4, rel))
    ensures MirroredAt(s, r5, rel)
  {
    forall x | x in Files(s, rel)
      ensures Retry(s, r1, x, io, 1).0
    {
      assert Under(rel, x);
      RetrySucceeds(s, r1, x, io, 1);
    }
    forall d | d in Directories(s, rel)
      ensures NoKindConflicts(s, r2, d) && CopiesSucceed(io, d)
    {
      forall x | Under(d, x)
        ensures Same(r1, r2, x)
      {
        UnderChild(rel, d, x);
        if |x| == |d| {
          assert x == x[..|d|];
        }
        assert x !in Files(s, rel);
      }
      ConditionsBelow(s, r1, r2, rel, d, io);
    }
    MirrorAfterPhases(s, r1, r2, r3, r4, r5, rel);
  }

  /** Creating rel, a directory in the source, brings no conflict and changes nothing outside rel. */
  lemma ConditionsAfterCreate(s: Tree, r0: Tree, r1: Tree, r5: Tree, rel: Path, io: CopyIO)
    requires TreeShaped(s) && IsDir(s, rel) && IsDir(r1, rel) && forall x :: x != rel ==> Same(r0, r1, x)
    requires forall x :: !Under(rel, x) ==> Same(r1, r5, x)
    requires NoKindConflicts(s, r1, rel) && CopiesSucceed(io, rel) ==> MirroredAt(s, r5, rel)
    ensures forall x :: !Under(rel, x) ==> Same(r0, r5, x)
    ensures NoKindConflicts(s, r0, rel) && CopiesSucceed(io, rel) ==> MirroredAt(s, r5, rel)
  {
    assert rel[..|rel|] == rel;
    forall x | !Under(rel, x)
      ensures Same(r0, r5, x)
    {
      assert x != rel && Same(r0, r1, x) && Same(r1, r5, x);
    }
    if NoKindConflicts(s, r0, rel) {
      forall x | Under(rel, x) && x in s && x in r1
        ensures s[x].File? <==> r1[x].File?
      {
        if x != rel {
          assert Same(r0, r1, x);
        }
      }
    }
  }

  /**
   * With rel's parent a directory, the only thing that can stop rel being
   * created is a file at rel itself, and for a source directory that is a
   * conflict.
   */
  lemma CreateBlocked(s: Tree, t: Tree, rel: Path)
    requires TreeShaped(t) && (rel == [] || IsDir(t, Parent(rel))) && !CanCreate(t, rel) && IsDir(s, rel)
    ensures !NoKindConflicts(s, t, rel)
  {
    AncestorsOfParent(t, rel);
    var k :| 1 <= k <= |rel| && IsFile(t, rel[..k]);
    assert k == |rel|;
    assert rel[..k] == rel;
    assert Under(rel, rel);
  }

  /** Every proper ancestor of rel below the folder is a directory when rel's parent is one. */
  lemma AncestorsOfParent(t: Tree, rel: Path)
    requires TreeShaped(t) && (rel == [] || IsDir(t, Parent(rel)))
    ensures forall k :: 1 <= k < |rel| ==> IsDir(t, rel[..k])
  {
    forall k | 1 <= k < |rel|
      ensures IsDir(t, rel[..k])
    {
      var p := Parent(rel);
      if k < |p| {
        AncestorsAreDirectories(t, p, k);
        assert p[..k] == rel[..k];
      } else {
        assert rel[..k] == p;
      }
    }
  }

  /** Creating the parent of rel leaves everything at and below rel as it was. */
  lemma CreateAboveKeeps(t: Tree, rel: Path)
    requires TreeShaped(t) && rel != [] && CanCreate(t, Parent(rel))
    ensures forall q :: Under(rel, q) ==> Same(t, WithDirectories(t, Parent(rel)), q)
  {
    WithDirectoriesMeaning(t, Parent(rel));
  }

  /** Creating the parent and then changing only what lies at or below rel keeps the rest of the tree. */
  lemma KeptAfterCreate(t: Tree, r1: Tree, r2: Tree, rel: Path)
    requires rel != [] && Added(t, r1, Parent(rel))
    requires forall x :: !Under(rel, x) ==> Same(r1, r2, x)
    ensures KeptOutside(t, r2, rel, Parent(rel))
  {
  }

  /**
   * A rename keeps every entry that lies neither at or below the old path
   * nor at or below the new one.
   */
  lemma RenamedKeepsOthers(source: Tree, replica: Tree, oldRel: Path, newRel: Path, io: CopyIO)
    requires TreeShaped(replica) && oldRel != [] && newRel != []
    ensures var r := RenamedEffect(source, replica, oldRel, newRel, io);
      forall x :: !Under(oldRel, x) && !Under(newRel, x) && x in replica ==> x in r && r[x] == replica[x]
  {
    DeletedMeaning(replica, oldRel);
    var d := DeletedEffect(replica, oldRel);
    if IsFile(source, newRel) {
      CopyMeaning(source, d, newRel, io);
    } else if newRel in source && CanCreate(d, newRel) {
      WithDirectoriesMeaning(d, newRel);
    }
  }
}
