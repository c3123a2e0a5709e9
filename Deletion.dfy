/**
 * The work of the delete action, on an abstract filesystem: the backup gate,
 * the best-effort removal of the found files and the deepest-first removal
 * of folders.
 */
module Deletion {
  import opened Wrappers
  import opened Strings
  import opened Paths
  import opened FileSystem

  /** One line of `failed_files`: the path and why its removal raised. */
  datatype Failure = Failure(path: string, error: RemoveError)

  /** The entry names of a backup archive, in the order they were written. */
  datatype Archive = Archive(entries: seq<string>)

  /**
   * The backup step: it fails when the archive cannot be written or when a
   * file to archive no longer exists; otherwise every file is written under
   * its base name, in order (two files with one base name give two entries
   * of that name).
   */
  function Backup(files: seq<string>, fs: Fs, writable: bool): (r: Option<Archive>)
    ensures r.Some? <==> writable && forall k :: 0 <= k < |files| ==> files[k] in fs.files
    ensures r.Some? ==> |r.value.entries| == |files|
    ensures r.Some? ==> r.value.entries == Basenames(files)
    ensures r.Some? ==> forall k :: 0 <= k < |files| ==> Sep !in r.value.entries[k]
  {
    if writable && forall k :: 0 <= k < |files| ==> files[k] in fs.files then
      Some(Archive(Basenames(files)))
    else
      None
  }

  /**
   * Two files with one base name give two archive entries of that name:
   * the archive keeps both, in order.
   */
  lemma DuplicateBaseNamesKept()
    ensures Backup(["/x/a.log", "/y/a.log"], Fs({"/x/a.log", "/y/a.log"}, {}, {}), true)
         == Some(Archive(["a.log", "a.log"]))
  {
    BackupOfTwo("/x/a.log", "/y/a.log", Fs({"/x/a.log", "/y/a.log"}, {}, {}));
    BasenameInFolder("/x/a.log");
    BasenameInFolder("/y/a.log");
    assert "/x/a.log"[3..] == "a.log" && "/y/a.log"[3..] == "a.log";
  }

  /** The backup of two existing files to a writable archive. */
  lemma BackupOfTwo(a: string, b: string, fs: Fs)
    requires a in fs.files && b in fs.files
    ensures Backup([a, b], fs, true) == Some(Archive([Basename(a), Basename(b)]))
  {
    assert Basenames([a, b]) == [Basename(a), Basename(b)];
  }

  /** The base name of a path of the form `/d/name`, with one-letter `d`. */
  lemma BasenameInFolder(p: string)
    requires |p| > 3 && p[0] == Sep && p[2] == Sep
    requires forall k :: 2 < k < |p| ==> p[k] != Sep
    ensures Basename(p) == p[3..]
  {
    LastIndexOfIs(p, Sep, 2);
  }

  /** The removable paths among `files`, as judged against the initial state `fs`. */
  predicate Removable(fs: Fs, p: string) { p in fs.files && p !in fs.locked }

  /**
   * The file loop: every path is tried in order; a removal that raises is
   * recorded and the loop goes on. The result is the deleted count, the
   * failures in order and the filesystem afterwards.
   */
  function RemoveEach(files: seq<string>, fs: Fs): (r: (nat, seq<Failure>, Fs))
    ensures r.0 + |r.1| == |files|
    ensures r.2.files <= fs.files && r.2.dirs == fs.dirs && r.2.locked == fs.locked
    ensures forall k :: 0 <= k < |r.1| ==> r.1[k].path in files
  {
    if files == [] then (0, [], fs)
    else
      var (deleted, failed, fs1) := RemoveEach(files[..|files| - 1], fs);
      var p := files[|files| - 1];
      match RemoveFile(fs1, p)
      case Removed(fs2) => (deleted + 1, failed, fs2)
      case RemoveFailed(e) => (deleted, failed + [Failure(p, e)], fs1)
  }

  /**
   * Accounting of the file loop: every path is either counted as deleted or
   * listed as failed; the files that go are exactly the listed ones that
   * existed and were not refused; the deleted count is the number of files
   * that disappeared; directories and refusals are untouched.
   */
  lemma {:induction false} RemoveEachAccounts(files: seq<string>, fs: Fs)
    ensures var (deleted, failed, after) := RemoveEach(files, fs);
      && deleted + |failed| == |files|
      && (forall q :: q in after.files <==> q in fs.files && (q !in files || q in fs.locked))
      && deleted == |fs.files| - |after.files|
      && after.dirs == fs.dirs && after.locked == fs.locked
  {
    if files != [] {
      var prefix := files[..|files| - 1];
      var p := files[|files| - 1];
      RemoveEachAccounts(prefix, fs);
      assert files == prefix + [p];
      assert forall q :: q in files <==> q in prefix || q == p;
      var (deleted, failed, fs1) := RemoveEach(prefix, fs);
      match RemoveFile(fs1, p)
      case Removed(fs2) =>
        assert RemoveEach(files, fs) == (deleted + 1, failed, fs2);
      case RemoveFailed(e) =>
        assert RemoveEach(files, fs) == (deleted, failed + [Failure(p, e)], fs1);
    }
  }

  predicate Distinct(s: seq<string>)
  {
    forall i, j :: 0 <= i < j < |s| ==> s[i] != s[j]
  }

  /** The failures the file loop reports for paths that are not removable in `fs`, in order. */
  function FailuresIn(files: seq<string>, fs: Fs): seq<Failure>
  {
    if files == [] then []
    else
      var p := files[|files| - 1];
      FailuresIn(files[..|files| - 1], fs)
        + (if Removable(fs, p) then []
           else [Failure(p, if p in fs.files then AccessDenied else NoSuchFile)])
  }

  /**
   * For distinct paths the failure list is determined by the initial state
   * alone: it holds, in input order, each path that did not exist (no such
   * file) or whose removal is refused (access denied).
   */
  lemma {:induction false} FailuresInOrder(files: seq<string>, fs: Fs)
    requires Distinct(files)
    ensures RemoveEach(files, fs).1 == FailuresIn(files, fs)
  {
    if files != [] {
      var prefix := files[..|files| - 1];
      var p := files[|files| - 1];
      assert Distinct(prefix);
      FailuresInOrder(prefix, fs);
      RemoveEachAccounts(prefix, fs);
      forall k | 0 <= k < |prefix| ensures prefix[k] != p {
        assert prefix[k] == files[k];
      }
    }
  }

  /**
   * Three files, the second of which has already vanished: two are deleted
   * and one failure, for the vanished file, is reported.
   */
  lemma OneVanishedFileOfThree()
    ensures RemoveEach(["/t/a.log", "/t/b.tmp", "/t/c.old"], Fs({"/t/a.log", "/t/c.old"}, {"/t"}, {}))
         == (2, [Failure("/t/b.tmp", NoSuchFile)], Fs({}, {"/t"}, {}))
  {
    var files := ["/t/a.log", "/t/b.tmp", "/t/c.old"];
    var fs := Fs({"/t/a.log", "/t/c.old"}, {"/t"}, {});
    assert files[..2] == ["/t/a.log", "/t/b.tmp"];
    assert files[..2][..1] == ["/t/a.log"];
    assert ["/t/a.log"][..0] == [];
    assert {"/t/a.log", "/t/c.old"} - {"/t/a.log"} == {"/t/c.old"};
    assert {"/t/c.old"} - {"/t/c.old"} == {};
    assert RemoveEach(["/t/a.log"], fs) == (1, [], Fs({"/t/c.old"}, {"/t"}, {}));
    assert "/t/b.tmp" !in {"/t/c.old"};
    assert RemoveFile(Fs({"/t/c.old"}, {"/t"}, {}), "/t/b.tmp") == RemoveFailed(NoSuchFile);
    assert files[..2][|files[..2]| - 1] == "/t/b.tmp";
    assert [] + [Failure("/t/b.tmp", NoSuchFile)] == [Failure("/t/b.tmp", NoSuchFile)];
    assert RemoveEach(files[..2], fs) == (1, [Failure("/t/b.tmp", NoSuchFile)], Fs({"/t/c.old"}, {"/t"}, {}));
  }

  /**
   * The file loop as a loop: the deleted counter and the failure list are
   * updated path by path, and the result is what RemoveEach describes.
   */
  method DeleteFiles(files: seq<string>, fs: Fs) returns (deleted: nat, failed: seq<Failure>, after: Fs)
    ensures (deleted, failed, after) == RemoveEach(files, fs)
    ensures deleted + |failed| == |files|
  {
    deleted, failed, after := 0, [], fs;
    for i := 0 to |files|
      invariant (deleted, failed, after) == RemoveEach(files[..i], fs)
    {
      assert files[..i + 1][..i] == files[..i];
      match RemoveFile(after, files[i])
      case Removed(fs2) =>
        deleted := deleted + 1;
        after := fs2;
      case RemoveFailed(e) =>
        failed := failed + [Failure(files[i], e)];
    }
    assert files[..|files|] == files;
    RemoveEachAccounts(files, fs);
  }

  /** Paths ordered by non-increasing length. */
  predicate LongestFirst(s: seq<string>)
  {
    forall i, j :: 0 <= i < j < |s| ==> |s[i]| >= |s[j]|
  }

  /** Putting in front a path at least as long as every other keeps the order. */
  lemma LongestFirstCons(h: string, rest: seq<string>)
    requires LongestFirst(rest)
    requires forall k :: 0 <= k < |rest| ==> |h| >= |rest[k]|
    ensures LongestFirst([h] + rest)
  {
    forall i, j | 0 <= i < j < |[h] + rest| ensures |([h] + rest)[i]| >= |([h] + rest)[j]| {
      if i > 0 {
        assert ([h] + rest)[i] == rest[i - 1];
      }
      assert ([h] + rest)[j] == rest[j - 1];
    }
  }

  /** Inserts `x` after every element at least as long: keeps ties in input order. */
  function InsertByLength(sorted: seq<string>, x: string): (r: seq<string>)
    requires LongestFirst(sorted)
    ensures LongestFirst(r)
    ensures multiset(r) == multiset(sorted) + multiset{x}
    ensures forall y :: y in r ==> y in sorted || y == x
  {
    if sorted == [] then [x]
    else if |sorted[0]| < |x| then
      LongestFirstCons(x, sorted);
      [x] + sorted
    else
      var rest := InsertByLength(sorted[1..], x);
      assert sorted == [sorted[0]] + sorted[1..];
      assert forall k :: 0 <= k < |rest| ==> |sorted[0]| >= |rest[k]| by {
        forall k | 0 <= k < |rest| ensures |sorted[0]| >= |rest[k]| {
          assert rest[k] in rest;
        }
      }
      LongestFirstCons(sorted[0], rest);
      [sorted[0]] + rest
  }

  /**
   * `sorted(folders, key=lambda x: -len(x))`: the folders, longest path
   * first, as a stable insertion sort.
   */
  function DeepestFirst(folders: seq<string>): (r: seq<string>)
    ensures LongestFirst(r)
    ensures multiset(r) == multiset(folders)
  {
    if folders == [] then []
    else
      var prefix := folders[..|folders| - 1];
      assert folders == prefix + [folders[|folders| - 1]];
      InsertByLength(DeepestFirst(prefix), folders[|folders| - 1])
  }

  /**
   * The folder loop: `rmdir` is tried on each folder in the given order and
   * only the successful removals are counted.
   */
  function RemoveDirs(order: seq<string>, fs: Fs): (r: (nat, Fs))
    ensures r.0 <= |order|
    ensures r.1.dirs <= fs.dirs && r.1.files == fs.files && r.1.locked == fs.locked
  {
    if order == [] then (0, fs)
    else
      var (removed, fs1) := RemoveDirs(order[..|order| - 1], fs);
      match RemoveDir(fs1, order[|order| - 1])
      case Some(fs2) => (removed + 1, fs2)
      case None => (removed, fs1)
  }

  /**
   * Accounting of the folder loop: the removed count is the number of
   * directories that disappeared, every directory that went was in the list,
   * and files and refusals are untouched.
   */
  lemma {:induction false} RemoveDirsAccounts(order: seq<string>, fs: Fs)
    ensures var (removed, after) := RemoveDirs(order, fs);
      && removed <= |order|
      && after.dirs <= fs.dirs
      && removed == |fs.dirs| - |after.dirs|
      && (forall d :: d in fs.dirs - after.dirs ==> d in order)
      && after.files == fs.files && after.locked == fs.locked
  {
    if order != [] {
      RemoveDirsAccounts(order[..|order| - 1], fs);
      var (removed, fs1) := RemoveDirs(order[..|order| - 1], fs);
      forall d | d in fs.dirs - RemoveDirs(order, fs).1.dirs ensures d in order {
        if d in fs.dirs - fs1.dirs {
          assert d in order[..|order| - 1];
        } else {
          assert d == order[|order| - 1];
        }
      }
    }
  }

  /** Every folder the folder loop removes is one of the listed folders. */
  lemma RemovedAreListed(folders: seq<string>, fs: Fs)
    ensures var after := RemoveDirs(DeepestFirst(folders), fs).1;
      forall d :: d in fs.dirs - after.dirs ==> d in folders
  {
    var order := DeepestFirst(folders);
    RemoveDirsAccounts(order, fs);
    forall d | d in fs.dirs - RemoveDirs(order, fs).1.dirs ensures d in folders {
      assert d in multiset(order);
    }
  }

  /**
   * The folder loop as a loop, over the folders sorted deepest first.
   */
  method RemoveFolders(folders: seq<string>, fs: Fs) returns (removed: nat, after: Fs)
    ensures (removed, after) == RemoveDirs(DeepestFirst(folders), fs)
    ensures removed == |fs.dirs| - |after.dirs|
    ensures after.dirs <= fs.dirs && after.files == fs.files && after.locked == fs.locked
    ensures forall d :: d in fs.dirs - after.dirs ==> d in folders
  {
    var order := DeepestFirst(folders);
    removed, after := 0, fs;
    for i := 0 to |order|
      invariant (removed, after) == RemoveDirs(order[..i], fs)
    {
      assert order[..i + 1][..i] == order[..i];
      match RemoveDir(after, order[i])
      case Some(fs2) =>
        removed := removed + 1;
        after := fs2;
      case None =>
    }
    assert order[..|order|] == order;
    RemoveDirsAccounts(order, fs);
    RemovedAreListed(folders, fs);
  }

  lemma DeepestFirstOfTwo()
    ensures DeepestFirst(["/a", "/a/b"]) == ["/a/b", "/a"]
  {
    assert ["/a", "/a/b"][..1] == ["/a"] && ["/a"][..0] == [];
    assert DeepestFirst(["/a"]) == ["/a"];
    assert InsertByLength(["/a"], "/a/b") == ["/a/b", "/a"];
  }

  /** A chain of nested folders is ordered innermost first. */
  lemma NestedChainOrder()
    ensures DeepestFirst(["/a", "/a/b", "/a/b/c"]) == ["/a/b/c", "/a/b", "/a"]
  {
    DeepestFirstOfTwo();
    assert ["/a", "/a/b", "/a/b/c"][..2] == ["/a", "/a/b"];
    assert InsertByLength(["/a/b", "/a"], "/a/b/c") == ["/a/b/c", "/a/b", "/a"];
  }

  /** The chain `/a`, `/a/b`, `/a/b/c` of empty folders. */
  const Chain: Fs := Fs({}, {"/a", "/a/b", "/a/b/c"}, {})

  lemma RemoveInnermost()
    ensures RemoveDirs(["/a/b/c"], Chain) == (1, Fs({}, {"/a", "/a/b"}, {}))
  {
    assert ["/a/b/c"][..0] == [];
    assert IsEmptyDir(Chain, "/a/b/c");
    assert {"/a", "/a/b", "/a/b/c"} - {"/a/b/c"} == {"/a", "/a/b"};
  }

  lemma RemoveTwoInnermost()
    ensures RemoveDirs(["/a/b/c", "/a/b"], Chain) == (2, Fs({}, {"/a"}, {}))
  {
    RemoveInnermost();
    assert ["/a/b/c", "/a/b"][..1] == ["/a/b/c"];
    assert IsEmptyDir(Fs({}, {"/a", "/a/b"}, {}), "/a/b");
    assert {"/a", "/a/b"} - {"/a/b"} == {"/a"};
  }

  /** Deepest first, a chain of empty nested folders is removed entirely. */
  lemma DeepestFirstRemovesChain()
    ensures RemoveDirs(["/a/b/c", "/a/b", "/a"], Chain) == (3, Fs({}, {}, {}))
  {
    RemoveTwoInnermost();
    assert ["/a/b/c", "/a/b", "/a"][..2] == ["/a/b/c", "/a/b"];
    assert IsEmptyDir(Fs({}, {"/a"}, {}), "/a");
    assert {"/a"} - {"/a"} == {};
  }

  lemma OutermostFirstFails()
    ensures RemoveDirs(["/a", "/a/b"], Chain) == (0, Chain)
  {
    assert ["/a", "/a/b"][..1] == ["/a"] && ["/a"][..0] == [];
    assert "/a/b"[..2] == "/a" && Inside("/a/b", "/a");
    assert "/a/b/c"[..4] == "/a/b" && Inside("/a/b/c", "/a/b");
  }

  /** Outermost first, only the innermost folder of the chain goes. */
  lemma ShallowFirstRemovesOne()
    ensures RemoveDirs(["/a", "/a/b", "/a/b/c"], Chain) == (1, Fs({}, {"/a", "/a/b"}, {}))
  {
    OutermostFirstFails();
    assert ["/a", "/a/b", "/a/b/c"][..2] == ["/a", "/a/b"];
    assert IsEmptyDir(Chain, "/a/b/c");
    assert {"/a", "/a/b", "/a/b/c"} - {"/a/b/c"} == {"/a", "/a/b"};
  }
}
