/**
 * The cleaner's state and its two actions. The three module-level lists of
 * the program (the found files, the found folders and the folders to remove
 * after the files) become the fields of a session object; "Find" rebuilds
 * them from a scan of the chosen folder and "Delete" acts on them.
 */
module Cleaner {
  import opened Wrappers
  import opened Strings
  import opened Classifier
  import opened Paths
  import opened FileSystem
  import opened Scan
  import opened Deletion
  import opened Listing

  /** How a "Find" ends. */
  datatype FindOutcome =
    | NoPathGiven
    | InvalidPath(path: string)
    | EmptyTree(path: string)
    | Scanned(path: string, total: nat, progress: nat)

  /** How a "Delete" ends. */
  datatype DeleteOutcome =
    | NoFilesToDelete
    | Cancelled
    | BackupFailed
    | Deleted(backup: Option<Archive>, deleted: nat, failed: seq<Failure>, foldersRemoved: nat)

  /**
   * The folder to scan: the selected default path when there is one, else
   * the typed path with surrounding white space removed, unless nothing is
   * left of it.
   */
  function ChosenPath(selection: Option<string>, entry: string): (r: Option<string>)
    ensures r.None? <==> selection.None? && forall k :: 0 <= k < |entry| ==> IsSpace(entry[k])
    ensures selection.Some? ==> r == selection
    ensures selection.None? && r.Some? ==>
              r.value == Strip(entry) && 0 < |r.value| <= |entry|
              && !IsSpace(r.value[0]) && !IsSpace(r.value[|r.value| - 1])
  {
    if selection.Some? then selection
    else
      var typed := Strip(entry);
      if typed != [] then Some(typed) else None
  }

  class Session {
    /** `found_files`: the files the last scan collected, in walk order. */
    var foundFiles: seq<string>
    /** `found_folders`: the folders the last include-all scan collected, in walk order. */
    var foundFolders: seq<string>
    /** `found_dirs`: the folders the delete action removes after the files. */
    var foundDirs: seq<string>

    /** Nothing ever adds to `found_dirs`: it stays empty. */
    ghost predicate Valid()
      reads this
    {
      foundDirs == []
    }

    constructor()
      ensures Valid()
      ensures foundFiles == [] && foundFolders == []
    {
      foundFiles := [];
      foundFolders := [];
      foundDirs := [];
    }

    /**
     * The "Find" action. `walk` is what `os.walk` yields for the chosen
     * folder (the same sequence on both passes). The lists are emptied
     * first, so every early return leaves them empty. The first pass counts
     * the reported entries; the second collects the selected files (safe
     * mode) or every file and subfolder (include-all mode) and keeps the
     * progress counter.
     */
    method Find(selection: Option<string>, entry: string, fs: Fs, includeAll: bool, walk: seq<WalkStep>)
      returns (r: FindOutcome)
      modifies this
      ensures Valid()
      ensures ChosenPath(selection, entry) == if r.NoPathGiven? then None else Some(r.path)
      ensures r.InvalidPath? <==> !r.NoPathGiven? && !Exists(fs, r.path)
      ensures r.EmptyTree? <==> !r.NoPathGiven? && Exists(fs, r.path) && TotalItems(walk) == 0
      ensures !r.Scanned? ==> foundFiles == [] && foundFolders == []
      ensures r.Scanned? ==> r.total == TotalItems(walk) && r.progress == Progress(walk, includeAll)
      ensures r.Scanned? ==>
                foundFiles == FoundFiles(walk, includeAll) && foundFolders == FoundFolders(walk, includeAll)
      ensures r.Scanned? && includeAll ==> |foundFiles| + |foundFolders| == r.total
      ensures r.Scanned? && includeAll ==> r.progress == r.total + |foundFolders|
      ensures r.Scanned? && !includeAll ==> r.progress == r.total
    {
      foundDirs := [];
      foundFiles := [];
      foundFolders := [];

      var chosen := ChosenPath(selection, entry);
      if chosen.None? {
        return NoPathGiven;
      }
      var path := chosen.value;

      if !Exists(fs, path) {
        return InvalidPath(path);
      }

      var total := CountItems(walk);
      if total == 0 {
        return EmptyTree(path);
      }

      var count := Collect(includeAll, walk);
      IncludeAllCoversTotal(walk);
      return Scanned(path, total, count);
    }

    /** The first pass: `total_items`, the number of entries the walk reports. */
    static method CountItems(walk: seq<WalkStep>) returns (total: nat)
      ensures total == TotalItems(walk)
    {
      total := 0;
      for i := 0 to |walk|
        invariant total == TotalItems(walk[..i])
      {
        assert walk[..i + 1][..i] == walk[..i];
        total := total + |walk[i].dirs| + |walk[i].files|;
      }
      assert walk[..|walk|] == walk;
    }

    /**
     * The second pass over the walk, from empty lists: it collects the
     * files (and in include-all mode the folders) and returns the final
     * progress count.
     */
    method Collect(includeAll: bool, walk: seq<WalkStep>) returns (count: nat)
      requires foundFiles == [] && foundFolders == []
      modifies this
      ensures foundFiles == FoundFiles(walk, includeAll) && foundFolders == FoundFolders(walk, includeAll)
      ensures foundDirs == old(foundDirs)
      ensures count == Progress(walk, includeAll)
    {
      count := 0;
      for i := 0 to |walk|
        invariant foundFiles == FoundFiles(walk[..i], includeAll)
        invariant foundFolders == FoundFolders(walk[..i], includeAll)
        invariant count == Progress(walk[..i], includeAll)
        invariant foundDirs == old(foundDirs)
      {
        assert walk[..i + 1][..i] == walk[..i];
        var step := walk[i];
        var stepCount: nat;
        if !includeAll {
          stepCount := CollectSafe(step);
        } else {
          stepCount := CollectAll(step);
        }
        count := count + stepCount;
      }
      assert walk[..|walk|] == walk;
    }

    /**
     * One step of the safe-mode pass: each selected file is appended,
     * joined with the step's directory; the progress count grows by the
     * number of files, then by the number of subdirectories.
     */
    method CollectSafe(step: WalkStep) returns (count: nat)
      modifies this
      ensures foundFiles == old(foundFiles) + SelectedIn(step.dir, step.files)
      ensures foundFolders == old(foundFolders) && foundDirs == old(foundDirs)
      ensures count == |step.files| + |step.dirs|
    {
      ghost var start := foundFiles;
      count := 0;
      for j := 0 to |step.files|
        invariant foundFiles == start + SelectedIn(step.dir, step.files[..j])
        invariant foundFolders == old(foundFolders) && foundDirs == old(foundDirs)
        invariant count == j
      {
        count := count + 1;
        SelectedInPrefix(step.dir, step.files, j);
        AppendIfSafe(step.dir, step.files[j]);
      }
      assert step.files[..|step.files|] == step.files;
      count := count + |step.dirs|;
    }

    /** The test on one file name: its path is appended when the name is selected. */
    method AppendIfSafe(dir: string, file: string)
      modifies this
      ensures foundFiles == old(foundFiles) + (if IsSafeToDelete(file) then [Join(dir, file)] else [])
      ensures foundFolders == old(foundFolders) && foundDirs == old(foundDirs)
    {
      if Lower(Extension(file)) in SafeEntries || file in SafeEntries {
        foundFiles := foundFiles + [Join(dir, file)];
      }
    }

    /**
     * One step of the include-all pass: the subdirectories, then every
     * file, are appended, joined with the step's directory; the progress
     * count grows by the number of files and twice by the number of
     * subdirectories.
     */
    method CollectAll(step: WalkStep) returns (count: nat)
      modifies this
      ensures foundFiles == old(foundFiles) + Joined(step.dir, step.files)
      ensures foundFolders == old(foundFolders) + Joined(step.dir, step.dirs)
      ensures foundDirs == old(foundDirs)
      ensures count == |step.files| + |step.dirs| + |step.dirs|
    {
      foundFolders := foundFolders + Joined(step.dir, step.dirs);
      count := 0;
      for j := 0 to |step.files|
        invariant foundFiles == old(foundFiles) + Joined(step.dir, step.files[..j])
        invariant foundFolders == old(foundFolders) + Joined(step.dir, step.dirs)
        invariant foundDirs == old(foundDirs)
        invariant count == j
      {
        assert Joined(step.dir, step.files[..j + 1])
            == Joined(step.dir, step.files[..j]) + [Join(step.dir, step.files[j])];
        foundFiles := foundFiles + [Join(step.dir, step.files[j])];
        count := count + 1;
      }
      assert step.files[..|step.files|] == step.files;
      count := count + |step.dirs|;
      count := count + |step.dirs|;
    }

    /**
     * The "Delete" action as written. With files found and the user's
     * confirmation it takes the backup if asked (a failed backup stops
     * everything), removes the found files one by one, then tries to remove
     * the folders of `found_dirs` deepest first, and finally empties the
     * file list and `found_dirs`; `found_folders` is kept. Since
     * `found_dirs` is always empty, no folder is ever removed.
     */
    method Delete(confirm: bool, takeBackup: bool, archiveWritable: bool, fs: Fs)
      returns (r: DeleteOutcome, after: Fs)
      requires Valid()
      modifies this
      ensures Valid()
      ensures r.NoFilesToDelete? <==> old(foundFiles) == []
      ensures r.Cancelled? <==> old(foundFiles) != [] && !confirm
      ensures r.BackupFailed? <==>
                old(foundFiles) != [] && confirm && takeBackup
                && Backup(old(foundFiles), fs, archiveWritable).None?
      ensures !r.Deleted? ==> after == fs && foundFiles == old(foundFiles)
      ensures foundFolders == old(foundFolders)
      ensures r.Deleted? ==>
                r.backup == (if takeBackup then Backup(old(foundFiles), fs, archiveWritable) else None)
      ensures r.Deleted? ==>
                var (deleted, failed, fs1) := RemoveEach(old(foundFiles), fs);
                && r.deleted == deleted && r.failed == failed
                && (r.foldersRemoved, after) == RemoveDirs(DeepestFirst(old(foundDirs)), fs1)
      ensures r.Deleted? ==> foundFiles == [] && r.foldersRemoved == 0 && after.dirs == fs.dirs
    {
      if foundFiles == [] {
        return NoFilesToDelete, fs;
      }
      if !confirm {
        return Cancelled, fs;
      }
      var archive: Option<Archive> := None;
      if takeBackup {
        archive := Backup(foundFiles, fs, archiveWritable);
        if archive.None? {
          return BackupFailed, fs;
        }
      }
      var deleted, failed, fs1 := DeleteFiles(foundFiles, fs);
      var removed, fs2 := RemoveFolders(foundDirs, fs1);
      foundFiles := [];
      foundDirs := [];
      return Deleted(archive, deleted, failed, removed), fs2;
    }

    /**
     * The "Delete" action as evidently intended: after the files, the
     * folders the scan collected are removed deepest first, each one that
     * is by then empty, and the folder list is emptied with the file list.
     */
    method DeleteIntended(confirm: bool, takeBackup: bool, archiveWritable: bool, fs: Fs)
      returns (r: DeleteOutcome, after: Fs)
      requires Valid()
      modifies this
      ensures Valid()
      ensures r.NoFilesToDelete? <==> old(foundFiles) == []
      ensures r.Cancelled? <==> old(foundFiles) != [] && !confirm
      ensures r.BackupFailed? <==>
                old(foundFiles) != [] && confirm && takeBackup
                && Backup(old(foundFiles), fs, archiveWritable).None?
      ensures !r.Deleted? ==>
                after == fs && foundFiles == old(foundFiles) && foundFolders == old(foundFolders)
      ensures r.Deleted? ==>
                r.backup == (if takeBackup then Backup(old(foundFiles), fs, archiveWritable) else None)
      ensures r.Deleted? ==>
                var (deleted, failed, fs1) := RemoveEach(old(foundFiles), fs);
                && r.deleted == deleted && r.failed == failed
                && (r.foldersRemoved, after) == RemoveDirs(DeepestFirst(old(foundFolders)), fs1)
                && r.foldersRemoved == |fs1.dirs| - |after.dirs|
                && (forall d :: d in fs1.dirs - after.dirs ==> d in old(foundFolders))
      ensures r.Deleted? ==> foundFiles == [] && foundFolders == []
    {
      if foundFiles == [] {
        return NoFilesToDelete, fs;
      }
      if !confirm {
        return Cancelled, fs;
      }
      var archive: Option<Archive> := None;
      if takeBackup {
        archive := Backup(foundFiles, fs, archiveWritable);
        if archive.None? {
          return BackupFailed, fs;
        }
      }
      var deleted, failed, fs1 := DeleteFiles(foundFiles, fs);
      var removed, fs2 := RemoveFolders(foundFolders, fs1);
      foundFiles := [];
      foundFolders := [];
      foundDirs := [];
      return Deleted(archive, deleted, failed, removed), fs2;
    }

    /** The "Show More" window for the current lists, titled by the include-all setting. */
    function ShowMoreWindow(includeAll: bool): (r: Option<Window>)
      reads this
      ensures r.None? <==> foundFiles == [] && foundFolders == []
    {
      ShowMore(includeAll, foundFiles, foundFolders)
    }
  }

  /**
   * A backup of what a safe-only scan found holds one entry per found file,
   * named after the file's name as the walk reported it, in walk order.
   */
  lemma BackupOfSafeScan(walk: seq<WalkStep>, fs: Fs, writable: bool)
    requires NamesAreEntries(walk)
    requires Backup(SafeFiles(walk), fs, writable).Some?
    ensures Backup(SafeFiles(walk), fs, writable).value.entries == SafeNames(walk)
  {
    BasenamesOfSafeFiles(walk);
  }

  /** The scan used by the two examples below: a folder with one file and one empty subfolder. */
  const ExampleWalk: seq<WalkStep> := [WalkStep("/r", ["a"], ["x.log"]), WalkStep("/r/a", [], [])]

  const ExampleFs: Fs := Fs({"/r/x.log"}, {"/r", "/r/a"}, {})

  lemma ExampleWalkScan()
    ensures TotalItems(ExampleWalk) == 2
    ensures AllFiles(ExampleWalk) == ["/r/x.log"]
    ensures AllFolders(ExampleWalk) == ["/r/a"]
  {
    var w := ExampleWalk;
    assert w[..1] == [w[0]] && w[..1][..0] == [];
    assert Join("/r", "x.log") == "/r/x.log";
    assert Join("/r", "a") == "/r/a";
    assert Joined("/r", ["x.log"]) == ["/r/x.log"];
    assert Joined("/r", ["a"]) == ["/r/a"];
    assert Joined("/r/a", []) == [];
  }

  lemma ExampleRemoval()
    ensures RemoveEach(["/r/x.log"], ExampleFs) == (1, [], Fs({}, {"/r", "/r/a"}, {}))
  {
    assert ["/r/x.log"][..0] == [];
    assert {"/r/x.log"} - {"/r/x.log"} == {};
  }

  lemma ExampleFolderRemoval()
    ensures RemoveDirs(DeepestFirst(["/r/a"]), Fs({}, {"/r", "/r/a"}, {})) == (1, Fs({}, {"/r"}, {}))
  {
    var cleared := Fs({}, {"/r", "/r/a"}, {});
    assert ["/r/a"][..0] == [];
    assert DeepestFirst(["/r/a"]) == ["/r/a"];
    assert IsEmptyDir(cleared, "/r/a");
    assert {"/r", "/r/a"} - {"/r/a"} == {"/r"};
  }

  /**
   * An include-all scan finds the empty subfolder `/r/a`, yet deleting
   * leaves it in place: no folder is removed.
   */
  method LeftoverFolderExample() returns (r: DeleteOutcome, after: Fs)
    ensures r == Deleted(None, 1, [], 0)
    ensures "/r/a" in after.dirs && after == Fs({}, {"/r", "/r/a"}, {})
  {
    var session := new Session();
    ExampleWalkScan();
    var found := session.Find(Some("/r"), "", ExampleFs, true, ExampleWalk);
    assert session.foundFiles == ["/r/x.log"];
    ExampleRemoval();
    r, after := session.Delete(true, false, true, ExampleFs);
  }

  /** With the intended folder step the same session removes `/r/a`. */
  method IntendedCleanupExample() returns (r: DeleteOutcome, after: Fs)
    ensures r == Deleted(None, 1, [], 1)
    ensures "/r/a" !in after.dirs && after == Fs({}, {"/r"}, {})
  {
    var session := new Session();
    ExampleWalkScan();
    var found := session.Find(Some("/r"), "", ExampleFs, true, ExampleWalk);
    assert session.foundFiles == ["/r/x.log"] && session.foundFolders == ["/r/a"];
    ExampleRemoval();
    ExampleFolderRemoval();
    r, after := session.DeleteIntended(true, false, true, ExampleFs);
  }
}
