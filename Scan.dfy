/**
 * What the two passes of the scan compute, stated over the sequence of
 * `(dir, subdirs, files)` triples that `os.walk` yields for the chosen root.
 * Every function here is defined step by step along that sequence, the way
 * the scan's loops consume it.
 */
module Scan {
  import opened Classifier
  import opened Paths

  /** One triple of `os.walk`: a directory, the names of its subdirectories and of its files. */
  datatype WalkStep = WalkStep(dir: string, dirs: seq<string>, files: seq<string>)

  /** The names `os.walk` reports are entry names: none holds a separator. */
  predicate NamesAreEntries(walk: seq<WalkStep>)
  {
    forall i :: 0 <= i < |walk| ==>
      (forall k :: 0 <= k < |walk[i].files| ==> Sep !in walk[i].files[k]) &&
      (forall k :: 0 <= k < |walk[i].dirs| ==> Sep !in walk[i].dirs[k])
  }

  /** `[os.path.join(dir, n) for n in names]`. */
  function Joined(dir: string, names: seq<string>): (r: seq<string>)
    ensures |r| == |names|
    ensures forall k :: 0 <= k < |names| ==> r[k] == Join(dir, names[k])
  {
    seq(|names|, k requires 0 <= k < |names| => Join(dir, names[k]))
  }

  /** The paths of the selected names among `names`, in order. */
  function SelectedIn(dir: string, names: seq<string>): seq<string>
  {
    if names == [] then []
    else
      var last := names[|names| - 1];
      SelectedIn(dir, names[..|names| - 1]) + (if IsSafeToDelete(last) then [Join(dir, last)] else [])
  }

  /** Taking one more name into account appends its path when it is selected. */
  lemma SelectedInPrefix(dir: string, names: seq<string>, j: int)
    requires 0 <= j < |names|
    ensures SelectedIn(dir, names[..j + 1])
         == SelectedIn(dir, names[..j]) + (if IsSafeToDelete(names[j]) then [Join(dir, names[j])] else [])
  {
    assert names[..j + 1][..j] == names[..j];
  }

  /** The selected names among `names`, in order. */
  function SelectedNames(names: seq<string>): seq<string>
  {
    if names == [] then []
    else
      var last := names[|names| - 1];
      SelectedNames(names[..|names| - 1]) + (if IsSafeToDelete(last) then [last] else [])
  }

  /** Pass 1: `total_items`, the number of subdirectories and files reported. */
  function TotalItems(walk: seq<WalkStep>): (r: nat)
    ensures r == 0 <==> forall k :: 0 <= k < |walk| ==> walk[k].dirs == [] && walk[k].files == []
  {
    if walk == [] then 0
    else
      var s := walk[|walk| - 1];
      TotalItems(walk[..|walk| - 1]) + |s.dirs| + |s.files|
  }

  /** Pass 2 in safe-only mode: the selected files, joined with their directory, in walk order. */
  function SafeFiles(walk: seq<WalkStep>): (r: seq<string>)
  {
    if walk == [] then []
    else
      var s := walk[|walk| - 1];
      SafeFiles(walk[..|walk| - 1]) + SelectedIn(s.dir, s.files)
  }

  /** Pass 2 in include-all mode: every file, joined with its directory, in walk order. */
  function AllFiles(walk: seq<WalkStep>): (r: seq<string>)
    ensures forall p :: p in r <==>
              exists k, j :: 0 <= k < |walk| && 0 <= j < |walk[k].files| && p == Join(walk[k].dir, walk[k].files[j])
  {
    if walk == [] then []
    else
      var s := walk[|walk| - 1];
      var prefix := walk[..|walk| - 1];
      assert forall k :: 0 <= k < |prefix| ==> prefix[k] == walk[k];
      AllFiles(prefix) + Joined(s.dir, s.files)
  }

  /** Pass 2 in include-all mode: every subdirectory, joined with its directory, in walk order. */
  function AllFolders(walk: seq<WalkStep>): (r: seq<string>)
    ensures forall p :: p in r <==>
              exists k, j :: 0 <= k < |walk| && 0 <= j < |walk[k].dirs| && p == Join(walk[k].dir, walk[k].dirs[j])
  {
    if walk == [] then []
    else
      var s := walk[|walk| - 1];
      var prefix := walk[..|walk| - 1];
      assert forall k :: 0 <= k < |prefix| ==> prefix[k] == walk[k];
      AllFolders(prefix) + Joined(s.dir, s.dirs)
  }

  /** The selected file names of the whole walk, in walk order. */
  function SafeNames(walk: seq<WalkStep>): seq<string>
  {
    if walk == [] then []
    else SafeNames(walk[..|walk| - 1]) + SelectedNames(walk[|walk| - 1].files)
  }

  /**
   * The progress counter of pass 2 after the whole walk: one per file, plus
   * the number of subdirectories at the end of each step, and in include-all
   * mode the number of subdirectories a second time.
   */
  function Progress(walk: seq<WalkStep>, includeAll: bool): (r: nat)
    ensures !includeAll ==> r == TotalItems(walk)
    ensures includeAll ==> r == TotalItems(walk) + |AllFolders(walk)|
  {
    if walk == [] then 0
    else
      var s := walk[|walk| - 1];
      Progress(walk[..|walk| - 1], includeAll) + |s.files|
        + (if includeAll then |s.dirs| else 0) + |s.dirs|
  }

  /** The files and folders pass 2 collects in a given mode. */
  function FoundFiles(walk: seq<WalkStep>, includeAll: bool): seq<string>
  {
    if includeAll then AllFiles(walk) else SafeFiles(walk)
  }

  function FoundFolders(walk: seq<WalkStep>, includeAll: bool): seq<string>
  {
    if includeAll then AllFolders(walk) else []
  }

  /**
   * In include-all mode the collected files and folders are exactly what
   * pass 1 counted: their numbers add up to `total_items`.
   */
  lemma {:induction false} IncludeAllCoversTotal(walk: seq<WalkStep>)
    ensures |AllFiles(walk)| + |AllFolders(walk)| == TotalItems(walk)
  {
    if walk != [] {
      IncludeAllCoversTotal(walk[..|walk| - 1]);
    }
  }

  /** When pass 1 counts nothing, pass 2 would collect nothing in either mode. */
  lemma {:induction false} NothingCountedNothingFound(walk: seq<WalkStep>)
    requires TotalItems(walk) == 0
    ensures SafeFiles(walk) == [] && AllFiles(walk) == [] && AllFolders(walk) == []
  {
    if walk != [] {
      var s := walk[|walk| - 1];
      NothingCountedNothingFound(walk[..|walk| - 1]);
      assert s.files == [];
    }
  }

  /** The paths among `ps` whose base name the rule selects, in order. */
  function SelectByBasename(ps: seq<string>): (r: seq<string>)
    ensures forall p :: p in r <==> p in ps && IsSafeToDelete(Basename(p))
  {
    if ps == [] then []
    else
      var last := ps[|ps| - 1];
      SelectByBasename(ps[..|ps| - 1]) + (if IsSafeToDelete(Basename(last)) then [last] else [])
  }

  lemma {:induction false} SelectByBasenameAppend(a: seq<string>, b: seq<string>)
    ensures SelectByBasename(a + b) == SelectByBasename(a) + SelectByBasename(b)
  {
    if b != [] {
      assert (a + b)[..|a + b| - 1] == a + b[..|b| - 1];
      SelectByBasenameAppend(a, b[..|b| - 1]);
    } else {
      assert a + b == a;
    }
  }

  lemma {:induction false} SelectByBasenameOfJoined(dir: string, names: seq<string>)
    requires forall k :: 0 <= k < |names| ==> Sep !in names[k]
    ensures SelectByBasename(Joined(dir, names)) == SelectedIn(dir, names)
  {
    if names != [] {
      var n := |names|;
      assert Joined(dir, names)[..n - 1] == Joined(dir, names[..n - 1]);
      SelectByBasenameOfJoined(dir, names[..n - 1]);
      BasenameOfJoin(dir, names[n - 1]);
    }
  }

  /**
   * The safe-only scan is the include-all scan filtered by the rule on each
   * path's base name: the same files, in the same walk order, minus those the
   * rule rejects.
   */
  lemma {:induction false} SafeFilesFilterAllFiles(walk: seq<WalkStep>)
    requires NamesAreEntries(walk)
    ensures SafeFiles(walk) == SelectByBasename(AllFiles(walk))
    ensures forall p :: p in SafeFiles(walk) <==> p in AllFiles(walk) && IsSafeToDelete(Basename(p))
  {
    if walk != [] {
      var s := walk[|walk| - 1];
      assert NamesAreEntries(walk[..|walk| - 1]);
      SafeFilesFilterAllFiles(walk[..|walk| - 1]);
      SelectByBasenameAppend(AllFiles(walk[..|walk| - 1]), Joined(s.dir, s.files));
      SelectByBasenameOfJoined(s.dir, s.files);
    }
  }

  lemma {:induction false} BasenamesAppend(a: seq<string>, b: seq<string>)
    ensures Basenames(a + b) == Basenames(a) + Basenames(b)
  {
  }

  lemma {:induction false} BasenamesOfSelectedIn(dir: string, names: seq<string>)
    requires forall k :: 0 <= k < |names| ==> Sep !in names[k]
    ensures Basenames(SelectedIn(dir, names)) == SelectedNames(names)
  {
    if names != [] {
      var prefix := names[..|names| - 1];
      var last := names[|names| - 1];
      var selected := SelectedIn(dir, prefix);
      BasenamesOfSelectedIn(dir, prefix);
      if IsSafeToDelete(last) {
        BasenameOfJoin(dir, last);
        BasenamesAppend(selected, [Join(dir, last)]);
        assert Basenames([Join(dir, last)]) == [last];
      } else {
        assert SelectedIn(dir, names) == selected;
      }
    }
  }

  /**
   * The base names of the files a safe-only scan collects are the selected
   * file names the walk reported, in walk order; these are the entry names
   * of a backup archive taken of them.
   */
  lemma {:induction false} BasenamesOfSafeFiles(walk: seq<WalkStep>)
    requires NamesAreEntries(walk)
    ensures Basenames(SafeFiles(walk)) == SafeNames(walk)
  {
    if walk != [] {
      var s := walk[|walk| - 1];
      assert NamesAreEntries(walk[..|walk| - 1]);
      BasenamesOfSafeFiles(walk[..|walk| - 1]);
      BasenamesOfSelectedIn(s.dir, s.files);
      BasenamesAppend(SafeFiles(walk[..|walk| - 1]), SelectedIn(s.dir, s.files));
    }
  }
}
