/**
 * The part of the filesystem the cleaner touches, as a value: the paths of
 * the existing files and directories, and the paths whose removal the
 * operating system refuses (permissions, a file in use).
 */
module FileSystem {
  import opened Paths
  import opened Wrappers

  datatype Fs = Fs(files: set<string>, dirs: set<string>, locked: set<string>)

  /** `os.path.exists(p)`. */
  predicate Exists(fs: Fs, p: string) { p in fs.files || p in fs.dirs }

  /** `p` lies strictly below the directory `d`. */
  predicate Inside(p: string, d: string)
  {
    |p| > |d| && p[..|d|] == d && p[|d|] == Sep
  }

  /** Nothing that exists lies below `d`. */
  predicate IsEmptyDir(fs: Fs, d: string)
  {
    forall p :: p in fs.files + fs.dirs ==> !Inside(p, d)
  }

  /** Why `os.remove` raised. */
  datatype RemoveError = NoSuchFile | AccessDenied

  datatype RemoveOutcome = Removed(after: Fs) | RemoveFailed(error: RemoveError)

  /**
   * `os.remove(p)`: it succeeds on an existing file whose removal is not
   * refused, and then that file, and nothing else, is gone.
   */
  function RemoveFile(fs: Fs, p: string): (r: RemoveOutcome)
    ensures r.Removed? <==> p in fs.files && p !in fs.locked
    ensures r.Removed? ==> r.after.files == fs.files - {p} && |r.after.files| == |fs.files| - 1
    ensures r.Removed? ==> r.after.dirs == fs.dirs && r.after.locked == fs.locked
    ensures r.RemoveFailed? ==> (r.error == NoSuchFile <==> p !in fs.files)
  {
    if p !in fs.files then RemoveFailed(NoSuchFile)
    else if p in fs.locked then RemoveFailed(AccessDenied)
    else Removed(fs.(files := fs.files - {p}))
  }

  /**
   * `os.rmdir(d)`: it succeeds on an existing, empty directory whose removal
   * is not refused, and then that directory, and nothing else, is gone.
   */
  function RemoveDir(fs: Fs, d: string): (r: Option<Fs>)
    ensures r.Some? <==> d in fs.dirs && d !in fs.locked && IsEmptyDir(fs, d)
    ensures r.Some? ==> r.value.dirs == fs.dirs - {d} && |r.value.dirs| == |fs.dirs| - 1
    ensures r.Some? ==> r.value.files == fs.files && r.value.locked == fs.locked
  {
    if d in fs.dirs && d !in fs.locked && IsEmptyDir(fs, d) then Some(fs.(dirs := fs.dirs - {d}))
    else None
  }
}
