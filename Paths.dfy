/**
 * The two `os.path` operations the cleaner applies to paths: `join`, which
 * builds the paths it collects, and `basename`, which names the backup
 * archive entries. '/' is the separator.
 */
module Paths {
  import opened Strings

  const Sep: char := '/'

  /**
   * `os.path.join(a, b)`: `b` alone when it is absolute, else `a` and `b`
   * with one separator between them unless `a` is empty or already ends in one.
   */
  function Join(a: string, b: string): (r: string)
    ensures |b| > 0 && b[0] == Sep ==> r == b
    ensures !(|b| > 0 && b[0] == Sep) ==>
              (exists d :: r == d + b && (d == [] || d[|d| - 1] == Sep))
              && (r == a + b || r == a + [Sep] + b)
              && (r == a + b <==> a == [] || a[|a| - 1] == Sep)
  {
    if |b| > 0 && b[0] == Sep then b
    else if a == [] || a[|a| - 1] == Sep then a + b
    else a + [Sep] + b
  }

  /** `os.path.basename(p)`: what follows the last separator. */
  function Basename(p: string): (r: string)
    ensures Sep !in r
    ensures |r| <= |p| && r == p[|p| - |r|..]
    ensures |r| == |p| || p[|p| - |r| - 1] == Sep
  {
    var i := LastIndexOf(p, Sep) + 1;
    assert forall k :: 0 <= k < |p| - i ==> p[i..][k] == p[i + k];
    p[i..]
  }

  /** The base names of a sequence of paths, in order. */
  function Basenames(ps: seq<string>): (r: seq<string>)
    ensures |r| == |ps|
    ensures forall k :: 0 <= k < |ps| ==> r[k] == Basename(ps[k])
  {
    seq(|ps|, k requires 0 <= k < |ps| => Basename(ps[k]))
  }

  /**
   * The base name of a path joined from a directory and a name that holds no
   * separator is that name: `basename` undoes `join`.
   */
  lemma BasenameOfJoin(dir: string, name: string)
    requires Sep !in name
    ensures Basename(Join(dir, name)) == name
  {
    var d :| Join(dir, name) == d + name && (d == [] || d[|d| - 1] == Sep);
    var p := d + name;
    var i := LastIndexOf(p, Sep);
    if d == [] {
      assert i == -1;
    } else {
      assert p[|d| - 1] == Sep;
      assert i == |d| - 1;
    }
    assert p[i + 1..] == name;
  }
}
