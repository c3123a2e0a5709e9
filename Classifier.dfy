/**
 * The "safe to delete" rule: a file name is selected when its lower-cased
 * extension, as `os.path.splitext` computes it, is one of the listed
 * entries, or when the whole name is one of them verbatim.
 */
module Classifier {
  import opened Strings

  /** SAFE_TO_DELETE_EXTENSIONS: ten extensions and two platform marker names. */
  const SafeEntries: set<string> := {
    ".log", ".tmp", ".old", ".swp", ".swo", ".dmp", ".cache", ".aux", ".out", ".pyc",
    ".DS_Store", "Thumbs.db"
  }

  /** The entries of SafeEntries that a lower-cased extension can equal. */
  const ExtensionEntries: set<string> := {
    ".log", ".tmp", ".old", ".swp", ".swo", ".dmp", ".cache", ".aux", ".out", ".pyc"
  }

  /** Every character of `p` from `lo` up to (not including) `hi` is a dot. */
  predicate AllDots(p: string, lo: int, hi: int)
  {
    forall k :: lo <= k < hi && 0 <= k < |p| ==> p[k] == '.'
  }

  /**
   * Where `os.path.splitext(p)` (with '/' as separator) cuts `p`: at the last
   * dot of the last path component, unless every character of that component
   * before the dot is itself a dot; at the end of `p` when there is no
   * extension.
   */
  function ExtStart(p: string): (i: nat)
    ensures i <= |p|
    ensures i < |p| ==> p[i] == '.'
    ensures forall k :: i < k < |p| ==> p[k] != '.' && p[k] != '/'
  {
    var sep := LastIndexOf(p, '/');
    var dot := LastIndexOf(p, '.');
    if dot > sep && !AllDots(p, sep + 1, dot) then dot else |p|
  }

  /**
   * `os.path.splitext(p)`: the root and the extension; they put back together
   * give `p`, and the extension is empty or a dot followed by neither dots
   * nor separators.
   */
  function SplitExt(p: string): (r: (string, string))
    ensures r.0 + r.1 == p
    ensures r.1 == [] || r.1[0] == '.'
    ensures forall k :: 0 < k < |r.1| ==> r.1[k] != '.' && r.1[k] != '/'
    ensures r.1 == [] <==>
              forall i, j :: LastIndexOf(p, '/') < i < j < |p| && p[j] == '.' ==> p[i] == '.'
  {
    var i := ExtStart(p);
    assert forall k :: 0 <= k < |p| - i ==> p[i..][k] == p[i + k];
    (p[..i], p[i..])
  }

  function Extension(name: string): string { SplitExt(name).1 }

  /**
   * The test at the heart of the scan, `ext.lower() in SET or name in SET`:
   * a name is selected exactly when it is one of the entries verbatim or its
   * lower-cased extension is one of the ten extensions.
   */
  predicate IsSafeToDelete(name: string)
    ensures IsSafeToDelete(name) <==>
              name in SafeEntries || Lower(Extension(name)) in ExtensionEntries
  {
    MarkersMatchOnlyByName(name);
    Lower(Extension(name)) in SafeEntries || name in SafeEntries
  }

  /**
   * The two marker names can never be matched through the extension test:
   * a lower-cased extension holds no capital letter and starts with a dot.
   */
  lemma MarkersMatchOnlyByName(name: string)
    ensures Lower(Extension(name)) != ".DS_Store"
    ensures Lower(Extension(name)) != "Thumbs.db"
  {
    var e := Lower(Extension(name));
    if |e| > 1 {
      assert e[0] == '.' && !IsUpper(e[1]);
    }
  }

  /** The last index of a non-letter is the same in a string and in its lower-cased form. */
  lemma {:induction false} LastIndexOfLower(s: string, c: char)
    requires !IsUpper(c) && !('a' <= c <= 'z')
    ensures LastIndexOf(Lower(s), c) == LastIndexOf(s, c)
  {
    if s != [] {
      assert Lower(s)[..|s| - 1] == Lower(s[..|s| - 1]);
      LastIndexOfLower(s[..|s| - 1], c);
    }
  }

  /** Taking the extension and lower-casing commute. */
  lemma ExtensionOfLower(p: string)
    ensures Extension(Lower(p)) == Lower(Extension(p))
  {
    LastIndexOfLower(p, '/');
    LastIndexOfLower(p, '.');
    var sep := LastIndexOf(p, '/');
    var dot := LastIndexOf(p, '.');
    LowerKeepsNonLetters(p, '.');
    assert AllDots(Lower(p), sep + 1, dot) <==> AllDots(p, sep + 1, dot);
    assert ExtStart(Lower(p)) == ExtStart(p);
    assert Lower(p)[ExtStart(p)..] == Lower(p[ExtStart(p)..]);
  }

  /**
   * The extension test ignores case: two names that differ only in the case
   * of their letters, neither being an entry verbatim, are selected alike.
   */
  lemma ExtensionTestIgnoresCase(a: string, b: string)
    requires Lower(a) == Lower(b)
    requires a !in SafeEntries && b !in SafeEntries
    ensures IsSafeToDelete(a) <==> IsSafeToDelete(b)
  {
    ExtensionOfLower(a);
    ExtensionOfLower(b);
  }

  /**
   * The extension of a name without separators whose last dot is at `i`,
   * with something other than a dot in front, starts at that dot.
   */
  lemma ExtensionAt(name: string, i: int)
    requires 0 < i < |name| && name[i] == '.' && name[0] != '.'
    requires forall k :: i < k < |name| ==> name[k] != '.'
    requires forall k :: 0 <= k < |name| ==> name[k] != '/'
    ensures Extension(name) == name[i..]
  {
    LastIndexOfIs(name, '.', i);
    LastIndexOfIs(name, '/', -1);
    assert !AllDots(name, 0, i);
  }

  /** The extensions `os.path.splitext` finds in the sample names used below. */
  lemma ExtensionWithCaps()
    ensures Extension("app.LOG") == ".LOG"
  {
    ExtensionAt("app.LOG", 3);
    assert "app.LOG"[3..] == ".LOG";
  }

  lemma ExtensionAfterLastDot()
    ensures Extension("a.b.cache") == ".cache"
  {
    ExtensionAt("a.b.cache", 3);
    assert "a.b.cache"[3..] == ".cache";
  }

  lemma ExtensionOfNotes()
    ensures Extension("notes.txt") == ".txt"
  {
    ExtensionAt("notes.txt", 5);
    assert "notes.txt"[5..] == ".txt";
  }

  lemma ExtensionOfThumbs()
    ensures Extension("thumbs.db") == ".db"
  {
    ExtensionAt("thumbs.db", 6);
    assert "thumbs.db"[6..] == ".db";
  }

  lemma ExtensionOfMarkerSuffix()
    ensures Extension("x.DS_Store") == ".DS_Store"
  {
    ExtensionAt("x.DS_Store", 1);
    assert "x.DS_Store"[1..] == ".DS_Store";
  }

  /** A name whose only dot leads it has no extension. */
  lemma LeadingDotOnly(name: string)
    requires |name| > 0 && name[0] == '.'
    requires forall k :: 0 < k < |name| ==> name[k] != '.' && name[k] != '/'
    ensures Extension(name) == ""
  {
    LastIndexOfIs(name, '.', 0);
    LastIndexOfIs(name, '/', -1);
  }

  /** A name is selected when its lower-cased extension is one of the ten extensions. */
  lemma SelectedWhen(name: string, ext: string)
    requires Extension(name) == ext && Lower(ext) in ExtensionEntries
    ensures IsSafeToDelete(name)
  {
  }

  /** A name is rejected when neither its lower-cased extension nor the name itself is listed. */
  lemma RejectedWhen(name: string, ext: string)
    requires Extension(name) == ext && Lower(ext) !in SafeEntries && name !in SafeEntries
    ensures !IsSafeToDelete(name)
  {
  }

  /** The sample extensions lower-cased, and whether the result is listed. */
  lemma LowerOfSamples()
    ensures Lower(".LOG") == ".log" && ".log" in ExtensionEntries
    ensures Lower(".cache") == ".cache" && ".cache" in ExtensionEntries
    ensures Lower(".txt") == ".txt" && ".txt" !in SafeEntries
    ensures Lower(".db") == ".db" && ".db" !in SafeEntries
    ensures Lower(".DS_Store") == ".ds_store" && ".ds_store" !in SafeEntries
    ensures Lower("") == "" && "" !in SafeEntries
  {
  }

  /** Names selected through their extension, in any case. */
  lemma SelectedByExtension()
    ensures IsSafeToDelete("app.LOG") && IsSafeToDelete("a.b.cache")
  {
    LowerOfSamples();
    ExtensionWithCaps();
    SelectedWhen("app.LOG", ".LOG");
    ExtensionAfterLastDot();
    SelectedWhen("a.b.cache", ".cache");
  }

  /** A name whose lower-cased extension is not listed is not selected. */
  lemma OtherExtensionRejected()
    ensures !IsSafeToDelete("notes.txt")
  {
    LowerOfSamples();
    ExtensionOfNotes();
    RejectedWhen("notes.txt", ".txt");
  }

  /** `Thumbs.db` is selected by its exact name only: `thumbs.db` is not selected. */
  lemma ThumbsDbIsCaseSensitive()
    ensures IsSafeToDelete("Thumbs.db") && !IsSafeToDelete("thumbs.db")
  {
    LowerOfSamples();
    ExtensionOfThumbs();
    RejectedWhen("thumbs.db", ".db");
  }

  /**
   * `.DS_Store` has no extension (its only dot leads the name), so it is
   * selected by its exact name only: `.ds_store` is not selected.
   */
  lemma DsStoreIsCaseSensitive()
    ensures IsSafeToDelete(".DS_Store") && !IsSafeToDelete(".ds_store")
    ensures Extension(".DS_Store") == ""
  {
    LowerOfSamples();
    LeadingDotOnly(".DS_Store");
    LeadingDotOnly(".ds_store");
    RejectedWhen(".ds_store", "");
  }

  /** As an extension the marker does not match: `x.DS_Store` is not selected. */
  lemma MarkerIsNotAnExtension()
    ensures !IsSafeToDelete("x.DS_Store")
  {
    LowerOfSamples();
    ExtensionOfMarkerSuffix();
    RejectedWhen("x.DS_Store", ".DS_Store");
  }

  /**
   * A name made of dots up to its last dot has no extension: `..log` is not
   * selected, while a file named exactly `.log` is, by the exact-name test.
   */
  lemma LeadingDotsHaveNoExtension()
    ensures !IsSafeToDelete("..log") && IsSafeToDelete(".log")
    ensures Extension(".log") == ""
  {
    LowerOfSamples();
    assert Extension("..log") == "" by {
      LastIndexOfIs("..log", '.', 1);
    }
    RejectedWhen("..log", "");
    LeadingDotOnly(".log");
  }
}
