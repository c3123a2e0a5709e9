/**
 * The "Show More" window: a title and a text that lists the found paths one
 * per line under section headers.
 */
module Listing {
  import opened Wrappers
  import opened Strings

  const SafeFilesHeader: string := "\U{1F9FE} Safe-to-delete files:"
  const FoldersHeader: string := "\U{1F4C1} Folders:"
  const FilesHeader: string := "\U{1F9FE} Files:"

  datatype Window = Window(title: string, text: string)

  /** Each path followed by a newline, in order. */
  function Lines(ps: seq<string>): string
  {
    if ps == [] then "" else ps[0] + "\n" + Lines(ps[1..])
  }

  /** The lines of a text, each ended by a newline (a last line may lack it). */
  function SplitLines(s: string): seq<string>
    decreases |s|
  {
    if s == [] then []
    else
      var i := IndexOf(s, '\n');
      if i < 0 then [s] else [s[..i]] + SplitLines(s[i + 1..])
  }

  predicate OneLineEach(ps: seq<string>)
  {
    forall k :: 0 <= k < |ps| ==> '\n' !in ps[k]
  }

  lemma SplitLinesFirst(p: string, t: string)
    requires '\n' !in p
    ensures SplitLines(p + "\n" + t) == [p] + SplitLines(t)
  {
    var s := p + "\n" + t;
    assert s[|p|] == '\n';
    assert forall k :: 0 <= k < |p| ==> s[k] == p[k];
    assert IndexOf(s, '\n') == |p|;
    assert s[..|p|] == p;
    assert s[|p| + 1..] == t;
  }

  lemma AppendAssoc<T>(a: seq<T>, b: seq<T>, c: seq<T>)
    ensures a + (b + c) == a + b + c
  {
  }

  lemma ConsAppend<T>(s: seq<T>, t: seq<T>)
    requires s != []
    ensures [s[0]] + (s[1..] + t) == s + t
  {
    assert s == [s[0]] + s[1..];
  }

  /** Reading back a text written with Lines gives the lines that were written. */
  lemma {:induction false} SplitLinesOfLines(ps: seq<string>, rest: string)
    requires OneLineEach(ps)
    ensures SplitLines(Lines(ps) + rest) == ps + SplitLines(rest)
  {
    if ps != [] {
      var tail := SplitLines(rest);
      assert OneLineEach(ps[1..]);
      SplitLinesOfLines(ps[1..], rest);
      assert Lines(ps) + rest == ps[0] + "\n" + (Lines(ps[1..]) + rest);
      SplitLinesFirst(ps[0], Lines(ps[1..]) + rest);
      ConsAppend(ps, tail);
    } else {
      assert Lines(ps) + rest == rest;
    }
  }

  /** The include-all listing's folders section: a header and one line per folder, if any. */
  function FoldersSection(folders: seq<string>): string
  {
    if folders != [] then FoldersHeader + "\n" + Lines(folders) else ""
  }

  /** The include-all listing's files section: an empty line, a header and one line per file, if any. */
  function FilesSection(files: seq<string>): string
  {
    if files != [] then "\n" + FilesHeader + "\n" + Lines(files) else ""
  }

  /**
   * `show_more_window`: nothing to show when no file and no folder was found;
   * otherwise, when the include-all box is not ticked, a header and the files,
   * and when it is, the folders section (if any folder) then the files section
   * (if any file).
   */
  function ShowMore(includeAll: bool, files: seq<string>, folders: seq<string>): (r: Option<Window>)
    ensures r.None? <==> files == [] && folders == []
    ensures r.Some? ==> r.value.title == if includeAll then "Found Files and Folders" else "Found Files"
  {
    if files == [] && folders == [] then None
    else if !includeAll then
      Some(Window("Found Files", SafeFilesHeader + "\n" + Lines(files)))
    else
      Some(Window("Found Files and Folders", FoldersSection(folders) + FilesSection(files)))
  }

  /** A section (a header line, then one line per path) reads back as the header and the paths. */
  lemma SectionLines(header: string, ps: seq<string>, rest: string)
    requires '\n' !in header && OneLineEach(ps)
    ensures SplitLines(header + "\n" + Lines(ps) + rest) == [header] + ps + SplitLines(rest)
  {
    var tail := SplitLines(rest);
    SplitLinesOfLines(ps, rest);
    AppendAssoc(header + "\n", Lines(ps), rest);
    SplitLinesFirst(header, Lines(ps) + rest);
    AppendAssoc([header], ps, tail);
  }

  /**
   * Read back line by line, the safe-only listing is its header followed by
   * every found file on its own line, in order.
   */
  lemma SafeListingLines(files: seq<string>, folders: seq<string>)
    requires OneLineEach(files)
    requires files != [] || folders != []
    ensures SplitLines(ShowMore(false, files, folders).value.text) == [SafeFilesHeader] + files
  {
    assert '\n' !in SafeFilesHeader;
    assert SplitLines("") == [];
    SectionLines(SafeFilesHeader, files, "");
    assert ShowMore(false, files, folders).value.text == SafeFilesHeader + "\n" + Lines(files) + "";
  }

  /** A section after an empty line reads back as an empty line, the header and the paths. */
  lemma BlankThenSectionLines(header: string, ps: seq<string>)
    requires '\n' !in header && OneLineEach(ps)
    ensures SplitLines("\n" + header + "\n" + Lines(ps)) == ["", header] + ps
  {
    var section := header + "\n" + Lines(ps);
    calc {
      SplitLines("\n" + header + "\n" + Lines(ps));
      { assert "\n" + header + "\n" + Lines(ps) == "" + "\n" + section; }
      SplitLines("" + "\n" + section);
      { SplitLinesFirst("", section); }
      [""] + SplitLines(section);
      { SectionLines(header, ps, "");
        assert section + "" == section;
        assert SplitLines("") == []; }
      [""] + ([header] + ps + []);
      ["", header] + ps;
    }
  }

  /** The files section reads back as an empty line, its header and the files. */
  lemma FilesSectionLines(files: seq<string>)
    requires OneLineEach(files)
    ensures SplitLines(FilesSection(files)) == if files != [] then ["", FilesHeader] + files else []
  {
    if files != [] {
      assert '\n' !in FilesHeader;
      BlankThenSectionLines(FilesHeader, files);
    }
  }

  /**
   * Read back line by line, the include-all listing holds the folders section
   * (when there are folders) and then, after an empty line, the files section
   * (when there are files), each path on its own line, in order.
   */
  lemma IncludeAllListingLines(files: seq<string>, folders: seq<string>)
    requires OneLineEach(files) && OneLineEach(folders)
    requires files != [] || folders != []
    ensures SplitLines(ShowMore(true, files, folders).value.text)
         == (if folders != [] then [FoldersHeader] + folders else [])
            + (if files != [] then ["", FilesHeader] + files else [])
  {
    var fileText := FilesSection(files);
    var fileLines := if files != [] then ["", FilesHeader] + files else [];
    FilesSectionLines(files);
    assert ShowMore(true, files, folders).value.text == FoldersSection(folders) + fileText;
    if folders != [] {
      assert '\n' !in FoldersHeader;
      SectionLines(FoldersHeader, folders, fileText);
    } else {
      assert FoldersSection(folders) + fileText == fileText;
      assert [] + fileLines == fileLines;
    }
  }
}
