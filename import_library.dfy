/**
 * `artifacts/write-import-library.py`: the import library a MinGW build leaves beside a DLL
 * is found by dropping the DLL's last `-`-separated name component (its ABI version) and
 * adding `.dll.a`. The DLL's resolved path is a parameter; copying is not modelled.
 */
module ImportLibrary {
  import opened Wrappers
  import opened Text

  /** `PurePath(...).name`: the last component of a path, `""` for the root. */
  function Name(path: seq<string>): string {
    if |path| == 0 then "" else path[|path| - 1]
  }

  /** Index of the last `c` in `s`, or `-1`. */
  function RFind(s: string, c: char): (i: int)
    ensures -1 <= i < |s|
    ensures i >= 0 ==> s[i] == c
    ensures forall j :: i < j < |s| ==> s[j] != c
  {
    if |s| == 0 then -1
    else if s[|s| - 1] == c then |s| - 1
    else RFind(s[..|s| - 1], c)
  }

  /** `PurePath.stem`: the name without its last suffix; a leading or trailing dot is no suffix. */
  function Stem(name: string): (r: string)
    ensures StartsWith(name, r)
  {
    var i := RFind(name, '.');
    if 0 < i < |name| - 1 then name[..i] else name
  }

  /** `'-'.join(stem.split('-')[0:-1])`. */
  function Basename(stem: string): string {
    var parts := Split(stem, '-');
    Join('-', parts[..|parts| - 1])
  }

  /** A stem without `-` gives an empty base name. */
  lemma BasenameWithoutDash(stem: string)
    requires '-' !in stem
    ensures Basename(stem) == ""
  {
    NoSepSplit(stem, '-');
  }

  /** With a `-`, the stem is the base name, a `-`, and a last component without `-`. */
  lemma BasenameWithDash(stem: string)
    requires '-' in stem
    ensures exists last :: '-' !in last && stem == Basename(stem) + "-" + last
  {
    var parts := Split(stem, '-');
    SplitPieces(stem, '-');
    JoinSplit(stem, '-');
    JoinSnoc('-', parts);
    var last := parts[|parts| - 1];
    assert stem == Basename(stem) + "-" + last;
  }

  /** `input.with_name(f'{basename}.dll.a')`; `None` where `with_name` refuses an empty name. */
  function ImportLibraryPath(dll: seq<string>): Option<seq<string>> {
    if |dll| == 0 || Name(dll) == "" then None
    else Some(dll[..|dll| - 1] + [Basename(Stem(Name(dll))) + ".dll.a"])
  }

  /** The import library sits in the DLL's directory, named after the DLL's base name. */
  lemma ImportLibrarySibling(dll: seq<string>)
    ensures ImportLibraryPath(dll).Some? <==> Name(dll) != ""
    ensures ImportLibraryPath(dll).Some? ==>
      var lib := ImportLibraryPath(dll).value;
      |lib| == |dll| && lib[..|lib| - 1] == dll[..|dll| - 1]
      && Name(lib) == Basename(Stem(Name(dll))) + ".dll.a"
  {
  }

  /** Removing the last component is undone by appending it: `Basename(b + "-" + v) == b`. */
  lemma BasenameOf(b: string, v: string)
    requires '-' !in v
    ensures Basename(b + "-" + v) == b
  {
    var stem := b + "-" + v;
    var parts := Split(stem, '-');
    assert |parts| >= 2 && parts[|parts| - 1] == v by {
      SplitLast(b, v, '-');
      assert stem[|b|] == '-';
      SplitPieces(stem, '-');
    }
    var front := Join('-', parts[..|parts| - 1]);
    assert front + "-" + v == b + "-" + v by {
      JoinSplit(stem, '-');
      JoinSnoc('-', parts);
    }
    assert |front| == |b|;
    assert front == (front + "-" + v)[..|b|];
  }

  /** The stem drops a non-empty last suffix after a non-empty name. */
  lemma StemOf(b: string, ext: string)
    requires |b| > 0 && |ext| > 0 && '.' !in ext
    ensures Stem(b + "." + ext) == b
  {
    var name := b + "." + ext;
    assert name[|b|] == '.';
    assert forall j :: |b| < j < |name| ==> name[j] == ext[j - |b| - 1];
    assert RFind(name, '.') == |b|;
  }
}
