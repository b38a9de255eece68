/**
 * The single-architecture archive builder of `write-bdist.py`: an archive is a map
 * from archive path to source (a file to copy, a symlink target, or `None` for a
 * directory), rooted at the archive's base directory. Adding a path creates its
 * missing ancestor directories and refuses duplicates and files used as directories;
 * saving writes every path once, in sorted order, as a tar or (on Windows) a zip
 * member with fixed metadata. Also here: where each built artifact goes in the
 * archive and which versioned-library symlinks accompany it.
 */
module Bdist {
  import opened Wrappers
  import opened Text
  import opened Paths
  import opened Patterns
  import Tar

  // ---------------------------------------------------------------------------
  // Writers (`TarArchive`, `ZipArchive`)
  // ---------------------------------------------------------------------------

  /** What `open(fspath)` and `gettarinfo` learn about a source file: permission bits, mtime, bytes. */
  datatype SourceFile = SourceFile(mode: bv32, mtime: int, data: seq<bv8>)

  /** One written archive member: a tar member, or a zip member (a directory's name ends in `/`). */
  datatype Entry = TarEntry(member: Tar.Member) | ZipEntry(name: string, data: seq<bv8>)

  const Mode644: bv32 := 0x1A4     // 0o644
  const Mode755: bv32 := 0x1ED     // 0o755
  const Mode777: bv32 := 0x1FF     // 0o777
  const GroupOtherWrite: bv32 := 0x12   // 0o022

  /** `TarArchive.write_file`: the file's own bits without group/other write, plus 0o644; owned by root. */
  function TarFile(p: Path, f: SourceFile): (e: Tar.Member)
    ensures e.info.kind == Tar.Reg && e.info.name == p && e.data == f.data && e.info.size == |f.data|
    ensures e.info.mode & GroupOtherWrite == 0 && e.info.mode & Mode644 == Mode644
    ensures e.info.mode & !(GroupOtherWrite | Mode644) == f.mode & !(GroupOtherWrite | Mode644)
    ensures e.info.uid == 0 && e.info.gid == 0 && e.info.uname == "root" && e.info.gname == "root"
  {
    Tar.Member(
      Tar.Info(p, Tar.Reg, "", |f.data|, (f.mode & !GroupOtherWrite) | Mode644, 0, 0, "root", "root", f.mtime, map[]),
      f.data)
  }

  /** `TarArchive.write_dir`: mode 0o755, owned by root, stamped with the archive's creation time. */
  function TarDir(p: Path, now: int): Tar.Member {
    Tar.Member(Tar.Info(p, Tar.Dir, "", 0, Mode755, 0, 0, "root", "root", now, map[]), [])
  }

  /** `TarArchive.write_symlink`: mode 0o777, owned by root, pointing at `target`. */
  function TarSymlink(p: Path, target: string, now: int): Tar.Member {
    Tar.Member(Tar.Info(p, Tar.Sym, target, 0, Mode777, 0, 0, "root", "root", now, map[]), [])
  }

  /** `arcpath.as_posix()`. */
  function Posix(p: Path): string {
    Join('/', p)
  }

  /**
   * What `save` writes for one path: a directory for `None`, a symlink for a marked path,
   * a copied file otherwise; `None` where the zip writer refuses a symlink.
   */
  function EntryFor(windows: bool, p: Path, v: Option<string>, isLink: bool, now: int, files: string -> SourceFile): Option<Entry> {
    match v
    case None => Some(if windows then ZipEntry(Posix(p) + "/", []) else TarEntry(TarDir(p, now)))
    case Some(src) =>
      if isLink then (if windows then None else Some(TarEntry(TarSymlink(p, src, now))))
      else Some(if windows then ZipEntry(Posix(p), files(src).data) else TarEntry(TarFile(p, files(src))))
  }

  /** Every tar member `save` writes is owned by root with uid and gid 0, and has the fixed mode of its kind. */
  lemma TarEntriesOwnedByRoot(p: Path, v: Option<string>, isLink: bool, now: int, files: string -> SourceFile)
    requires EntryFor(false, p, v, isLink, now, files).Some?
    ensures var e := EntryFor(false, p, v, isLink, now, files).value;
      && e.TarEntry? && e.member.info.name == p
      && e.member.info.uid == 0 && e.member.info.gid == 0
      && e.member.info.uname == "root" && e.member.info.gname == "root"
      && (v.None? <==> e.member.info.kind == Tar.Dir)
      && (e.member.info.kind == Tar.Dir ==> e.member.info.mode == Mode755 && e.member.info.mtime == now)
      && (e.member.info.kind == Tar.Sym ==> e.member.info.mode == Mode777 && e.member.info.linkname == v.value)
      && (e.member.info.kind == Tar.Reg ==> e.member.info.mode & Mode644 == Mode644 && e.member.info.mode & GroupOtherWrite == 0)
      && (v.Some? && isLink <==> e.member.info.kind == Tar.Sym)
  {
  }

  /** The zip writer refuses exactly the symlinks. */
  lemma ZipRefusesSymlinks(p: Path, v: Option<string>, isLink: bool, now: int, files: string -> SourceFile)
    ensures EntryFor(true, p, v, isLink, now, files).None? <==> v.Some? && isLink
    ensures EntryFor(true, p, v, isLink, now, files).Some? ==> EntryFor(true, p, v, isLink, now, files).value.ZipEntry?
  {
  }

  // ---------------------------------------------------------------------------
  // The path map and its invariant
  // ---------------------------------------------------------------------------

  /** Parent of a non-empty path (`PurePath.parent`). */
  function Parent(p: Path): Path
    requires |p| > 0
  {
    p[..|p| - 1]
  }

  /**
   * The archive's invariant: the base is a directory; every path lies under it; every
   * ancestor of a path, down to the base, is a registered directory (so `save` writes
   * each directory before its contents); marked symlinks are registered with a target.
   */
  predicate WellFormed(base: Path, m: map<Path, Option<string>>, links: set<Path>) {
    && base in m && m[base] == None
    && (forall p :: p in m ==> IsPrefix(base, p))
    && (forall p, k :: p in m && |base| <= k < |p| ==> p[..k] in m && m[p[..k]] == None)
    && (forall s :: s in links ==> s in m && m[s].Some?)
  }

  /** Files and symlinks are leaves: nothing is registered beneath them. */
  lemma FilesAreLeaves(base: Path, m: map<Path, Option<string>>, links: set<Path>, f: Path, q: Path)
    requires WellFormed(base, m, links) && f in m && m[f].Some? && q in m
    ensures !IsStrictPrefix(f, q)
  {
  }

  /** `add_file` succeeds: the path is new and no ancestor below the base is a file or symlink. */
  predicate CanAdd(base: Path, m: map<Path, Option<string>>, p: Path) {
    && p !in m
    && forall q :: q in Between(base, p) && q in m ==> m[q] == None
  }

  /**
   * `m` with `p` set to `src` and every ancestor of `p` strictly between `q` and `p` set
   * to a directory: the map `add_file` has built once its walk up has reached `q`.
   */
  function Filled(m: map<Path, Option<string>>, q: Path, p: Path, src: string): map<Path, Option<string>> {
    (m + map r | r in Between(q, p) :: None)[p := Some(src)]
  }

  /** The map after a successful `add_file(p, src)`: `p` maps to `src`, its missing ancestors become directories. */
  function Added(base: Path, m: map<Path, Option<string>>, p: Path, src: string): map<Path, Option<string>> {
    Filled(m, base, p, src)
  }

  /** What `Filled` holds, path by path. */
  lemma FilledLookup(m: map<Path, Option<string>>, q: Path, p: Path, src: string, r: Path)
    ensures r in Filled(m, q, p, src) <==> r == p || r in Between(q, p) || r in m
    ensures r in Filled(m, q, p, src) ==>
      Filled(m, q, p, src)[r] == (if r == p then Some(src) else if r in Between(q, p) then None else m[r])
  {
  }

  /**
   * A successful `add_file` leaves every registered file and symlink as it was, and
   * registers `p` with `src`.
   */
  lemma AddedKeepsEntries(base: Path, m: map<Path, Option<string>>, p: Path, src: string)
    requires CanAdd(base, m, p)
    ensures p in Added(base, m, p, src) && Added(base, m, p, src)[p] == Some(src)
    ensures forall r :: r in m && m[r].Some? ==> r in Added(base, m, p, src) && Added(base, m, p, src)[r] == m[r]
    ensures m.Keys <= Added(base, m, p, src).Keys
    ensures forall r :: r in Added(base, m, p, src) && Added(base, m, p, src)[r].Some? ==>
      r == p || (r in m && m[r].Some?)
    ensures forall r :: r in Added(base, m, p, src) && r !in m ==> r == p || r in Between(base, p)
  {
    var a := Added(base, m, p, src);
    FilledLookup(m, base, p, src, p);
    forall r | r in m ensures r in a && (m[r].Some? ==> a[r] == m[r]) {
      FilledLookup(m, base, p, src, r);
    }
    forall r | r in a && a[r].Some? ensures r == p || (r in m && m[r].Some?) {
      FilledLookup(m, base, p, src, r);
    }
    forall r | r in a && r !in m ensures r == p || r in Between(base, p) {
      FilledLookup(m, base, p, src, r);
    }
  }

  /** Before the walk up: only `p` itself is filled in. */
  lemma FilledStart(m: map<Path, Option<string>>, p: Path, src: string)
    requires |p| > 0
    ensures Filled(m, Parent(p), p, src) == m[p := Some(src)]
  {
    assert Between(Parent(p), p) == {};
    var none: map<Path, Option<string>> := map r | r in Between(Parent(p), p) :: None;
    assert none == map[];
    assert m + none == m;
  }

  /** One step of the walk up: registering `q` as a directory extends the filled range to `q`'s parent. */
  lemma FilledStep(m: map<Path, Option<string>>, q: Path, p: Path, src: string)
    requires IsStrictPrefix(q, p) && |q| > 0
    ensures Between(Parent(q), p) == Between(q, p) + {q}
    ensures Filled(m, q, p, src)[q := None] == Filled(m, Parent(q), p, src)
  {
    var a := Filled(m, q, p, src)[q := None];
    var b := Filled(m, Parent(q), p, src);
    assert Between(Parent(q), p) == Between(q, p) + {q};
    forall r ensures r in a <==> r in b {
      FilledLookup(m, q, p, src, r);
      FilledLookup(m, Parent(q), p, src, r);
    }
    forall r | r in a ensures a[r] == b[r] {
      FilledLookup(m, q, p, src, r);
      FilledLookup(m, Parent(q), p, src, r);
    }
  }

  /** The walk up stops at an ancestor that is a file or symlink: `add_file` fails. */
  lemma WalkBlocked(base: Path, m: map<Path, Option<string>>, q: Path, p: Path)
    requires IsPrefix(base, q) && IsStrictPrefix(q, p) && q != base && q in m && m[q].Some?
    ensures !CanAdd(base, m, p)
  {
    assert q in Between(base, p);
  }

  /** `add_file` keeps the invariant. */
  lemma AddedWellFormed(base: Path, m: map<Path, Option<string>>, links: set<Path>, p: Path, src: string)
    requires WellFormed(base, m, links) && IsStrictPrefix(base, p) && CanAdd(base, m, p)
    ensures WellFormed(base, Added(base, m, p, src), links)
  {
    var m' := Added(base, m, p, src);
    FilledLookup(m, base, p, src, base);
    forall q | q in m' ensures IsPrefix(base, q) {
      FilledLookup(m, base, p, src, q);
    }
    forall q, k | q in m' && |base| <= k < |q|
      ensures q[..k] in m' && m'[q[..k]] == None
    {
      var r := q[..k];
      FilledLookup(m, base, p, src, q);
      FilledLookup(m, base, p, src, r);
      if q == p || q in Between(base, p) {
        if |r| > |base| {
          assert r in Between(base, p);
        } else {
          assert r == base;
        }
      } else {
        assert r in m && m[r] == None;
      }
    }
    forall s | s in links ensures s in m' && m'[s].Some? {
      FilledLookup(m, base, p, src, s);
    }
  }

  /**
   * Adding two paths in either order gives the same archive: the written archive
   * does not depend on insertion order.
   */
  lemma AddedCommutes(base: Path, m: map<Path, Option<string>>, p1: Path, s1: string, p2: Path, s2: string)
    requires CanAdd(base, m, p1) && CanAdd(base, Added(base, m, p1, s1), p2)
    requires CanAdd(base, m, p2) && CanAdd(base, Added(base, m, p2, s2), p1)
    ensures Added(base, Added(base, m, p1, s1), p2, s2) == Added(base, Added(base, m, p2, s2), p1, s1)
  {
    var m1 := Added(base, m, p1, s1);
    var m2 := Added(base, m, p2, s2);
    var a := Added(base, m1, p2, s2);
    var b := Added(base, m2, p1, s1);
    FilledLookup(m, base, p1, s1, p2);
    FilledLookup(m, base, p2, s2, p1);
    forall r ensures r in a <==> r in b {
      FilledLookup(m, base, p1, s1, r);
      FilledLookup(m, base, p2, s2, r);
      FilledLookup(m1, base, p2, s2, r);
      FilledLookup(m2, base, p1, s1, r);
    }
    forall r | r in a ensures a[r] == b[r] {
      FilledLookup(m, base, p1, s1, r);
      FilledLookup(m, base, p2, s2, r);
      FilledLookup(m1, base, p2, s2, r);
      FilledLookup(m2, base, p1, s1, r);
    }
  }

  // ---------------------------------------------------------------------------
  // `sorted()`
  // ---------------------------------------------------------------------------

  /** The paths of `s` in sorted order, each once. */
  method SortedPaths(s: set<Path>) returns (r: seq<Path>)
    ensures Sorted(r)
    ensures forall p :: p in r <==> p in s
  {
    r := [];
    var rest := s;
    while rest != {}
      invariant Sorted(r)
      invariant forall p :: p in s <==> p in r || p in rest
      invariant forall i, q :: 0 <= i < |r| && q in rest ==> PathLess(r[i], q)
      decreases |rest|
    {
      LeastExists(rest);
      var m :| IsLeast(m, rest);
      forall i | 0 <= i < |r| ensures r[i] != m {
        PathLessIrreflexive(m);
      }
      r := r + [m];
      rest := rest - {m};
    }
  }

  /** In a sorted sequence, the first `j + 1` entries are exactly those not above entry `j`. */
  lemma SortedPrefix(r: seq<Path>, j: nat, p: Path)
    requires Sorted(r) && j < |r| && p in r
    ensures p in r[..j + 1] <==> !PathLess(r[j], p)
  {
    var k :| 0 <= k < |r| && r[k] == p;
    if k <= j {
      assert p in r[..j + 1];
      if k < j { PathLessAsymmetric(r[k], r[j]); } else { PathLessIrreflexive(p); }
    } else {
      assert PathLess(r[j], p);
      if p in r[..j + 1] {
        var k' :| 0 <= k' <= j && r[k'] == p;
        SortedDistinct(r, k, k');
      }
    }
  }

  /** A prefix of a sorted sequence is sorted. */
  lemma SortedTake(ps: seq<Path>, n: nat)
    requires Sorted(ps) && n <= |ps|
    ensures Sorted(ps[..n])
  {
    forall i, j | 0 <= i < j < n ensures PathLess(ps[..n][i], ps[..n][j]) {
      assert ps[..n][i] == ps[i] && ps[..n][j] == ps[j];
    }
  }

  /**
   * In sorted `keys`, the first entry that is in `links` (a subset of `keys`) is the
   * least of `links`, and the entries up to it are those not above it.
   */
  lemma FirstSymlink(keys: seq<Path>, i: nat, links: set<Path>)
    requires Sorted(keys) && i < |keys| && keys[i] in links
    requires forall s :: s in links ==> s in keys
    requires forall j :: 0 <= j < i ==> keys[j] !in links
    ensures IsLeast(keys[i], links)
    ensures forall q :: q in keys[..i + 1] <==> q in keys && !PathLess(keys[i], q)
  {
    forall s | s in links && s != keys[i] ensures PathLess(keys[i], s) {
      var k :| 0 <= k < |keys| && keys[k] == s;
      assert k != i;
    }
    forall q ensures q in keys[..i + 1] <==> q in keys && !PathLess(keys[i], q) {
      if q in keys { SortedPrefix(keys, i, q); }
    }
  }

  // ---------------------------------------------------------------------------
  // `Archive`
  // ---------------------------------------------------------------------------

  /** A set of listed paths that no listed path belongs to is empty. */
  lemma NoneListed(keys: seq<Path>, s: set<Path>)
    requires forall p :: p in s ==> p in keys
    requires forall j :: 0 <= j < |keys| ==> keys[j] !in s
    ensures s == {}
  {
  }

  /**
   * The walk of `add_file`: from `p`'s parent up towards `base`, registering each
   * ancestor as a directory, stopping at the base or at the first ancestor that is
   * already a file or symlink.
   */
  method WalkUp(base: Path, m: map<Path, Option<string>>, p: Path, src: string) returns (acc: map<Path, Option<string>>, q: Path)
    requires IsStrictPrefix(base, p)
    ensures IsPrefix(base, q) && IsStrictPrefix(q, p)
    ensures acc == Filled(m, q, p, src)
    ensures forall r :: r in Between(q, p) && r in m ==> m[r] == None
    ensures q == base || (q in acc && acc[q].Some?)
  {
    acc := m[p := Some(src)];
    q := Parent(p);
    assert acc == Filled(m, q, p, src) by {
      assert Between(q, p) == {};
      var none: map<Path, Option<string>> := map r | r in Between(q, p) :: None;
      assert none == map[];
      assert m + none == m;
    }
    while q != base && !(q in acc && acc[q].Some?)
      invariant IsPrefix(base, q) && IsStrictPrefix(q, p)
      invariant acc == Filled(m, q, p, src)
      invariant forall r :: r in Between(q, p) && r in m ==> m[r] == None
      decreases |q|
    {
      FilledLookup(m, q, p, src, q);
      FilledStep(m, q, p, src);
      acc := acc[q := None];
      q := Parent(q);
    }
  }

  /**
   * The writing loop of `save` over the sorted `keys`: one entry per path, stopping at
   * the first symlink the zip writer refuses.
   */
  method WriteEntries(windows: bool, keys: seq<Path>, paths: map<Path, Option<string>>, symlinks: set<Path>, now: int, files: string -> SourceFile)
    returns (written: seq<Entry>)
    requires forall j :: 0 <= j < |keys| ==> keys[j] in paths
    requires forall s :: s in symlinks && s in paths ==> paths[s].Some?
    ensures |written| <= |keys|
    ensures forall j :: 0 <= j < |written| ==> !(windows && keys[j] in symlinks)
    ensures forall j :: 0 <= j < |written| ==>
      EntryFor(windows, keys[j], paths[keys[j]], keys[j] in symlinks, now, files) == Some(written[j])
    ensures |written| < |keys| ==> windows && keys[|written|] in symlinks
  {
    written := [];
    var i := 0;
    while i < |keys|
      invariant 0 <= i <= |keys| && |written| == i
      invariant forall j :: 0 <= j < i ==> !(windows && keys[j] in symlinks)
      invariant forall j :: 0 <= j < i ==>
        EntryFor(windows, keys[j], paths[keys[j]], keys[j] in symlinks, now, files) == Some(written[j])
    {
      var p := keys[i];
      var e := EntryFor(windows, p, paths[p], p in symlinks, now, files);
      if e.None? {
        return;
      }
      written := written + [e.value];
      i := i + 1;
    }
  }

  class Archive {
    /** The archive's root directory (`get_archive_base_path`, taken as given). */
    const base: Path
    /** `_paths`: archive path to source file or symlink target, `None` for a directory. */
    var paths: map<Path, Option<string>>
    /** `_symlinks`: the paths to write as symbolic links. */
    var symlinks: set<Path>

    ghost predicate Valid()
      reads this
    {
      WellFormed(base, paths, symlinks)
    }

    /** `Archive(fh)`: only the base, as a directory. */
    constructor (base: Path)
      ensures this.base == base && paths == map[base := None] && symlinks == {}
      ensures Valid()
    {
      this.base := base;
      paths := map[base := None];
      symlinks := {};
    }

    /**
     * `add_file`: register `p` with source `src`, then walk up from `p`'s parent to the
     * base registering each ancestor as a directory. Fails (a Python assertion, which ends
     * the script) if `p` is already registered or an ancestor is a file or symlink.
     * Callers always pass a path under the base; any other path would never reach it.
     */
    method AddFile(p: Path, src: string) returns (ok: bool)
      requires Valid()
      requires IsStrictPrefix(base, p)
      modifies this
      ensures symlinks == old(symlinks)
      ensures ok <==> CanAdd(base, old(paths), p)
      ensures ok ==> Valid() && paths == Added(base, old(paths), p, src)
      ensures !ok && p in old(paths) ==> paths == old(paths)
      ensures !ok && p !in old(paths) ==> p in paths && paths[p] == Some(src)
    {
      if p in paths {
        return false;
      }
      ghost var m := paths;
      var acc, q := WalkUp(base, paths, p, src);
      paths := acc;
      if q != base {
        FilledLookup(m, q, p, src, q);
        FilledLookup(m, q, p, src, p);
        WalkBlocked(base, m, q, p);
        return false;
      }
      AddedWellFormed(base, m, symlinks, p, src);
      return true;
    }

    /** `add_symlink`: `add_file(p, target)`, then mark `p` as a symlink. */
    method AddSymlink(p: Path, target: string) returns (ok: bool)
      requires Valid()
      requires IsStrictPrefix(base, p)
      modifies this
      ensures ok <==> CanAdd(base, old(paths), p)
      ensures ok ==> Valid() && paths == Added(base, old(paths), p, target) && symlinks == old(symlinks) + {p}
      ensures !ok ==> symlinks == old(symlinks)
    {
      ok := AddFile(p, target);
      if ok {
        symlinks := symlinks + {p};
      }
    }

    /**
     * `save`: every registered path in sorted order (`listing`, what `--verbose` prints),
     * each written as a directory, a symlink or a copied file. The zip writer (Windows)
     * refuses the first symlink it reaches, after writing everything before it.
     */
    method Save(windows: bool, now: int, files: string -> SourceFile) returns (listing: seq<Path>, written: seq<Entry>, ok: bool)
      requires Valid()
      ensures Sorted(listing)
      ensures ok <==> !(windows && symlinks != {})
      ensures ok ==> (forall p :: p in listing <==> p in paths) && |written| == |listing|
      ensures !ok ==> |listing| == |written| + 1 && IsLeast(listing[|written|], symlinks)
      ensures !ok ==> forall p :: p in listing <==> p in paths && !PathLess(listing[|written|], p)
      ensures forall i :: 0 <= i < |written| ==>
        listing[i] in paths &&
        EntryFor(windows, listing[i], paths[listing[i]], listing[i] in symlinks, now, files) == Some(written[i])
    {
      var keys := SortedPaths(paths.Keys);
      written := WriteEntries(windows, keys, paths, symlinks, now, files);
      var n := |written|;
      if n < |keys| {
        assert forall s :: s in symlinks ==> s in keys;
        FirstSymlink(keys, n, symlinks);
        SortedTake(keys, n + 1);
        listing, ok := keys[..n + 1], false;
      } else {
        if windows {
          NoneListed(keys, symlinks);
        }
        listing, ok := keys, true;
      }
    }
  }

  // ---------------------------------------------------------------------------
  // Where artifacts go (`write-bdist.py` main loop)
  // ---------------------------------------------------------------------------

  /** `re.search('\\.(lib|(dylib|jnilib)(\\.dSYM)?|so[.0-9]*(\\.debug)?)$', name)`. */
  predicate IsLibraryName(name: string) {
    || EndsWith(name, ".lib")
    || EndsWith(name, ".dylib") || EndsWith(name, ".jnilib")
    || EndsWith(name, ".dylib.dSYM") || EndsWith(name, ".jnilib.dSYM")
    || SoTail(name)
    || (EndsWith(name, ".debug") && SoTail(name[..|name| - 6]))
  }

  /** The directory, relative to the archive base, that an artifact named `name` goes to. */
  function ArtifactDir(name: string, windows: bool): (d: Path)
    ensures d in {["lib"], ["include", "openslide"], ["bin"], []}
  {
    if IsLibraryName(name) then ["lib"]
    else if EndsWith(name, ".h") then ["include", "openslide"]
    else if EndsWith(name, ".jar") then (if windows then ["bin"] else ["lib"])
    else if name in {"README.md", "VERSIONS.md", "licenses"} then []
    else ["bin"]
  }

  /** Placement by name, rule by rule in priority order. */
  lemma ArtifactDirRules(name: string, windows: bool)
    ensures SoTailMatch(name) ==> ArtifactDir(name, windows) == ["lib"]
    ensures !IsLibraryName(name) && EndsWith(name, ".h") ==> ArtifactDir(name, windows) == ["include", "openslide"]
    ensures !IsLibraryName(name) && EndsWith(name, ".jar") ==>
      ArtifactDir(name, windows) == if windows then ["bin"] else ["lib"]
    ensures name in {"README.md", "VERSIONS.md", "licenses"} ==> ArtifactDir(name, windows) == []
    ensures ArtifactDir(name, windows) == [] ==> name in {"README.md", "VERSIONS.md", "licenses"}
    ensures IsLibraryName(name) ==> ArtifactDir(name, windows) == ["lib"]
    ensures EndsWith(name, ".dll") ==> ArtifactDir(name, windows) == ["bin"]
    ensures (!IsLibraryName(name) && !EndsWith(name, ".h") && !EndsWith(name, ".jar")
             && name !in {"README.md", "VERSIONS.md", "licenses"}) ==> ArtifactDir(name, windows) == ["bin"]
  {
    SoTailIff(name);
    if name in {"README.md", "VERSIONS.md", "licenses"} {
      assert name[|name| - 1] == 'd' || name[|name| - 1] == 's';
      PlainName(name);
    }
    if EndsWith(name, ".dll") {
      assert name[|name| - 1] == 'l';
      PlainName(name);
    }
  }

  /**
   * A name ending in `d` or `s` (the three top-level names) or in `l` (a DLL)
   * matches none of the library, header or jar placement rules.
   */
  lemma PlainName(name: string)
    requires |name| > 0 && (name[|name| - 1] == 'd' || name[|name| - 1] == 's' || name[|name| - 1] == 'l')
    ensures !IsLibraryName(name) && !EndsWith(name, ".h") && !EndsWith(name, ".jar")
  {
    assert TrimVersion(name) == name;
    NotEndsWith(name, ".lib");
    NotEndsWith(name, ".dylib");
    NotEndsWith(name, ".jnilib");
    NotEndsWith(name, ".dylib.dSYM");
    NotEndsWith(name, ".jnilib.dSYM");
    NotEndsWith(name, ".so");
    NotEndsWith(name, ".debug");
    NotEndsWith(name, ".h");
    NotEndsWith(name, ".jar");
  }

  /** `re.search('\\.so(\\.[0-9]+){3}$', name)`: a library with a three-part version. */
  predicate HasSoVersion3(name: string) {
    StripNumGroups(name, 3).Some? && EndsWith(StripNumGroups(name, 3).value, ".so")
  }

  /** `re.search('\\.[0-9]+\\.dylib$', name)`: a versioned macOS library. */
  predicate HasDylibVersion(name: string) {
    EndsWith(name, ".dylib") && StripNumGroups(name[..|name| - 6], 1).Some?
  }

  /**
   * The symlinks created next to a built file, each pointing at the file's own name:
   * `libX.so.A.B.C` gets `libX.so.A` and `libX.so`; `libX.N.dylib` gets `libX.dylib`.
   */
  function SonameLinks(name: string): (links: seq<string>)
    ensures |links| <= 2
    ensures forall k :: 0 <= k < |links| ==> |links[k]| < |name|
  {
    if HasSoVersion3(name) then
      StripFewer(name, 2);
      [StripNumGroups(name, 2).value, StripNumGroups(name, 3).value]
    else if HasDylibVersion(name) then [StripNumGroups(name[..|name| - 6], 1).value + ".dylib"]
    else []
  }

  /**
   * Only the two versioned forms get links: a name such as `libX.so.1`, `libX.so.1.2.3.4`,
   * `libX.dylib` or `X.dll` gets none.
   */
  lemma SonameLinksOnly(name: string)
    requires SonameLinks(name) != []
    ensures || (exists stem, a, b, c :: IsDigits(a) && IsDigits(b) && IsDigits(c) && name == stem + ".so." + a + "." + b + "." + c)
            || (exists stem, n :: IsDigits(n) && name == stem + "." + n + ".dylib")
  {
    if HasSoVersion3(name) {
      SoVersion3Form(name);
    } else {
      DylibForm(name);
    }
  }

  /** A name passing the three-group `.so` test is `stem.so.A.B.C`. */
  lemma SoVersion3Form(name: string)
    requires HasSoVersion3(name)
    ensures exists stem, a, b, c :: IsDigits(a) && IsDigits(b) && IsDigits(c) && name == stem + ".so." + a + "." + b + "." + c
  {
    var u1, c := StripOneGroup(name, 2);
    var u2, b := StripOneGroup(u1, 1);
    var u3, a := StripOneGroup(u2, 0);
    var stem := u3[..|u3| - 3];
    assert u3 == stem + ".so";
    assert name == stem + ".so." + a + "." + b + "." + c by {
      assert u2 == stem + ".so." + a;
      assert u1 == stem + ".so." + a + "." + b;
    }
  }

  /** A name passing the versioned `.dylib` test is `stem.N.dylib`. */
  lemma DylibForm(name: string)
    requires HasDylibVersion(name)
    ensures exists stem, n :: IsDigits(n) && name == stem + "." + n + ".dylib"
  {
    var u, n := StripOneGroup(name[..|name| - 6], 0);
    assert name == u + "." + n + ".dylib";
  }

  /** A library with a three-part version gets its major-version and unversioned names. */
  lemma {:induction false} SoLinks(stem: string, a: string, b: string, c: string)
    requires IsDigits(a) && IsDigits(b) && IsDigits(c)
    ensures SonameLinks(stem + ".so." + a + "." + b + "." + c) == [stem + ".so." + a, stem + ".so"]
  {
    var name := stem + ".so." + a + "." + b + "." + c;
    assert name == stem + ".so" + "." + a + "." + b + "." + c;
    StripGroup(stem + ".so" + "." + a + "." + b, c, 2);
    StripGroup(stem + ".so" + "." + a, b, 1);
    StripGroup(stem + ".so", a, 0);
    StripGroup(stem + ".so" + "." + a + "." + b, c, 1);
    StripGroup(stem + ".so" + "." + a, b, 0);
    assert stem + ".so" + "." + a == stem + ".so." + a;
  }

  /** A versioned macOS library gets its unversioned name. */
  lemma {:induction false} DylibLink(stem: string, n: string)
    requires IsDigits(n)
    ensures SonameLinks(stem + "." + n + ".dylib") == [stem + ".dylib"]
  {
    var name := stem + "." + n + ".dylib";
    assert name[..|name| - 6] == stem + "." + n;
    StripGroup(stem, n, 0);
    assert !IsDigit(name[|name| - 1]);
  }

  /**
   * The file branch of the main loop: add the artifact under its directory, then its
   * soname symlinks beside it. Fails where `add_file` or `add_symlink` would.
   */
  method AddBuiltFile(arc: Archive, name: string, src: string, windows: bool) returns (ok: bool)
    requires arc.Valid() && |name| > 0 && '/' !in name
    modifies arc
    ensures ok ==> arc.Valid()
    ensures ok ==>
      var file := arc.base + ArtifactDir(name, windows) + [name];
      file in arc.paths && arc.paths[file] == Some(src) && file !in arc.symlinks
    ensures ok ==> forall l :: l in SonameLinks(name) ==>
      var lp := arc.base + ArtifactDir(name, windows) + [l];
      lp in arc.symlinks && arc.paths[lp] == Some(name)
    ensures ok ==> forall r :: r in old(arc.paths) && old(arc.paths)[r].Some? ==>
      r in arc.paths && arc.paths[r] == old(arc.paths)[r] && (r in arc.symlinks <==> r in old(arc.symlinks))
    ensures ok ==> arc.symlinks == old(arc.symlinks) + LinkPaths(arc.base + ArtifactDir(name, windows), SonameLinks(name))
    ensures ok ==> old(arc.paths).Keys <= arc.paths.Keys
    ensures ok ==> forall r :: r in arc.paths && arc.paths[r].Some? ==>
      (r in old(arc.paths) && old(arc.paths)[r].Some?) || r == arc.base + ArtifactDir(name, windows) + [name]
      || r in LinkPaths(arc.base + ArtifactDir(name, windows), SonameLinks(name))
    ensures ok ==> forall r :: r in arc.paths && r !in old(arc.paths) ==>
      var file := arc.base + ArtifactDir(name, windows) + [name];
      r == file || r in Between(arc.base, file) || r in LinkPaths(arc.base + ArtifactDir(name, windows), SonameLinks(name))
  {
    var dir := arc.base + ArtifactDir(name, windows);
    ok := arc.AddFile(dir + [name], src);
    if !ok { return; }
    FilledLookup(old(arc.paths), arc.base, dir + [name], src, dir + [name]);
    AddedKeepsEntries(arc.base, old(arc.paths), dir + [name], src);
    ghost var mid := arc.paths;
    ok := AddLinks(arc, dir, name, SonameLinks(name));
    if ok {
      NewKeysAboveFile(arc.base, old(arc.paths), mid, arc.paths, arc.symlinks, dir, name, SonameLinks(name));
    }
  }

  /**
   * The keys new after the artifact and its links are added: the artifact, its missing
   * ancestors, and the links.
   */
  lemma NewKeysAboveFile(base: Path, start: map<Path, Option<string>>, mid: map<Path, Option<string>>,
                         paths: map<Path, Option<string>>, symlinks: set<Path>, dir: Path, name: string, links: seq<string>)
    requires WellFormed(base, paths, symlinks) && base in start && IsPrefix(base, dir)
    requires forall r :: r in mid && r !in start ==> r == dir + [name] || r in Between(base, dir + [name])
    requires forall r :: r in paths && r !in mid ==> r in LinkPaths(dir, links) || IsPrefix(r, dir)
    requires start.Keys <= mid.Keys
    ensures forall r :: r in paths && r !in start ==>
      r == dir + [name] || r in Between(base, dir + [name]) || r in LinkPaths(dir, links)
  {
    forall r | r in paths && r !in start && r !in mid && r !in LinkPaths(dir, links)
      ensures r in Between(base, dir + [name])
    {
      assert IsPrefix(base, r) && r != base;
      assert (dir + [name])[..|r|] == dir[..|r|];
    }
  }

  /** The paths of the symlinks `dir/l`, one per entry of `links`. */
  function LinkPaths(dir: Path, links: seq<string>): set<Path> {
    set l | l in links :: dir + [l]
  }

  /** One more link adds exactly its own path. */
  lemma LinkPathsSnoc(dir: Path, links: seq<string>, k: nat)
    requires k < |links|
    ensures LinkPaths(dir, links[..k + 1]) == LinkPaths(dir, links[..k]) + {dir + [links[k]]}
  {
    assert links[..k + 1] == links[..k] + [links[k]];
  }

  /**
   * After the links `done` were added to an archive that held `start` and `startLinks`:
   * each link is a symlink to `name`, earlier files and symlinks are kept, the links are the
   * only new symlinks, every new file entry is one of them, and every other new entry
   * is an ancestor of `dir`.
   */
  ghost predicate LinksAdded(start: map<Path, Option<string>>, startLinks: set<Path>, paths: map<Path, Option<string>>,
                             symlinks: set<Path>, dir: Path, name: string, done: seq<string>)
  {
    && (forall r :: r in LinkPaths(dir, done) ==> r in paths && paths[r] == Some(name))
    && (forall r :: r in start && start[r].Some? ==> r in paths && paths[r] == start[r] && (r in symlinks <==> r in startLinks))
    && symlinks == startLinks + LinkPaths(dir, done)
    && start.Keys <= paths.Keys
    && (forall r :: r in paths && paths[r].Some? ==> (r in start && start[r].Some?) || r in LinkPaths(dir, done))
    && (forall r :: r in paths && r !in start ==> r in LinkPaths(dir, done) || IsPrefix(r, dir))
  }

  /** Adding `dir/l` registers, besides itself, only ancestors of `dir`. */
  lemma NewKeysStep(base: Path, start: map<Path, Option<string>>, paths: map<Path, Option<string>>,
                    dir: Path, name: string, links: seq<string>, k: nat)
    requires k < |links| && CanAdd(base, paths, dir + [links[k]])
    requires forall r :: r in paths && r !in start ==> r in LinkPaths(dir, links[..k]) || IsPrefix(r, dir)
    ensures forall r :: r in Added(base, paths, dir + [links[k]], name) && r !in start ==>
      r in LinkPaths(dir, links[..k + 1]) || IsPrefix(r, dir)
  {
    var p := dir + [links[k]];
    AddedKeepsEntries(base, paths, p, name);
    LinkPathsSnoc(dir, links, k);
    forall r | r in Between(base, p) ensures IsPrefix(r, dir) {
      assert dir[..|r|] == p[..|r|];
    }
  }

  /** One more successful `add_symlink` of `dir/links[k]` keeps `LinksAdded`, with one more link done. */
  lemma LinksAddedStep(base: Path, start: map<Path, Option<string>>, startLinks: set<Path>, paths: map<Path, Option<string>>,
                       symlinks: set<Path>, dir: Path, name: string, links: seq<string>, k: nat)
    requires k < |links|
    requires LinksAdded(start, startLinks, paths, symlinks, dir, name, links[..k])
    requires CanAdd(base, paths, dir + [links[k]])
    ensures LinksAdded(start, startLinks, Added(base, paths, dir + [links[k]], name), symlinks + {dir + [links[k]]},
                       dir, name, links[..k + 1])
  {
    AddedKeepsEntries(base, paths, dir + [links[k]], name);
    LinkPathsSnoc(dir, links, k);
    LinksDoneStep(base, paths, dir, name, links, k);
    KeptEntriesStep(base, start, startLinks, paths, symlinks, dir, name, links[k]);
    NewFilesStep(base, start, paths, dir, name, links, k);
    NewKeysStep(base, start, paths, dir, name, links, k);
  }

  /** After adding `dir/links[k]`, every link done so far is a symlink to `name`. */
  lemma LinksDoneStep(base: Path, paths: map<Path, Option<string>>, dir: Path, name: string, links: seq<string>, k: nat)
    requires k < |links| && CanAdd(base, paths, dir + [links[k]])
    requires forall r :: r in LinkPaths(dir, links[..k]) ==> r in paths && paths[r] == Some(name)
    ensures forall r :: r in LinkPaths(dir, links[..k + 1]) ==>
      r in Added(base, paths, dir + [links[k]], name) && Added(base, paths, dir + [links[k]], name)[r] == Some(name)
  {
    AddedKeepsEntries(base, paths, dir + [links[k]], name);
    LinkPathsSnoc(dir, links, k);
  }

  /** Adding the symlink `dir/l` keeps every earlier file and symlink as it was. */
  lemma KeptEntriesStep(base: Path, start: map<Path, Option<string>>, startLinks: set<Path>, paths: map<Path, Option<string>>,
                        symlinks: set<Path>, dir: Path, name: string, l: string)
    requires CanAdd(base, paths, dir + [l])
    requires forall r :: r in start && start[r].Some? ==> r in paths && paths[r] == start[r] && (r in symlinks <==> r in startLinks)
    ensures forall r :: r in start && start[r].Some? ==>
      r in Added(base, paths, dir + [l], name) && Added(base, paths, dir + [l], name)[r] == start[r]
      && (r in symlinks + {dir + [l]} <==> r in startLinks)
  {
    AddedKeepsEntries(base, paths, dir + [l], name);
    forall r | r in start && start[r].Some? ensures r != dir + [l] {
      assert r in paths && paths[r].Some?;
    }
  }

  /** Adding `dir/links[k]` creates no file entry besides that link. */
  lemma NewFilesStep(base: Path, start: map<Path, Option<string>>, paths: map<Path, Option<string>>,
                     dir: Path, name: string, links: seq<string>, k: nat)
    requires k < |links| && CanAdd(base, paths, dir + [links[k]])
    requires forall r :: r in paths && paths[r].Some? ==> (r in start && start[r].Some?) || r in LinkPaths(dir, links[..k])
    ensures forall r :: r in Added(base, paths, dir + [links[k]], name) && Added(base, paths, dir + [links[k]], name)[r].Some? ==>
      (r in start && start[r].Some?) || r in LinkPaths(dir, links[..k + 1])
  {
    AddedKeepsEntries(base, paths, dir + [links[k]], name);
    LinkPathsSnoc(dir, links, k);
  }

  /**
   * The soname symlinks `dir/l -> name`, one per entry of `links`, in order. Files and
   * symlinks registered before are left as they were; the only new symlinks are the
   * links, every new file entry is one of them, and every other new entry is a
   * directory above `dir`.
   */
  method AddLinks(arc: Archive, dir: Path, name: string, links: seq<string>) returns (ok: bool)
    requires arc.Valid() && IsPrefix(arc.base, dir)
    modifies arc
    ensures ok ==> arc.Valid()
    ensures ok ==> forall j :: 0 <= j < |links| ==> dir + [links[j]] in arc.symlinks && arc.paths[dir + [links[j]]] == Some(name)
    ensures ok ==> forall r :: r in old(arc.paths) && old(arc.paths)[r].Some? ==>
      r in arc.paths && arc.paths[r] == old(arc.paths)[r] && (r in arc.symlinks <==> r in old(arc.symlinks))
    ensures ok ==> arc.symlinks == old(arc.symlinks) + LinkPaths(dir, links)
    ensures ok ==> old(arc.paths).Keys <= arc.paths.Keys
    ensures ok ==> forall r :: r in arc.paths && arc.paths[r].Some? ==>
      (r in old(arc.paths) && old(arc.paths)[r].Some?) || r in LinkPaths(dir, links)
    ensures ok ==> forall r :: r in arc.paths && r !in old(arc.paths) ==> r in LinkPaths(dir, links) || IsPrefix(r, dir)
  {
    ghost var start, startLinks := arc.paths, arc.symlinks;
    var k := 0;
    assert LinkPaths(dir, links[..0]) == {};
    while k < |links|
      invariant 0 <= k <= |links|
      invariant arc.Valid()
      invariant LinksAdded(start, startLinks, arc.paths, arc.symlinks, dir, name, links[..k])
    {
      assert IsStrictPrefix(arc.base, dir + [links[k]]);
      ghost var before, beforeLinks := arc.paths, arc.symlinks;
      ok := arc.AddSymlink(dir + [links[k]], name);
      if !ok { return; }
      LinksAddedStep(arc.base, start, startLinks, before, beforeLinks, dir, name, links, k);
      k := k + 1;
    }
    assert links[..k] == links;
    forall j | 0 <= j < |links| ensures dir + [links[j]] in LinkPaths(dir, links) {
      assert links[j] in links;
    }
    ok := true;
  }
}
