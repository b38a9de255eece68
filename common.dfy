/**
 * The shared helpers of `artifacts/common.py`: the table of bundled projects and
 * which of them a build enabled, each project's version as recorded in its wrap
 * file (or reported by the build), the Markdown version table written to
 * VERSIONS.md, and the date-based default version.
 *
 * The build's introspection output, the wrap files and today's date are parameters.
 */
module Common {
  import opened Wrappers
  import opened Text
  import opened Patterns

  // ---------------------------------------------------------------------------
  // Projects
  // ---------------------------------------------------------------------------

  /** A bundled project: its subproject name, display name, and Markdown emphasis marker. */
  datatype Project = Project(id: string, display: string, marker: string)

  /** One subproject as the build's introspection reports it. */
  datatype Subproject = Subproject(name: string, version: string)

  /** `_PROJECTS`: all projects, in VERSIONS.md order. */
  function Projects(): seq<Project> {
    [
      Project("openslide", "OpenSlide", "**"),
      Project("openslide-java", "OpenSlide Java", "**"),
      Project("zlib", "zlib", ""),
      Project("libpng", "libpng", ""),
      Project("libjpeg-turbo", "libjpeg-turbo", ""),
      Project("libtiff", "libtiff", ""),
      Project("libopenjp2", "OpenJPEG", ""),
      Project("sqlite3", "SQLite", ""),
      Project("proxy-libintl", "proxy-libintl", ""),
      Project("libffi", "libffi", ""),
      Project("pcre2", "PCRE2", ""),
      Project("glib", "glib", ""),
      Project("gdk-pixbuf", "gdk-pixbuf", ""),
      Project("pixman", "pixman", ""),
      Project("cairo", "cairo", ""),
      Project("libxml2", "libxml2", ""),
      Project("uthash", "uthash", ""),
      Project("libdicom", "libdicom", "")
    ]
  }

  /** Only OpenSlide and OpenSlide Java are emphasised. */
  lemma ProjectTableFacts()
    ensures |Projects()| == 18
    ensures Projects()[0].id == "openslide" && Projects()[1].id == "openslide-java"
    ensures forall i :: 0 <= i < |Projects()| ==> (Projects()[i].marker == "**" <==> i < 2)
    ensures forall i :: 2 <= i < |Projects()| ==> Projects()[i].marker == ""
  {
  }

  /** No two projects of the table share an id. */
  lemma ProjectIdsUnique()
    ensures forall i, j :: 0 <= i < j < |Projects()| ==> Projects()[i].id != Projects()[j].id
  {
  }

  /** Subprojects that are deliberately not listed (gvdb is a copylib bundled with glib). */
  const Ignored: set<string> := {"gvdb"}

  function Ids(ps: seq<Project>): set<string> {
    set p | p in ps :: p.id
  }

  function Names(subs: seq<Subproject>): set<string> {
    set s | s in subs :: s.name
  }

  /** The names of a non-empty list: the first entry's, then the rest's. */
  lemma NamesCons(subs: seq<Subproject>)
    requires |subs| > 0
    ensures Names(subs) == {subs[0].name} + Names(subs[1..])
  {
    assert subs == [subs[0]] + subs[1..];
  }

  /** `a` is `b` with some entries left out, the rest in the same order. */
  predicate IsSubsequence(a: seq<Project>, b: seq<Project>) {
    if |a| == 0 then true
    else if |b| == 0 then false
    else if a[0] == b[0] then IsSubsequence(a[1..], b[1..])
    else IsSubsequence(a, b[1..])
  }

  /** The projects of `ps` whose id is enabled, in the order of `ps`. */
  function KeepEnabled(ps: seq<Project>, enabled: set<string>): (r: seq<Project>)
    ensures forall p :: p in r <==> p in ps && p.id in enabled
    ensures IsSubsequence(r, ps)
  {
    if |ps| == 0 then []
    else
      var rest := KeepEnabled(ps[1..], enabled);
      if ps[0].id in enabled then
        assert ps == [ps[0]] + ps[1..];
        [ps[0]] + rest
      else
        SubsequenceSkip(rest, ps[0], ps[1..]);
        rest
  }

  /** Putting an entry in front keeps a subsequence a subsequence. */
  lemma {:induction false} SubsequenceSkip(a: seq<Project>, x: Project, b: seq<Project>)
    requires IsSubsequence(a, b)
    ensures IsSubsequence(a, [x] + b)
    decreases |b|, 1
  {
    assert ([x] + b)[1..] == b;
    if |a| > 0 && a[0] == x {
      SubsequenceTail(a, b);
    }
  }

  /** Dropping the first entry of a subsequence leaves a subsequence. */
  lemma {:induction false} SubsequenceTail(a: seq<Project>, b: seq<Project>)
    requires |a| > 0 && IsSubsequence(a, b)
    ensures IsSubsequence(a[1..], b)
    decreases |b|, 0
  {
    if a[0] != b[0] {
      SubsequenceTail(a, b[1..]);
    }
    SubsequenceSkip(a[1..], b[0], b[1..]);
    assert [b[0]] + b[1..] == b;
  }

  /** The reason `get_enabled` fails: enabled subprojects that are neither known nor ignored. */
  datatype EnabledError = UnknownProjects(unknown: set<string>)

  /**
   * `Project.get_enabled` over the project table `table` (always `Projects()`): the known
   * projects whose id names an enabled subproject, in table order; an error naming every
   * enabled subproject that is neither known nor ignored.
   */
  function GetEnabled(table: seq<Project>, subs: seq<Subproject>): (r: Result<seq<Project>, EnabledError>)
    ensures r.Ok? <==> Names(subs) <= Ids(table) + Ignored
    ensures r.Ok? ==> forall p :: p in r.value <==> p in table && p.id in Names(subs)
    ensures r.Ok? ==> IsSubsequence(r.value, table)
    ensures r.Err? ==> r.error.unknown == Names(subs) - Ignored - Ids(table) && r.error.unknown != {}
  {
    var enabled := Names(subs);
    var ret := KeepEnabled(table, enabled);
    var unknown := enabled - Ignored - Ids(ret);
    assert unknown == enabled - Ignored - Ids(table) by {
      forall n | n in enabled ensures n in Ids(ret) <==> n in Ids(table) {
        if n in Ids(table) {
          var p :| p in table && p.id == n;
          assert p in ret;
        }
      }
    }
    if unknown != {} then Err(UnknownProjects(unknown)) else Ok(ret)
  }

  // ---------------------------------------------------------------------------
  // Versions
  // ---------------------------------------------------------------------------

  /** Why `get_wrap_version` fails. */
  datatype VersionError =
    | MissingDirectory          // no usable `wrapdb_version` and no `directory` (or no `[wrap-file]` section)
    | MissingProjectInfo(id: string)   // no wrap file and no subproject of that name

  /** The version of the first subproject named `id`, if any. */
  function FirstVersion(id: string, subs: seq<Subproject>): (r: Option<string>)
    ensures r.None? <==> id !in Names(subs)
    ensures r.Some? ==> exists i :: (0 <= i < |subs| && subs[i].name == id && subs[i].version == r.value
      && forall j :: 0 <= j < i ==> subs[j].name != id)
  {
    if |subs| == 0 then None
    else if subs[0].name == id then Some(subs[0].version)
    else
      var r := FirstVersion(id, subs[1..]);
      NamesCons(subs);
      if r.Some? then
        var i :| 0 <= i < |subs[1..]| && subs[1..][i].name == id && subs[1..][i].version == r.value
          && forall j :: 0 <= j < i ==> subs[1..][j].name != id;
        assert subs[i + 1] == subs[1..][i];
        assert forall j :: 0 < j < i + 1 ==> subs[j] == subs[1..][j - 1];
        r
      else r
  }

  /**
   * `Project.get_wrap_version`. `wrap` is the `[wrap-file]` section of the project's wrap
   * file (empty when the file has no such section), or `None` when there is no wrap file;
   * `subs` is the build's subproject list.
   */
  function GetWrapVersion(id: string, wrap: Option<map<string, string>>, subs: seq<Subproject>): (r: Result<string, VersionError>)
  {
    match wrap
    case Some(opts) =>
      if "wrapdb_version" in opts && opts["wrapdb_version"] != "" then Ok(opts["wrapdb_version"])
      else if "directory" in opts then
        var parts := Split(opts["directory"], '-');
        Ok(parts[|parts| - 1])
      else Err(MissingDirectory)
    case None =>
      match FirstVersion(id, subs)
      case Some(v) => Ok(v)
      case None => Err(MissingProjectInfo(id))
  }

  /** The version rules of `get_wrap_version`, case by case. */
  lemma WrapVersionRules(id: string, wrap: Option<map<string, string>>, subs: seq<Subproject>)
    ensures wrap.Some? && "wrapdb_version" in wrap.value && wrap.value["wrapdb_version"] != "" ==>
      GetWrapVersion(id, wrap, subs) == Ok(wrap.value["wrapdb_version"])
    ensures wrap.Some? && !("wrapdb_version" in wrap.value && wrap.value["wrapdb_version"] != "") ==>
      (GetWrapVersion(id, wrap, subs).Err? <==> "directory" !in wrap.value)
    ensures wrap.None? ==> (GetWrapVersion(id, wrap, subs).Ok? <==> id in Names(subs))
    ensures wrap.None? && GetWrapVersion(id, wrap, subs).Ok? ==>
      exists i :: 0 <= i < |subs| && subs[i].name == id && subs[i].version == GetWrapVersion(id, wrap, subs).value
  {
  }

  /** Without a usable `wrapdb_version`, a directory `<name>-<version>` yields the text after its last `-`. */
  lemma WrapVersionFromDirectory(id: string, opts: map<string, string>, subs: seq<Subproject>, name: string, v: string)
    requires "wrapdb_version" !in opts || opts["wrapdb_version"] == ""
    requires "directory" in opts && opts["directory"] == name + "-" + v && '-' !in v
    ensures GetWrapVersion(id, Some(opts), subs) == Ok(v)
  {
    SplitLast(name, v, '-');
  }

  // ---------------------------------------------------------------------------
  // The version table
  // ---------------------------------------------------------------------------

  /** `'| {:20} | {:53} |'.format(marker + name + marker, marker + version + marker)`. */
  function Row(name: string, version: string, marker: string): string {
    "| " + LJust(marker + name + marker, 20) + " | " + LJust(marker + version + marker, 53) + " |"
  }

  /**
   * A row is `| `, the marked name padded with spaces to at least 20, ` | `, the marked
   * version padded to at least 53, ` |`; neither cell is ever truncated.
   */
  lemma RowLayout(name: string, version: string, marker: string)
    ensures var row := Row(name, version, marker);
      var n, v := marker + name + marker, marker + version + marker;
      var w1 := if |n| < 20 then 20 else |n|;
      var w2 := if |v| < 53 then 53 else |v|;
      && |row| == w1 + w2 + 7
      && row[..2] == "| "
      && (forall i :: 0 <= i < |n| ==> row[2 + i] == n[i])
      && (forall i :: 2 + |n| <= i < 2 + w1 ==> row[i] == ' ')
      && row[2 + w1..5 + w1] == " | "
      && (forall i :: 0 <= i < |v| ==> row[5 + w1 + i] == v[i])
      && (forall i :: 5 + w1 + |v| <= i < 5 + w1 + w2 ==> row[i] == ' ')
      && row[|row| - 2..] == " |"
  {
    var n, v := marker + name + marker, marker + version + marker;
    var c1, c2 := LJust(n, 20), LJust(v, 53);
    var row := Row(name, version, marker);
    Framed(c1, c2);
    forall i | 0 <= i < |n| ensures row[2 + i] == n[i] {
      assert row[2 + i] == c1[i];
    }
    forall i | 2 + |n| <= i < 2 + |c1| ensures row[i] == ' ' {
      assert row[i] == c1[i - 2];
    }
    forall i | 0 <= i < |v| ensures row[5 + |c1| + i] == v[i] {
      assert row[5 + |c1| + i] == c2[i];
    }
    forall i | 5 + |c1| + |v| <= i < 5 + |c1| + |c2| ensures row[i] == ' ' {
      assert row[i] == c2[i - 5 - |c1|];
    }
  }

  /** Where the two cells sit in `| c1 | c2 |`. */
  lemma Framed(c1: string, c2: string)
    ensures var row := "| " + c1 + " | " + c2 + " |";
      && |row| == |c1| + |c2| + 7
      && row[..2] == "| "
      && (forall i :: 2 <= i < 2 + |c1| ==> row[i] == c1[i - 2])
      && row[2 + |c1|..5 + |c1|] == " | "
      && (forall i :: 5 + |c1| <= i < 5 + |c1| + |c2| ==> row[i] == c2[i - 5 - |c1|])
      && row[|row| - 2..] == " |"
  {
    var row := "| " + c1 + " | " + c2 + " |";
    assert row == ("| " + c1) + (" | " + c2) + " |";
  }

  /** The header and separator rows that start every table. */
  function Header(): seq<string> {
    [Row("Software", "Version", ""), Row("--------", "-------", "")]
  }

  /** The rows `write_project_versions` prints for `ps` before it finishes or fails, and the failure. */
  function ProjectRows(ps: seq<Project>, wraps: string -> Option<map<string, string>>, subs: seq<Subproject>): (seq<string>, Option<VersionError>) {
    if |ps| == 0 then ([], None)
    else match GetWrapVersion(ps[0].id, wraps(ps[0].id), subs)
      case Err(e) => ([], Some(e))
      case Ok(v) =>
        var (rest, err) := ProjectRows(ps[1..], wraps, subs);
        ([Row(ps[0].display, v, ps[0].marker)] + rest, err)
  }

  /** One row per build-environment entry, marked `_`. */
  function EnvRows(env: seq<(string, string)>): (rows: seq<string>)
    ensures |rows| == |env| && forall i :: 0 <= i < |env| ==> rows[i] == Row(env[i].0, env[i].1, "_")
  {
    seq(|env|, i requires 0 <= i < |env| => Row(env[i].0, env[i].1, "_"))
  }

  /** Why writing the table stopped early. */
  datatype TableError = Enabled(e: EnabledError) | Version(v: VersionError)

  /** The lines `write_project_versions` prints, and how it fails if it does. */
  function VersionsTable(table: seq<Project>, subs: seq<Subproject>, wraps: string -> Option<map<string, string>>, env: seq<(string, string)>): (seq<string>, Option<TableError>) {
    match GetEnabled(table, subs)
    case Err(e) => (Header(), Some(Enabled(e)))
    case Ok(ps) =>
      var (rows, err) := ProjectRows(ps, wraps, subs);
      if err.Some? then (Header() + rows, Some(Version(err.value)))
      else (Header() + rows + EnvRows(env), None)
  }

  /** The row of a project whose version is known. */
  function ProjectRow(p: Project, wraps: string -> Option<map<string, string>>, subs: seq<Subproject>): string
    requires GetWrapVersion(p.id, wraps(p.id), subs).Ok?
  {
    Row(p.display, GetWrapVersion(p.id, wraps(p.id), subs).value, p.marker)
  }

  /**
   * The rows before the first project without a version are those projects' rows, in
   * order; that project stops the table with its error. With no such project, every
   * project has its row and there is no error.
   */
  lemma {:induction false} ProjectRowsUpTo(ps: seq<Project>, wraps: string -> Option<map<string, string>>, subs: seq<Subproject>, k: nat)
    requires k <= |ps|
    requires forall i :: 0 <= i < k ==> GetWrapVersion(ps[i].id, wraps(ps[i].id), subs).Ok?
    requires k < |ps| ==> GetWrapVersion(ps[k].id, wraps(ps[k].id), subs).Err?
    ensures |ProjectRows(ps, wraps, subs).0| == k
    ensures forall i :: 0 <= i < k ==> ProjectRows(ps, wraps, subs).0[i] == ProjectRow(ps[i], wraps, subs)
    ensures ProjectRows(ps, wraps, subs).1
      == if k < |ps| then Some(GetWrapVersion(ps[k].id, wraps(ps[k].id), subs).error) else None
  {
    if k > 0 {
      var tail := ps[1..];
      assert forall i :: 0 <= i < k - 1 ==> GetWrapVersion(tail[i].id, wraps(tail[i].id), subs).Ok? by {
        forall i | 0 <= i < k - 1 ensures GetWrapVersion(tail[i].id, wraps(tail[i].id), subs).Ok? {
          assert tail[i] == ps[i + 1];
        }
      }
      assert k < |ps| ==> tail[k - 1] == ps[k];
      ProjectRowsUpTo(tail, wraps, subs, k - 1);
      var rest := ProjectRows(tail, wraps, subs).0;
      var rows := ProjectRows(ps, wraps, subs).0;
      assert rows == [ProjectRow(ps[0], wraps, subs)] + rest;
      assert ProjectRows(ps, wraps, subs).1 == ProjectRows(tail, wraps, subs).1;
      forall i | 0 < i < k ensures rows[i] == ProjectRow(ps[i], wraps, subs) {
        assert tail[i - 1] == ps[i];
      }
    }
  }

  /**
   * A complete table: header, separator, one row per enabled project in table order with
   * its marker, then one row per environment entry marked `_`.
   */
  lemma TableComplete(table: seq<Project>, subs: seq<Subproject>, wraps: string -> Option<map<string, string>>, env: seq<(string, string)>)
    requires GetEnabled(table, subs).Ok?
    requires forall p :: p in GetEnabled(table, subs).value ==> GetWrapVersion(p.id, wraps(p.id), subs).Ok?
    ensures VersionsTable(table, subs, wraps, env).1 == None
    ensures var ps, lines := GetEnabled(table, subs).value, VersionsTable(table, subs, wraps, env).0;
      && |lines| == 2 + |ps| + |env|
      && lines[..2] == Header()
    ensures var ps, lines := GetEnabled(table, subs).value, VersionsTable(table, subs, wraps, env).0;
      forall i :: 0 <= i < |ps| ==> lines[2 + i] == ProjectRow(ps[i], wraps, subs)
    ensures var ps, lines := GetEnabled(table, subs).value, VersionsTable(table, subs, wraps, env).0;
      lines[2 + |ps|..] == EnvRows(env)
  {
    var ps := GetEnabled(table, subs).value;
    ProjectRowsUpTo(ps, wraps, subs, |ps|);
    var rows := ProjectRows(ps, wraps, subs).0;
    var header := Header();
    assert |header| == 2;
    assert VersionsTable(table, subs, wraps, env) == (header + rows + EnvRows(env), None);
    TableLayout(VersionsTable(table, subs, wraps, env).0, header, rows, env, |ps|);
  }

  /** Where the parts of a table sit when its header has two lines and it has `n` project rows. */
  lemma TableLayout(lines: seq<string>, head: seq<string>, rows: seq<string>, env: seq<(string, string)>, n: nat)
    requires |head| == 2 && |rows| == n && lines == head + rows + EnvRows(env)
    ensures |lines| == 2 + n + |env| && lines[..2] == head
    ensures forall i :: 0 <= i < n ==> lines[2 + i] == rows[i]
    ensures lines[2 + n..] == EnvRows(env)
  {
  }

  /**
   * `write_project_versions`: print the header and separator, then a row per enabled
   * project, then a row per environment entry. `lines` is what reaches the output before
   * it finishes or fails.
   */
  method WriteProjectVersions(table: seq<Project>, subs: seq<Subproject>, wraps: string -> Option<map<string, string>>, env: seq<(string, string)>)
    returns (lines: seq<string>, err: Option<TableError>)
    ensures (lines, err) == VersionsTable(table, subs, wraps, env)
  {
    var enabled := GetEnabled(table, subs);
    if enabled.Err? {
      return Header(), Some(Enabled(enabled.error));
    }
    var rows, failure := PrintProjectRows(enabled.value, wraps, subs);
    if failure.Some? {
      return Header() + rows, Some(Version(failure.value));
    }
    var envRows := PrintEnvRows(env);
    return Header() + rows + envRows, None;
  }

  /** A project without a version at position `i` stops the rest of the table with its error. */
  lemma ProjectRowsStop(ps: seq<Project>, wraps: string -> Option<map<string, string>>, subs: seq<Subproject>, i: nat)
    requires i < |ps| && GetWrapVersion(ps[i].id, wraps(ps[i].id), subs).Err?
    ensures ProjectRows(ps[i..], wraps, subs) == ([], Some(GetWrapVersion(ps[i].id, wraps(ps[i].id), subs).error))
  {
    assert ps[i..][0] == ps[i];
  }

  /** A project with a version at position `i` contributes its row ahead of the rest of the table. */
  lemma ProjectRowsAdvance(ps: seq<Project>, wraps: string -> Option<map<string, string>>, subs: seq<Subproject>, i: nat, rows: seq<string>)
    requires i < |ps| && GetWrapVersion(ps[i].id, wraps(ps[i].id), subs).Ok?
    ensures (rows + [ProjectRow(ps[i], wraps, subs)]) + ProjectRows(ps[i + 1..], wraps, subs).0
      == rows + ProjectRows(ps[i..], wraps, subs).0
    ensures ProjectRows(ps[i + 1..], wraps, subs).1 == ProjectRows(ps[i..], wraps, subs).1
  {
    assert ps[i..][0] == ps[i];
    assert ps[i..][1..] == ps[i + 1..];
    var rest := ProjectRows(ps[i + 1..], wraps, subs).0;
    assert ProjectRows(ps[i..], wraps, subs).0 == [ProjectRow(ps[i], wraps, subs)] + rest;
    assert (rows + [ProjectRow(ps[i], wraps, subs)]) + rest == rows + ([ProjectRow(ps[i], wraps, subs)] + rest);
  }

  /** The loop over the enabled projects: one row each, stopping at the first without a version. */
  method PrintProjectRows(ps: seq<Project>, wraps: string -> Option<map<string, string>>, subs: seq<Subproject>)
    returns (rows: seq<string>, failure: Option<VersionError>)
    ensures (rows, failure) == ProjectRows(ps, wraps, subs)
  {
    rows := [];
    var i := 0;
    assert ps[0..] == ps;
    while i < |ps|
      invariant 0 <= i <= |ps|
      invariant rows + ProjectRows(ps[i..], wraps, subs).0 == ProjectRows(ps, wraps, subs).0
      invariant ProjectRows(ps[i..], wraps, subs).1 == ProjectRows(ps, wraps, subs).1
    {
      var v := GetWrapVersion(ps[i].id, wraps(ps[i].id), subs);
      if v.Err? {
        ProjectRowsStop(ps, wraps, subs, i);
        assert rows + [] == rows;
        return rows, Some(v.error);
      }
      ProjectRowsAdvance(ps, wraps, subs, i, rows);
      rows := rows + [Row(ps[i].display, v.value, ps[i].marker)];
      i := i + 1;
    }
    assert ps[i..] == [];
    assert rows + [] == rows;
    failure := None;
  }

  /** The loop over the build-environment entries: one row each, marked `_`. */
  method PrintEnvRows(env: seq<(string, string)>) returns (rows: seq<string>)
    ensures rows == EnvRows(env)
  {
    rows := [];
    var k := 0;
    while k < |env|
      invariant 0 <= k <= |env|
      invariant |rows| == k
      invariant forall j :: 0 <= j < k ==> rows[j] == Row(env[j].0, env[j].1, "_")
    {
      rows := rows + [Row(env[k].0, env[k].1, "_")];
      k := k + 1;
    }
  }

  // ---------------------------------------------------------------------------
  // The date default
  // ---------------------------------------------------------------------------

  /** A calendar date, as `date.today()` returns it. */
  datatype Date = Date(year: int, month: int, day: int)

  predicate ValidDate(d: Date) {
    1 <= d.year <= 9999 && 1 <= d.month <= 12 && 1 <= d.day <= 31
  }

  function Pow10(w: nat): (p: nat)
    ensures p >= 1
  {
    if w == 0 then 1 else 10 * Pow10(w - 1)
  }

  /** `n` in decimal, zero-padded to exactly `w` digits. */
  function Digits(n: nat, w: nat): (s: string)
    ensures |s| == w
  {
    if w == 0 then "" else Digits(n / 10, w - 1) + [('0' as int + n % 10) as char]
  }

  /** The number a string of decimal digits denotes. */
  function DigitsValue(s: string): nat {
    if |s| == 0 then 0
    else
      var c := s[|s| - 1];
      10 * DigitsValue(s[..|s| - 1]) + (if IsDigit(c) then c as int - '0' as int else 0)
  }

  /** Zero-padded decimal reads back as the number it was made from, in digits only. */
  lemma {:induction false} DigitsRoundTrip(n: nat, w: nat)
    requires n < Pow10(w)
    ensures DigitsValue(Digits(n, w)) == n
    ensures forall i :: 0 <= i < w ==> IsDigit(Digits(n, w)[i])
  {
    if w > 0 {
      DigitsRoundTrip(n / 10, w - 1);
      var s := Digits(n, w);
      assert s[..w - 1] == Digits(n / 10, w - 1);
    }
  }

  /** `strftime('%Y%m%d')`: four-digit year, two-digit month, two-digit day. */
  function DateStamp(d: Date): string
    requires ValidDate(d)
  {
    Digits(d.year, 4) + Digits(d.month, 2) + Digits(d.day, 2)
  }

  /** `default_version()`: today's date stamp followed by `-local`. */
  function DefaultVersion(today: Date): string
    requires ValidDate(today)
  {
    DateStamp(today) + "-local"
  }

  /** The default version is 8 digits and `-local`, and the digits give back the date. */
  lemma DefaultVersionFormat(today: Date)
    requires ValidDate(today)
    ensures var r := DefaultVersion(today);
      && |r| == 14 && r[8..] == "-local"
      && (forall i :: 0 <= i < 8 ==> IsDigit(r[i]))
      && DigitsValue(r[..4]) == today.year
      && DigitsValue(r[4..6]) == today.month
      && DigitsValue(r[6..8]) == today.day
  {
    var r := DefaultVersion(today);
    DigitsRoundTrip(today.year, 4);
    DigitsRoundTrip(today.month, 2);
    DigitsRoundTrip(today.day, 2);
    assert r[..4] == Digits(today.year, 4);
    assert r[4..6] == Digits(today.month, 2);
    assert r[6..8] == Digits(today.day, 2);
    forall i | 0 <= i < 8 ensures IsDigit(r[i]) {
      if i < 4 { assert r[i] == r[..4][i]; }
      else if i < 6 { assert r[i] == r[4..6][i - 4]; }
      else { assert r[i] == r[6..8][i - 6]; }
    }
  }
}
