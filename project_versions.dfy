/**
 * The build-environment entries of `artifacts/write-project-versions.py`: the MinGW-w64
 * version scraped from the preprocessor, the GCC and binutils versions, or the Clang
 * version, in the order the dictionary receives them. Compiler and tool outputs are
 * parameters; the table they end up in is `Common.VersionsTable`.
 */
module ProjectVersions {
  import opened Wrappers
  import opened Text

  // ---------------------------------------------------------------------------
  // First line
  // ---------------------------------------------------------------------------

  /** `s` up to its first newline. */
  function FirstLine(s: string): (r: string)
    ensures '\n' !in r && StartsWith(s, r)
    ensures |r| == |s| || s[|r|] == '\n'
  {
    if |s| == 0 || s[0] == '\n' then "" else [s[0]] + FirstLine(s[1..])
  }

  /** The first line is the first piece of `s.split('\n')`. */
  lemma {:induction false} FirstLineIsFirstPiece(s: string)
    ensures FirstLine(s) == Split(s, '\n')[0]
  {
    if |s| > 0 && s[0] != '\n' {
      FirstLineIsFirstPiece(s[1..]);
    }
  }

  // ---------------------------------------------------------------------------
  // MinGW-w64
  // ---------------------------------------------------------------------------

  /** A preprocessor output line that carries the version: not blank and not a `#` line marker. */
  predicate IsVersionLine(l: string) {
    !IsBlank(l) && !StartsWith(l, "#")
  }

  /** The first version line, if any. */
  function FirstVersionLine(lines: seq<string>): (r: Option<string>)
    ensures r.None? <==> forall j :: 0 <= j < |lines| ==> !IsVersionLine(lines[j])
    ensures r.Some? ==>
      exists i :: (0 <= i < |lines| && lines[i] == r.value && IsVersionLine(lines[i])
        && forall j :: 0 <= j < i ==> !IsVersionLine(lines[j]))
  {
    if |lines| == 0 then None
    else if IsVersionLine(lines[0]) then Some(lines[0])
    else
      var r := FirstVersionLine(lines[1..]);
      assert forall j :: 1 <= j < |lines| ==> lines[j] == lines[1..][j - 1];
      if r.Some? then
        var i :| 0 <= i < |lines[1..]| && lines[1..][i] == r.value && IsVersionLine(lines[1..][i])
          && forall j :: 0 <= j < i ==> !IsVersionLine(lines[1..][j]);
        assert lines[i + 1] == r.value;
        r
      else r
  }

  /** The MinGW-w64 version from the preprocessed header: its first version line without `"`. */
  function MingwVersion(out: string): (r: Option<string>)
    ensures r.None? <==> forall l :: l in Split(out, '\n') ==> !IsVersionLine(l)
    ensures r.Some? ==> var lines := Split(out, '\n');
      exists i :: 0 <= i < |lines| && IsVersionLine(lines[i]) && r.value == RemoveChar(lines[i], '"')
        && forall j :: 0 <= j < i ==> !IsVersionLine(lines[j])
    ensures r.Some? ==> '"' !in r.value
  {
    match FirstVersionLine(Split(out, '\n'))
    case Some(l) => Some(RemoveChar(l, '"'))
    case None => None
  }

  // ---------------------------------------------------------------------------
  // GCC
  // ---------------------------------------------------------------------------

  /** Index of the first space of `s`, or `|s|` when there is none. */
  function FirstSpace(s: string): (k: nat)
    ensures k <= |s| && (k < |s| ==> s[k] == ' ')
    ensures forall j :: 0 <= j < k ==> s[j] != ' '
  {
    if |s| == 0 || s[0] == ' ' then 0 else 1 + FirstSpace(s[1..])
  }

  /**
   * `re.match('[^ ]+ (.+)', full)[1]`: after the leading run of non-spaces (which may cross
   * newlines) and one space, the rest of that line; `None` where the match fails.
   */
  function GccVersion(full: string): Option<string> {
    var k := FirstSpace(full);
    if 0 < k < |full| && FirstLine(full[k + 1..]) != "" then Some(FirstLine(full[k + 1..])) else None
  }

  /** The groups of a match of `[^ ]+ (.+)` at the start of `full`: `full == word + " " + v + rest`. */
  predicate GccMatch(full: string, word: string, v: string) {
    |word| > 0 && ' ' !in word && |v| > 0 && '\n' !in v
    && StartsWith(full, word + " " + v)
    && (|word| + 1 + |v| == |full| || full[|word| + 1 + |v|] == '\n')
  }

  /** The match exists exactly when `GccVersion` succeeds, and its group is the result. */
  lemma GccVersionSpec(full: string)
    ensures GccVersion(full).Some? <==> exists word, v :: GccMatch(full, word, v)
    ensures forall word, v :: GccMatch(full, word, v) ==> GccVersion(full) == Some(v)
  {
    forall word, v | GccMatch(full, word, v) ensures GccVersion(full) == Some(v) {
      GccMatchFound(full, word, v);
    }
    if GccVersion(full).Some? {
      GccVersionMatches(full);
    }
  }

  /** A match of the expression is what `GccVersion` finds. */
  lemma GccMatchFound(full: string, word: string, v: string)
    requires GccMatch(full, word, v)
    ensures GccVersion(full) == Some(v)
  {
    var k := FirstSpace(full);
    var s := word + " " + v;
    assert full[..|s|] == s;
    assert forall j :: 0 <= j < |word| ==> full[j] == word[j];
    assert full[|word|] == ' ';
    assert k == |word|;
    assert full[k + 1..][..|v|] == v;
    FirstLineOf(full[k + 1..], v);
  }

  /** What `GccVersion` finds is a match of the expression, after the leading word. */
  lemma GccVersionMatches(full: string)
    requires GccVersion(full).Some?
    ensures GccMatch(full, full[..FirstSpace(full)], GccVersion(full).value)
  {
    var k := FirstSpace(full);
    var v := GccVersion(full).value;
    var word := full[..k];
    assert ' ' !in word;
    assert full[..|word + " " + v|] == word + " " + v;
  }

  /** A non-empty prefix without newlines that ends at a newline or at the end is the first line. */
  lemma {:induction false} FirstLineOf(s: string, v: string)
    requires '\n' !in v && StartsWith(s, v)
    requires |v| == |s| || s[|v|] == '\n'
    ensures FirstLine(s) == v
  {
    if |v| > 0 {
      assert s[0] == v[0];
      FirstLineOf(s[1..], v[1..]);
    }
  }

  // ---------------------------------------------------------------------------
  // Clang
  // ---------------------------------------------------------------------------

  const VersionWord := " version "

  /** The last start `i <= hi` of `t` in `s`, if any. */
  function LastAt(s: string, t: string, hi: int): (r: Option<nat>)
    ensures r.Some? ==> r.value <= hi && OccursAt(s, t, r.value)
    ensures r.Some? ==> forall j :: r.value < j <= hi ==> !OccursAt(s, t, j)
    ensures r.None? ==> forall j :: 0 <= j <= hi ==> !OccursAt(s, t, j)
    decreases hi + 1
  {
    if hi < 0 then None
    else if OccursAt(s, t, hi) then Some(hi)
    else LastAt(s, t, hi - 1)
  }

  /** One line of `re.sub('.* version ', '', full)`: everything through the last ` version ` goes. */
  function AfterLastVersion(line: string): string {
    match LastAt(line, VersionWord, |line| - |VersionWord|)
    case Some(i) => line[i + |VersionWord|..]
    case None => line
  }

  /**
   * The greedy match `.* version ` ends at the last ` version ` of the line; a line without
   * one is kept.
   */
  lemma AfterLastVersionSpec(line: string)
    ensures !Contains(line, VersionWord) ==> AfterLastVersion(line) == line
    ensures Contains(line, VersionWord) ==>
      exists i :: OccursAt(line, VersionWord, i) && AfterLastVersion(line) == line[i + |VersionWord|..]
        && forall j :: i < j ==> !OccursAt(line, VersionWord, j)
  {
    var hi := |line| - |VersionWord|;
    if Contains(line, VersionWord) {
      var i0 :| 0 <= i0 <= |line| && OccursAt(line, VersionWord, i0);
      assert i0 <= hi;
      var i := LastAt(line, VersionWord, hi).value;
      forall j | i < j ensures !OccursAt(line, VersionWord, j) {
        if j > hi { assert j + |VersionWord| > |line|; }
      }
    }
  }

  /** `re.sub('.* version ', '', full)`: `.` stops at newlines, so each line is rewritten alone. */
  function ClangVersion(full: string): string {
    var lines := Split(full, '\n');
    Join('\n', seq(|lines|, j requires 0 <= j < |lines| => AfterLastVersion(lines[j])))
  }

  /** A one-line version string keeps only what follows its last ` version `. */
  lemma ClangVersionOneLine(full: string)
    requires '\n' !in full
    ensures ClangVersion(full) == AfterLastVersion(full)
  {
    NoSepSplit(full, '\n');
  }

  // ---------------------------------------------------------------------------
  // The entries
  // ---------------------------------------------------------------------------

  datatype EnvError =
    | NoMingwVersion        // `IndexError`: no version line in the preprocessor output
    | GccVersionUnmatched   // `TypeError`: `full_version` does not match `[^ ]+ (.+)`

  /**
   * The `env_info` entries, in insertion order, for a host that is or is not Windows, the C
   * compiler's id and full version, the preprocessed MinGW header and the linker's `--version`.
   */
  function EnvInfo(windows: bool, compilerId: string, fullVersion: string, mingwOut: string, ldOut: string)
    : Result<seq<(string, string)>, EnvError>
  {
    if windows && MingwVersion(mingwOut).None? then Err(NoMingwVersion)
    else
      var mingw := if windows then [("MinGW-w64", MingwVersion(mingwOut).value)] else [];
      if compilerId == "gcc" then
        match GccVersion(fullVersion)
        case None => Err(GccVersionUnmatched)
        case Some(v) => Ok(mingw + [("GCC", v), ("Binutils", FirstLine(ldOut))])
      else if compilerId == "clang" then Ok(mingw + [("Clang", ClangVersion(fullVersion))])
      else Ok(mingw)
  }

  /** The statements of lines 44-61, each assignment appending one entry. */
  method CollectEnvInfo(windows: bool, compilerId: string, fullVersion: string, mingwOut: string, ldOut: string)
    returns (r: Result<seq<(string, string)>, EnvError>)
    ensures r == EnvInfo(windows, compilerId, fullVersion, mingwOut, ldOut)
  {
    var env: seq<(string, string)> := [];
    if windows {
      var line := FirstVersionLine(Split(mingwOut, '\n'));
      if line.None? {
        return Err(NoMingwVersion);
      }
      env := env + [("MinGW-w64", RemoveChar(line.value, '"'))];
    }
    assert windows ==> MingwVersion(mingwOut) == Some(env[0].1);
    assert env == if windows then [("MinGW-w64", MingwVersion(mingwOut).value)] else [];
    if compilerId == "gcc" {
      var v := GccVersion(fullVersion);
      if v.None? {
        return Err(GccVersionUnmatched);
      }
      ghost var prior := env;
      env := env + [("GCC", v.value)];
      env := env + [("Binutils", FirstLine(ldOut))];
      assert env == prior + [("GCC", v.value), ("Binutils", FirstLine(ldOut))];
    } else if compilerId == "clang" {
      env := env + [("Clang", ClangVersion(fullVersion))];
    }
    return Ok(env);
  }

  function Keys(env: seq<(string, string)>): (ks: seq<string>)
    ensures |ks| == |env| && forall j :: 0 <= j < |env| ==> ks[j] == env[j].0
  {
    seq(|env|, j requires 0 <= j < |env| => env[j].0)
  }

  /**
   * MinGW-w64 comes first and only on Windows; then `GCC` and `Binutils` for gcc, or `Clang`
   * for clang, and nothing for another compiler; the values are the extracted versions.
   */
  lemma EnvInfoSpec(windows: bool, compilerId: string, fullVersion: string, mingwOut: string, ldOut: string)
    ensures var r := EnvInfo(windows, compilerId, fullVersion, mingwOut, ldOut);
      r.Ok? ==>
        (Keys(r.value) ==
          (if windows then ["MinGW-w64"] else [])
          + (if compilerId == "gcc" then ["GCC", "Binutils"] else if compilerId == "clang" then ["Clang"] else []))
    ensures var r := EnvInfo(windows, compilerId, fullVersion, mingwOut, ldOut);
      r.Ok? && windows ==> r.value[0].1 == MingwVersion(mingwOut).value
    ensures var r := EnvInfo(windows, compilerId, fullVersion, mingwOut, ldOut);
      var n := if windows then 1 else 0;
      r.Ok? && compilerId == "gcc" ==>
        r.value[n].1 == GccVersion(fullVersion).value && r.value[n + 1].1 == Split(ldOut, '\n')[0]
    ensures var r := EnvInfo(windows, compilerId, fullVersion, mingwOut, ldOut);
      var n := if windows then 1 else 0;
      r.Ok? && compilerId == "clang" ==> r.value[n].1 == ClangVersion(fullVersion)
  {
    FirstLineIsFirstPiece(ldOut);
  }

  /**
   * `env_info` fails for want of a MinGW-w64 version exactly on Windows when no line of the
   * `gcc -E` output defines one, and for want of a gcc version exactly when that check passed,
   * the compiler is gcc and its version string does not start with a space-free word, a space
   * and a non-empty rest of its first line (`[^ ]+ (.+)` has no match).
   */
  lemma EnvInfoErrors(windows: bool, compilerId: string, fullVersion: string, mingwOut: string, ldOut: string)
    ensures EnvInfo(windows, compilerId, fullVersion, mingwOut, ldOut) == Err(NoMingwVersion) <==>
      windows && forall l :: l in Split(mingwOut, '\n') ==> !IsVersionLine(l)
    ensures EnvInfo(windows, compilerId, fullVersion, mingwOut, ldOut) == Err(GccVersionUnmatched) <==>
      !(windows && MingwVersion(mingwOut).None?) && compilerId == "gcc" && forall word, v :: !GccMatch(fullVersion, word, v)
  {
    assert GccVersion(fullVersion).None? <==> forall word, v :: !GccMatch(fullVersion, word, v) by {
      GccVersionSpec(fullVersion);
    }
    var lines := Split(mingwOut, '\n');
    assert (forall l :: l in lines ==> !IsVersionLine(l)) <==> (forall j :: 0 <= j < |lines| ==> !IsVersionLine(lines[j]));
  }
}
