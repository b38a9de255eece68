/**
 * The checks and decisions of `artifacts/postprocess-binary.py` that read tool output:
 * which symbols a shared library exports (scraped from `objdump -T`, `dyld_info -exports`
 * or `objdump -p` text), whether any export is outside the allowed set, the old LC_RPATH
 * read from `otool -l` text, and which new rpath the binary gets.
 *
 * Tool outputs are parameters (already decoded to text); running the tools is not modelled.
 */
module PostprocessBinary {
  import opened Wrappers
  import opened Text
  import opened Patterns

  /** A Python `IndexError`: a line had fewer fields than the scan reads. */
  datatype ScanError = IndexError

  /** `out.split('\n')`. */
  function Lines(out: string): seq<string> {
    Split(out, '\n')
  }

  // ---------------------------------------------------------------------------
  // Linux and macOS: one field of every matching line
  // ---------------------------------------------------------------------------

  /** The lines that contain `marker`, in order. */
  function Matching(lines: seq<string>, marker: string): (r: seq<string>)
    ensures |r| <= |lines|
    ensures forall l :: l in r <==> l in lines && Contains(l, marker)
  {
    if |lines| == 0 then []
    else
      var rest := Matching(lines[1..], marker);
      assert lines == [lines[0]] + lines[1..];
      if Contains(lines[0], marker) then [lines[0]] + rest else rest
  }

  /**
   * `[l.split()[k] for l in lines if marker in l]`: the `k`-th whitespace-separated field of
   * each line containing `marker`; an `IndexError` at the first such line that is too short.
   */
  function FieldOfMatching(lines: seq<string>, marker: string, k: nat): Result<seq<string>, ScanError> {
    if |lines| == 0 then Ok([])
    else if Contains(lines[0], marker) then
      var words := Fields(lines[0]);
      if |words| <= k then Err(IndexError)
      else
        match FieldOfMatching(lines[1..], marker, k)
        case Ok(rest) => Ok([words[k]] + rest)
        case Err(e) => Err(e)
    else FieldOfMatching(lines[1..], marker, k)
  }

  /** The scan succeeds exactly when every matching line has a `k`-th field, and then yields those fields in order. */
  lemma {:induction false} FieldOfMatchingSpec(lines: seq<string>, marker: string, k: nat)
    ensures FieldOfMatching(lines, marker, k).Ok? <==> forall l :: l in Matching(lines, marker) ==> |Fields(l)| > k
    ensures FieldOfMatching(lines, marker, k).Ok? ==>
      var r, m := FieldOfMatching(lines, marker, k).value, Matching(lines, marker);
      |r| == |m| && forall j :: 0 <= j < |m| ==> r[j] == Fields(m[j])[k]
  {
    if |lines| > 0 {
      FieldOfMatchingSpec(lines[1..], marker, k);
      if Contains(lines[0], marker) {
        ScannedMatch(lines, marker, k);
      } else {
        assert Matching(lines, marker) == Matching(lines[1..], marker);
      }
    }
  }

  /** What `FieldOfMatchingSpec` states, for one input. */
  predicate Scanned(lines: seq<string>, marker: string, k: nat) {
    && (FieldOfMatching(lines, marker, k).Ok? <==> forall l :: l in Matching(lines, marker) ==> |Fields(l)| > k)
    && (FieldOfMatching(lines, marker, k).Ok? ==>
          var r, m := FieldOfMatching(lines, marker, k).value, Matching(lines, marker);
          |r| == |m| && forall j :: 0 <= j < |m| ==> r[j] == Fields(m[j])[k])
  }

  /** The inductive step of `FieldOfMatchingSpec` at a line that contains the marker. */
  lemma ScannedMatch(lines: seq<string>, marker: string, k: nat)
    requires |lines| > 0 && Contains(lines[0], marker) && Scanned(lines[1..], marker, k)
    ensures Scanned(lines, marker, k)
  {
    var m, m' := Matching(lines, marker), Matching(lines[1..], marker);
    var rest := FieldOfMatching(lines[1..], marker, k);
    assert m == [lines[0]] + m';
    assert forall l :: l in m <==> l == lines[0] || l in m';
    var words := Fields(lines[0]);
    if |words| <= k {
      assert FieldOfMatching(lines, marker, k).Err?;
      assert lines[0] in m;
    } else if rest.Err? {
      assert FieldOfMatching(lines, marker, k).Err?;
    } else {
      var r := [words[k]] + rest.value;
      assert FieldOfMatching(lines, marker, k) == Ok(r);
      forall j | 0 <= j < |m| ensures |Fields(m[j])| > k && r[j] == Fields(m[j])[k] {
        if j > 0 { assert r[j] == rest.value[j - 1] && m[j] == m'[j - 1]; }
      }
    }
  }

  /** `s.lstrip('_')` for each symbol. */
  function StripUnderscores(syms: seq<string>): (r: seq<string>)
    ensures |r| == |syms| && forall j :: 0 <= j < |syms| ==> r[j] == LStripChar(syms[j], '_')
  {
    seq(|syms|, j requires 0 <= j < |syms| => LStripChar(syms[j], '_'))
  }

  /** On Linux: the seventh field of each `objdump -T` line that mentions `.text`. */
  function LinuxSymbols(out: string): Result<seq<string>, ScanError> {
    FieldOfMatching(Lines(out), ".text", 6)
  }

  /** On macOS: the second field of each `dyld_info -exports` line containing ` 0x`, without leading `_`. */
  function DarwinSymbols(out: string): Result<seq<string>, ScanError> {
    match FieldOfMatching(Lines(out), " 0x", 1)
    case Ok(syms) => Ok(StripUnderscores(syms))
    case Err(e) => Err(e)
  }

  // ---------------------------------------------------------------------------
  // Windows: the export name table of `objdump -p`
  // ---------------------------------------------------------------------------

  /** The line that introduces the export name table. */
  const ExportTableHeader := "Ordinal/Name Pointer"

  /** `syms + rest` when the rest of the scan returned a list; otherwise the rest's outcome. */
  function Prepend(syms: seq<string>, r: Result<Option<seq<string>>, ScanError>): Result<Option<seq<string>>, ScanError> {
    if r.Ok? && r.value.Some? then Ok(Some(syms + r.value.value)) else r
  }

  /**
   * The Windows branch of `library_symbols`, from a given `active` state: after the header
   * line, the third field of each line until the first blank one, which returns the list;
   * `None` when the output ends first.
   */
  function WindowsScan(lines: seq<string>, active: bool): Result<Option<seq<string>>, ScanError> {
    if |lines| == 0 then Ok(None)
    else if active then
      if IsBlank(lines[0]) then Ok(Some([]))
      else if |Fields(lines[0])| < 3 then Err(IndexError)
      else Prepend([Fields(lines[0])[2]], WindowsScan(lines[1..], true))
    else WindowsScan(lines[1..], Contains(lines[0], ExportTableHeader))
  }

  lemma PrependTwice(a: seq<string>, b: seq<string>, r: Result<Option<seq<string>>, ScanError>)
    ensures Prepend(a, Prepend(b, r)) == Prepend(a + b, r)
  {
    if r.Ok? && r.value.Some? {
      assert a + (b + r.value.value) == a + b + r.value.value;
    }
  }

  lemma PrependNothing(r: Result<Option<seq<string>>, ScanError>)
    ensures Prepend([], r) == r
  {
    if r.Ok? && r.value.Some? {
      assert [] + r.value.value == r.value.value;
    }
  }

  /** The loop of the Windows branch, with its `active` flag. */
  method ScanWindowsExports(lines: seq<string>) returns (r: Result<Option<seq<string>>, ScanError>)
    ensures r == WindowsScan(lines, false)
  {
    var active := false;
    var syms: seq<string> := [];
    var i := 0;
    assert lines[0..] == lines;
    PrependNothing(WindowsScan(lines, false));
    while i < |lines|
      invariant 0 <= i <= |lines|
      invariant !active ==> syms == []
      invariant WindowsScan(lines, false) == Prepend(syms, WindowsScan(lines[i..], active))
    {
      var line := lines[i];
      assert lines[i..][0] == line && lines[i..][1..] == lines[i + 1..];
      if active {
        if IsBlank(line) {
          assert syms + [] == syms;
          return Ok(Some(syms));
        }
        var words := Fields(line);
        if |words| < 3 {
          return Err(IndexError);
        }
        PrependTwice(syms, [words[2]], WindowsScan(lines[i + 1..], true));
        syms := syms + [words[2]];
      } else if Contains(line, ExportTableHeader) {
        active := true;
      }
      i := i + 1;
    }
    return Ok(None);
  }

  /** Without a header line, nothing is collected and the result is `None`. */
  lemma {:induction false} WindowsScanNoHeader(lines: seq<string>)
    requires forall j :: 0 <= j < |lines| ==> !Contains(lines[j], ExportTableHeader)
    ensures WindowsScan(lines, false) == Ok(None)
  {
    if |lines| > 0 {
      WindowsScanNoHeader(lines[1..]);
    }
  }

  /** The third fields of `lines[lo..hi]`, each of which has one. */
  function ThirdFields(lines: seq<string>, lo: nat, hi: nat): (r: seq<string>)
    requires lo <= hi <= |lines|
    requires forall j :: lo <= j < hi ==> |Fields(lines[j])| >= 3
    ensures |r| == hi - lo
    ensures forall j :: 0 <= j < |r| ==> r[j] == Fields(lines[lo + j])[2]
    decreases hi - lo
  {
    if lo == hi then [] else [Fields(lines[lo])[2]] + ThirdFields(lines, lo + 1, hi)
  }

  /** While active from line `s`, the scan collects the third field of each line up to the first blank line `t`. */
  lemma {:induction false} WindowsScanActive(lines: seq<string>, s: nat, t: nat)
    requires s <= t < |lines| && IsBlank(lines[t])
    requires forall j :: s <= j < t ==> !IsBlank(lines[j]) && |Fields(lines[j])| >= 3
    ensures WindowsScan(lines[s..], true) == Ok(Some(ThirdFields(lines, s, t)))
    decreases t - s
  {
    assert lines[s..][0] == lines[s] && lines[s..][1..] == lines[s + 1..];
    if s < t {
      WindowsScanActive(lines, s + 1, t);
    }
  }

  /** Before the first header, from line `s` on, the scan is inactive and reaches the table at `h`. */
  lemma {:induction false} WindowsScanSeeks(lines: seq<string>, s: nat, h: nat, t: nat)
    requires s <= h < t < |lines|
    requires Contains(lines[h], ExportTableHeader)
    requires forall j :: s <= j < h ==> !Contains(lines[j], ExportTableHeader)
    requires IsBlank(lines[t])
    requires forall j :: h < j < t ==> !IsBlank(lines[j]) && |Fields(lines[j])| >= 3
    ensures WindowsScan(lines[s..], false) == Ok(Some(ThirdFields(lines, h + 1, t)))
    decreases h - s
  {
    assert lines[s..][0] == lines[s] && lines[s..][1..] == lines[s + 1..];
    if s < h {
      WindowsScanSeeks(lines, s + 1, h, t);
    } else {
      WindowsScanActive(lines, h + 1, t);
    }
  }

  /**
   * With the first header at `h` and the first blank line after it at `t`, the symbols are
   * the third fields of the lines strictly between them.
   */
  lemma WindowsScanFinds(lines: seq<string>, h: nat, t: nat)
    requires h < t < |lines|
    requires Contains(lines[h], ExportTableHeader)
    requires forall j :: 0 <= j < h ==> !Contains(lines[j], ExportTableHeader)
    requires IsBlank(lines[t])
    requires forall j :: h < j < t ==> !IsBlank(lines[j]) && |Fields(lines[j])| >= 3
    ensures WindowsScan(lines, false) == Ok(Some(ThirdFields(lines, h + 1, t)))
  {
    WindowsScanSeeks(lines, 0, h, t);
    assert lines[0..] == lines;
  }

  /** While active from line `s`, a table that never reaches a blank line gives `None`. */
  lemma {:induction false} WindowsScanActiveOpen(lines: seq<string>, s: nat)
    requires s <= |lines|
    requires forall j :: s <= j < |lines| ==> !IsBlank(lines[j]) && |Fields(lines[j])| >= 3
    ensures WindowsScan(lines[s..], true) == Ok(None)
    decreases |lines| - s
  {
    if s < |lines| {
      assert lines[s..][0] == lines[s] && lines[s..][1..] == lines[s + 1..];
      WindowsScanActiveOpen(lines, s + 1);
    }
  }

  /** Before the first header, from line `s` on, the scan reaches a table at `h` that never ends. */
  lemma {:induction false} WindowsScanSeeksOpen(lines: seq<string>, s: nat, h: nat)
    requires s <= h < |lines|
    requires Contains(lines[h], ExportTableHeader)
    requires forall j :: s <= j < h ==> !Contains(lines[j], ExportTableHeader)
    requires forall j :: h < j < |lines| ==> !IsBlank(lines[j]) && |Fields(lines[j])| >= 3
    ensures WindowsScan(lines[s..], false) == Ok(None)
    decreases h - s
  {
    assert lines[s..][0] == lines[s] && lines[s..][1..] == lines[s + 1..];
    if s < h {
      WindowsScanSeeksOpen(lines, s + 1, h);
    } else {
      WindowsScanActiveOpen(lines, h + 1);
    }
  }

  /**
   * With the first header at `h` and no blank line after it (every later line has a third
   * field), the function falls off the end of its loop: the result is `None`.
   */
  lemma WindowsScanUnterminated(lines: seq<string>, h: nat)
    requires h < |lines|
    requires Contains(lines[h], ExportTableHeader)
    requires forall j :: 0 <= j < h ==> !Contains(lines[j], ExportTableHeader)
    requires forall j :: h < j < |lines| ==> !IsBlank(lines[j]) && |Fields(lines[j])| >= 3
    ensures WindowsScan(lines, false) == Ok(None)
  {
    WindowsScanSeeksOpen(lines, 0, h);
    assert lines[0..] == lines;
  }

  // ---------------------------------------------------------------------------
  // The export check
  // ---------------------------------------------------------------------------

  /**
   * `library_symbols`: the exported symbols by host, from the tool output `out`; `None` when
   * the Windows table never ends or the host is none of the three.
   */
  function LibrarySymbols(host: string, out: string): Result<Option<seq<string>>, ScanError> {
    if host == "linux" then
      match LinuxSymbols(out)
      case Ok(syms) => Ok(Some(syms))
      case Err(e) => Err(e)
    else if host == "darwin" then
      match DarwinSymbols(out)
      case Ok(syms) => Ok(Some(syms))
      case Err(e) => Err(e)
    else if host == "windows" then WindowsScan(Lines(out), false)
    else Ok(None)
  }

  /** `re.search('\\.(dll|dylib|so[.0-9]*)$', file)`: the file is a shared library. */
  predicate ExportsChecked(file: string) {
    EndsWith(file, ".dll") || EndsWith(file, ".dylib") || SoTail(file)
  }

  /** Exports that are allowed: the library's API and the JNI entry point. */
  predicate Allowed(sym: string) {
    StartsWith(sym, "openslide_") || sym == "JNI_OnLoad"
  }

  /** The symbols that are not allowed, in order. */
  function Disallowed(syms: seq<string>): (r: seq<string>)
    ensures forall s :: s in r <==> s in syms && !Allowed(s)
    ensures |r| == 0 <==> forall s :: s in syms ==> Allowed(s)
  {
    if |syms| == 0 then []
    else
      var rest := Disallowed(syms[1..]);
      assert syms == [syms[0]] + syms[1..];
      if Allowed(syms[0]) then rest else [syms[0]] + rest
  }

  datatype ExportError =
    | SymbolScanFailed                       // the symbol scan raised `IndexError`
    | NoExportedSymbols                      // "Couldn't find exported symbols"
    | UnexpectedExports(syms: seq<string>)   // "Unexpected exports"

  /** Lines 98-108: the export check of a shared library against its tool output. */
  function ExportCheck(host: string, file: string, out: string): Result<(), ExportError> {
    if !ExportsChecked(file) then Ok(())
    else
      match LibrarySymbols(host, out)
      case Err(_) => Err(SymbolScanFailed)
      case Ok(None) => Err(NoExportedSymbols)
      case Ok(Some(syms)) =>
        if |syms| == 0 then Err(NoExportedSymbols)
        else if |Disallowed(syms)| > 0 then Err(UnexpectedExports(Disallowed(syms)))
        else Ok(())
  }

  /**
   * Only shared libraries are checked; one passes exactly when its symbol list exists, is
   * non-empty and holds only allowed names; otherwise the error names every other symbol.
   */
  lemma ExportCheckSpec(host: string, file: string, out: string)
    ensures !ExportsChecked(file) ==> ExportCheck(host, file, out).Ok?
    ensures ExportsChecked(file) ==>
      (ExportCheck(host, file, out).Ok? <==>
        LibrarySymbols(host, out).Ok? && LibrarySymbols(host, out).value.Some?
        && |LibrarySymbols(host, out).value.value| > 0
        && forall s :: s in LibrarySymbols(host, out).value.value ==> Allowed(s))
    ensures ExportCheck(host, file, out) == Err(SymbolScanFailed) <==>
      ExportsChecked(file) && LibrarySymbols(host, out).Err?
    ensures ExportCheck(host, file, out) == Err(NoExportedSymbols) <==>
      ExportsChecked(file) && LibrarySymbols(host, out).Ok? &&
      (LibrarySymbols(host, out).value.None? || LibrarySymbols(host, out).value.value == [])
    ensures (ExportCheck(host, file, out).Err? && ExportCheck(host, file, out).error.UnexpectedExports?) <==>
      ExportsChecked(file) && LibrarySymbols(host, out).Ok? && LibrarySymbols(host, out).value.Some?
      && |LibrarySymbols(host, out).value.value| > 0
      && exists s :: s in LibrarySymbols(host, out).value.value && !Allowed(s)
    ensures ExportCheck(host, file, out).Err? && ExportCheck(host, file, out).error.UnexpectedExports? ==>
      var bad := ExportCheck(host, file, out).error.syms;
      |bad| > 0 && forall s :: s in bad <==> s in LibrarySymbols(host, out).value.value && !Allowed(s)
  {
  }

  // ---------------------------------------------------------------------------
  // rpath
  // ---------------------------------------------------------------------------

  datatype RpathError = RpathIndexError | NoRpath   // `IndexError`; "Couldn't read LC_RPATH"

  const RpathCommand := "cmd LC_RPATH"

  /**
   * The `otool -l` scan from a given `active` state: a line mentioning `cmd LC_RPATH`
   * activates it; once active, the first line whose first word is `path` gives its second word.
   */
  function RpathScan(lines: seq<string>, active: bool): Result<string, RpathError> {
    if |lines| == 0 then Err(NoRpath)
    else if Contains(lines[0], RpathCommand) then RpathScan(lines[1..], true)
    else if active then
      var words := Fields(lines[0]);
      if |words| == 0 then Err(RpathIndexError)
      else if words[0] == "path" then (if |words| < 2 then Err(RpathIndexError) else Ok(words[1]))
      else RpathScan(lines[1..], true)
    else RpathScan(lines[1..], false)
  }

  /** The `for ... else` loop over the `otool -l` lines, with its `active` flag. */
  method ScanRpath(lines: seq<string>) returns (r: Result<string, RpathError>)
    ensures r == RpathScan(lines, false)
  {
    var active := false;
    var i := 0;
    while i < |lines|
      invariant 0 <= i <= |lines|
      invariant RpathScan(lines, false) == RpathScan(lines[i..], active)
    {
      var line := lines[i];
      assert lines[i..][0] == line && lines[i..][1..] == lines[i + 1..];
      if Contains(line, RpathCommand) {
        active := true;
      } else if active {
        var words := Fields(line);
        if |words| == 0 {
          return Err(RpathIndexError);
        }
        if words[0] == "path" {
          if |words| < 2 {
            return Err(RpathIndexError);
          }
          return Ok(words[1]);
        }
      }
      i := i + 1;
    }
    return Err(NoRpath);
  }

  /** Without any `cmd LC_RPATH` line the scan fails. */
  lemma {:induction false} RpathScanNone(lines: seq<string>)
    requires forall j :: 0 <= j < |lines| ==> !Contains(lines[j], RpathCommand)
    ensures RpathScan(lines, false) == Err(NoRpath)
  {
    if |lines| > 0 {
      RpathScanNone(lines[1..]);
    }
  }

  /** A line whose first word is `path`, not itself a command line. */
  predicate IsPathLine(line: string) {
    !Contains(line, RpathCommand) && |Fields(line)| >= 1 && Fields(line)[0] == "path"
  }

  /**
   * Once active, the scan returns the second word of the first `path` line `p`, provided each
   * line before it is a command line or has a first word.
   */
  lemma {:induction false} RpathScanActive(lines: seq<string>, p: nat)
    requires p < |lines| && IsPathLine(lines[p]) && |Fields(lines[p])| >= 2
    requires forall j :: 0 <= j < p ==> !IsPathLine(lines[j]) && (Contains(lines[j], RpathCommand) || |Fields(lines[j])| >= 1)
    ensures RpathScan(lines, true) == Ok(Fields(lines[p])[1])
  {
    if p > 0 {
      RpathScanActive(lines[1..], p - 1);
    }
  }

  /**
   * After the first `cmd LC_RPATH` line `h`, the old rpath is the second word of the first
   * `path` line `p` after it.
   */
  lemma {:induction false} RpathScanFinds(lines: seq<string>, h: nat, p: nat)
    requires h < p < |lines|
    requires Contains(lines[h], RpathCommand)
    requires forall j :: 0 <= j < h ==> !Contains(lines[j], RpathCommand)
    requires IsPathLine(lines[p]) && |Fields(lines[p])| >= 2
    requires forall j :: h < j < p ==> !IsPathLine(lines[j]) && (Contains(lines[j], RpathCommand) || |Fields(lines[j])| >= 1)
    ensures RpathScan(lines, false) == Ok(Fields(lines[p])[1])
  {
    if h > 0 {
      RpathScanFinds(lines[1..], h - 1, p - 1);
    } else {
      RpathScanActive(lines[1..], p - 1);
    }
  }

  /** What the rpath step does to the output binary. */
  datatype RpathStep =
    | SetRpath(rpath: string)               // `patchelf --set-rpath`
    | ReplaceRpath(previous: string, replacement: string) // `install_name_tool -rpath previous replacement`
    | KeepRpath                              // nothing
    | RpathFailed(err: RpathError)

  /** `re.match('.so[.0-9]*$', file)` as written: any one character, `so`, then version characters to the end. */
  predicate MatchesAnchoredSo(file: string) {
    |file| >= 3 && file[0] != '\n' && file[1..3] == "so" && forall j :: 3 <= j < |file| ==> IsVersionChar(file[j])
  }

  /** The new rpath on macOS: beside a JNI library, `@loader_path`; otherwise the sibling `lib` directory. */
  function DarwinRpath(file: string): string {
    if EndsWith(file, ".jnilib") then "@loader_path" else "@loader_path/../lib"
  }

  /** The macOS branch: read the old rpath from the `otool -l` output and replace it. */
  function DarwinAction(file: string, otoolOut: string): RpathStep {
    match RpathScan(Lines(otoolOut), false)
    case Ok(previous) => ReplaceRpath(previous, DarwinRpath(file))
    case Err(e) => RpathFailed(e)
  }

  /** Lines 111-137 as written: the Linux test is the start-anchored match. */
  function RpathActionAsWritten(host: string, file: string, otoolOut: string): RpathStep {
    if host == "linux" && !MatchesAnchoredSo(file) then SetRpath("$ORIGIN/../lib")
    else if host == "darwin" && !EndsWith(file, ".dylib") then DarwinAction(file, otoolOut)
    else KeepRpath
  }

  /** As written, a versioned shared library on Linux still has its rpath rewritten. */
  lemma AsWrittenRewritesLibraries()
    ensures SoTailMatch("libopenslide.so.1")
    ensures RpathActionAsWritten("linux", "libopenslide.so.1", "") == SetRpath("$ORIGIN/../lib")
  {
    SoTailIff("libopenslide.so.1");
    assert TrimVersion("libopenslide.so.1") == "libopenslide.so";
  }

  /**
   * The rpath step with the Linux test the expression evidently means: skip shared
   * libraries (`re.search('\\.so[.0-9]*$', file)`), as the macOS branch skips `.dylib` files.
   */
  function RpathAction(host: string, file: string, otoolOut: string): RpathStep {
    if host == "linux" && !SoTail(file) then SetRpath("$ORIGIN/../lib")
    else if host == "darwin" && !EndsWith(file, ".dylib") then DarwinAction(file, otoolOut)
    else KeepRpath
  }

  /**
   * On Linux the rpath is rewritten exactly for files that are not shared libraries; on
   * macOS exactly for non-`.dylib` files, to `@loader_path` for JNI libraries and to the
   * sibling `lib` directory otherwise; other hosts are left alone.
   */
  lemma RpathActionSpec(host: string, file: string, otoolOut: string)
    ensures host == "linux" ==>
      (RpathAction(host, file, otoolOut) == SetRpath("$ORIGIN/../lib") <==> !SoTailMatch(file))
    ensures host == "linux" && SoTailMatch(file) ==> RpathAction(host, file, otoolOut) == KeepRpath
    ensures host == "darwin" && EndsWith(file, ".dylib") ==> RpathAction(host, file, otoolOut) == KeepRpath
    ensures host == "darwin" && !EndsWith(file, ".dylib") ==>
      match RpathScan(Lines(otoolOut), false)
      case Ok(previous) => RpathAction(host, file, otoolOut) == ReplaceRpath(previous, DarwinRpath(file))
      case Err(e) => RpathAction(host, file, otoolOut) == RpathFailed(e)
    ensures host != "linux" && host != "darwin" ==> RpathAction(host, file, otoolOut) == KeepRpath
  {
    SoTailIff(file);
  }
}
