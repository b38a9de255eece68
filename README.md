# openslide-bin packaging scripts, modelled in Dafny

openslide-bin builds binary distributions of OpenSlide and its bundled
dependencies. A set of Python scripts, driven by Meson, assembles them:

- `write-bdist.py` collects the built artifacts into one archive per platform.
  It places each artifact by name and adds soname symlinks. It writes a tar, or
  a zip on Windows, in sorted order with fixed metadata.
- `write-universal-bdist.py` merges several single-architecture macOS archives
  into one universal archive. It walks them in lockstep and classifies each group
  of members: emitted once, emitted per architecture (dSYM relocations), fused
  with `lipo`, or refused.
- `postprocess-binary.py` checks which symbols a shared library exports. It also
  rewrites rpaths.
- `write-project-versions.py` and `common.py` write VERSIONS.md: the enabled
  subprojects with their wrap versions, then the compiler and tool versions.
- `get-version.py` and `common/meson.py` choose the version string.
- `write-import-library.py` finds the MinGW import library beside a DLL.

The model states what these scripts compute and proves the properties they
promise.

Files and modules:

| file | module | contents |
|---|---|---|
| `wrappers.dfy` | `Wrappers` | `Option`, `Result` |
| `text.dfy` | `Text` | the Python `str` operations the scripts use: `split`, `join`, `strip`, `split()`, `lstrip(c)`, `replace(c, '')`, left-justified formatting |
| `paths.dfy` | `Paths` | archive paths as component sequences, and `PurePath` ordering |
| `patterns.dfy` | `Patterns` | the end-anchored regular expressions on file names |
| `tar.dfy` | `Tar` | tar member headers |
| `universal_bdist.dfy` | `UniversalBdist` | the universal merge engine |
| `bdist.dfy` | `Bdist` | `Archive`, the tar/zip writers, artifact placement, soname links |
| `common.dfy` | `Common` | `get_enabled`, `get_wrap_version`, the version table, `default_version` |
| `postprocess_binary.dfy` | `PostprocessBinary` | the symbol scrapers, the export check, the LC_RPATH scan, the rpath choice |
| `project_versions.dfy` | `ProjectVersions` | the `env_info` entries |
| `get_version.dfy` | `GetVersion` | the version cascade |
| `meson_common.dfy` | `MesonCommon` | `default_version` of the Meson helper module |
| `import_library.dfy` | `ImportLibrary` | the import library's name |

Parameters stand in for the outside world:

- Tool outputs are strings: `objdump`, `dyld_info`, `otool`, the preprocessor and
  `ld --version`.
- `lipo -create` is a function that may fail.
- The build's subproject list and the wrap files' `[wrap-file]` sections are
  values.
- Today's date and the creation time of an archive are values.
- Files read from disk are a function from path to contents.

The archive is the one stateful object in the scripts. It is a class whose
`paths` map and `symlinks` set its methods update. The merge loop and the scan
loops are methods with loop invariants. Each is proved equal to a specification
function, and the lemmas are stated about those functions.

## Model

| member | source | states |
|---|---|---|
| UniversalBdist.AddFileFrom | artifacts/write-universal-bdist.py:43-54 | The member is renamed to the output base followed by its original path minus the first component. Extended headers are cleared. The size becomes the new payload's length when a payload is given. Every other header field is kept. |
| UniversalBdist.RenameIdempotent | artifacts/write-universal-bdist.py:43-48 | Renaming an already renamed member under the same one-component base changes nothing, and its relative path is preserved. |
| UniversalBdist.JarSuffix | artifacts/write-universal-bdist.py:113 | `PurePath.suffix == '.jar'` holds exactly when the name ends in `.jar` with at least one character before it. |
| UniversalBdist.Resolve | artifacts/write-universal-bdist.py:85-122 | Every member written for a group lies under the output base, has no extended headers, and carries one of the group's relative paths. |
| UniversalBdist.ResolveOkIff | artifacts/write-universal-bdist.py:85-122 | A group merges exactly when one of two cases holds. Equal paths: all directories; or all symlinks with one target; or all regular files, whose fusion succeeds for a Mach-O image and whose contents are all equal unless the file is a `.jar`. Differing paths: every path names a dSYM architecture, and the members are all directories or all regular files. |
| UniversalBdist.AlignedEmitsOnce | artifacts/write-universal-bdist.py:103-120 | A merged group with equal paths yields exactly one member. It is the first input's header (mode, mtime, owner and link target included), renamed, of the common kind. Its payload is the fused image for Mach-O and otherwise the first input's bytes, which all inputs share except for a `.jar`. |
| UniversalBdist.RelocatedEmitsEach | artifacts/write-universal-bdist.py:86-102 | A merged dSYM relocation re-emits every input in input order. Each keeps its own relative path and its own bytes. All paths name an architecture. |
| UniversalBdist.ResolveErrors | artifacts/write-universal-bdist.py:86-122 | Each error occurs exactly under its condition: "Path mismatch", "Unknown/mismatched types for relocations", failed fusion, "Contents mismatch" and "Unknown/mismatched types". Symlinks with differing targets give the last. |
| UniversalBdist.IdenticalGroupMerges | artifacts/write-universal-bdist.py:103-120 | N identical non-Mach-O members merge into that member, renamed, once. |
| UniversalBdist.Step | artifacts/write-universal-bdist.py:63 | Each input yields its i-th member at step i, or `None` once it has ended. |
| UniversalBdist.AnyMemberBelowMax | artifacts/write-universal-bdist.py:61-66 | A step at which some input still yields lies before the end of the longest input, so the walk terminates. |
| UniversalBdist.MergeFromStep | artifacts/write-universal-bdist.py:61-66 | The walk stops cleanly when no input yields. It fails when only some inputs yield. Otherwise it writes the group's members before the rest, and stops at the first group error. |
| UniversalBdist.MergeInto | artifacts/write-universal-bdist.py:151-155 | The merge loop writes exactly the members of the specification `Merge`, in order, and ends with its error. |
| UniversalBdist.MergeNeedsEqualLengths | artifacts/write-universal-bdist.py:61-66 | A merge that completes had inputs that end together. |
| UniversalBdist.MergeCopies | artifacts/write-universal-bdist.py:61-66 | Merging N copies of one archive that has no Mach-O images reproduces the archive, renamed, with each member written once and no error. |
| Bdist.TarFile | artifacts/write-bdist.py:58-66 | A copied file keeps its bytes and size. Its mode drops group/other write and adds 0o644, and the other mode bits are kept. It is owned by root, uid and gid 0. |
| Bdist.TarEntriesOwnedByRoot | artifacts/write-bdist.py:58-85 | Every tar member is owned by root. A directory is written for exactly the `None` entries, with mode 0o755 and the archive's time. A symlink is written for exactly the marked entries, with mode 0o777 and its target. A file gets 0o644 without group/other write. |
| Bdist.ZipRefusesSymlinks | artifacts/write-bdist.py:38-45 | The zip writer refuses exactly the symlinks and writes every other entry as a zip member. |
| Bdist.FilledLookup | artifacts/write-bdist.py:98-106 | After the walk of `add_file`, the new path maps to its source, the ancestors it visited map to directories, and every other path keeps its old entry. |
| Bdist.FilledStep | artifacts/write-bdist.py:101-106 | One iteration of the walk up extends the registered directories by one ancestor. |
| Bdist.WalkBlocked | artifacts/write-bdist.py:105 | A file or symlink among the ancestors makes `add_file` fail. |
| Bdist.AddedWellFormed | artifacts/write-bdist.py:98-106 | A successful `add_file` keeps the invariant. The base is a directory, every path lies under the base, every ancestor of a path is a registered directory, and every symlink is registered with a target. |
| Bdist.FilesAreLeaves | artifacts/write-bdist.py:105 | Under the invariant, nothing is registered beneath a file or symlink. |
| Bdist.AddedCommutes | artifacts/write-bdist.py:98-106 | Two successful `add_file` calls give the same map in either order. |
| Bdist.SortedPaths | artifacts/write-bdist.py:118 | `sorted()` of the paths lists each path exactly once, in increasing order. |
| Bdist.SortedPrefix | artifacts/write-bdist.py:118 | In a sorted listing, the paths up to entry j are exactly those not above entry j. |
| Bdist.Archive.constructor | artifacts/write-bdist.py:92-95 | A new archive holds only its base, as a directory, and no symlinks. |
| Bdist.Archive.AddFile | artifacts/write-bdist.py:98-106 | The call succeeds exactly when the path is new and no ancestor below the base is a file. On success the invariant holds and the map gains the path and its missing ancestors. On failure a duplicate leaves the map unchanged. |
| Bdist.Archive.AddSymlink | artifacts/write-bdist.py:108-110 | The call succeeds exactly as `add_file` does. On success the path is also marked as a symlink. |
| Bdist.Archive.Save | artifacts/write-bdist.py:112-126 | The listing is sorted, and each written entry is what the writer makes of its path. Without a failure every path is written. The zip writer fails exactly when a symlink exists, at the least symlink, after everything sorted before it. |
| Bdist.ArtifactDir | artifacts/write-bdist.py:149-163 | Every artifact goes to `lib`, `include/openslide`, `bin` or the base. |
| Bdist.ArtifactDirRules | artifacts/write-bdist.py:149-163 | The placement rules apply in priority order. `.so` (with any version tail), `.dylib`, `.jnilib` and `.lib` libraries and their debug files go to `lib`. Headers go to `include/openslide`. Jars go to `bin` on Windows and `lib` elsewhere. Exactly README.md, VERSIONS.md and licenses go to the base. DLLs, executables and anything else unmatched go to `bin`. |
| Bdist.SonameLinks | artifacts/write-bdist.py:177-183 | There are at most two links, each shorter than the file's name. |
| Bdist.SoLinks | artifacts/write-bdist.py:177-180 | `S.so.A.B.C` gets the links `S.so.A` and `S.so`. |
| Bdist.DylibLink | artifacts/write-bdist.py:181-183 | `S.N.dylib` gets the link `S.dylib`. |
| Bdist.SonameLinksOnly | artifacts/write-bdist.py:177-183 | Conversely, a name gets links only if it has the form `S.so.A.B.C` or `S.N.dylib` (A, B, C and N digit strings). Every other name, such as `libX.so.1`, `libX.so.1.2.3.4`, `libX.dylib` or a DLL, gets none. |
| Bdist.AddBuiltFile | artifacts/write-bdist.py:146-183 | On success the artifact is registered as a file under its directory, and each soname link is a symlink beside it that points at the artifact's name. The symlink set grows by exactly those links. No entry is removed, and every file or symlink registered before the call keeps its value and its kind. Apart from the artifact and its links, no new file entry appears, and no directory other than the artifact's missing ancestors. |
| Bdist.AddLinks | artifacts/write-bdist.py:177-183 | On success each link is a symlink in the directory that points at the given name. The symlink set grows by exactly those links. Earlier entries are kept unchanged. No other new file entry appears, and the only new directories are ancestors of the link directory. |
| Paths.PathLessTotal | artifacts/write-bdist.py:118 | Path order, lexicographic over components compared by code point, is total. |
| Paths.PathLessTransitive | artifacts/write-bdist.py:118 | Path order is transitive. |
| Paths.PrefixSortsFirst | artifacts/write-bdist.py:118 | A directory sorts before everything beneath it. |
| Paths.LeastExists | artifacts/write-bdist.py:118 | Every non-empty set of paths has a least element. |
| Patterns.SoTailIff | artifacts/write-bdist.py:150 | The computed test is equivalent to the expression's meaning: some suffix of the name is `.so` followed by `[.0-9]*`. |
| Patterns.StripGroup | artifacts/write-bdist.py:177-183 | Appending one `.digits` group adds exactly one group to strip. |
| Common.ProjectTableFacts | artifacts/common.py:73-128 | The table has 18 projects. Only OpenSlide and OpenSlide Java, its first two entries, are marked `**`. |
| Common.ProjectIdsUnique | artifacts/common.py:73-128 | No two projects of the table share an id. |
| Common.KeepEnabled | artifacts/common.py:40 | The result holds exactly the enabled projects of the table, in table order. |
| Common.GetEnabled | artifacts/common.py:36-44 | The call succeeds exactly when every enabled subproject is known or ignored. On success it gives the enabled projects in table order. The error names exactly the unknown subprojects, and at least one. |
| Common.FirstVersion | artifacts/common.py:66-68 | The result is the version of the first subproject with that name, or `None` exactly when there is none. |
| Common.WrapVersionRules | artifacts/common.py:54-69 | A non-empty `wrapdb_version` wins. Without one, the call fails exactly when `directory` is missing. Without a wrap file, the version is the subproject's own version, and the call fails exactly when there is no such subproject. |
| Common.WrapVersionFromDirectory | artifacts/common.py:59-61 | A directory named `name-version` yields the text after its last `-`. |
| Common.RowLayout | artifacts/common.py:152-155 | A row is a bar and a space, the marked name padded with spaces to at least 20, a space, a bar and a space, the marked version padded to at least 53, then a space and a bar. Nothing is truncated. |
| Common.EnvRows | artifacts/common.py:161-162 | There is one row per environment entry, marked `_`, in order. |
| Common.ProjectRowsUpTo | artifacts/common.py:159-160 | The rows before the first project without a version are those projects' rows. That project's error stops the table. |
| Common.TableComplete | artifacts/common.py:151-162 | A complete table is the header, the separator, one row per enabled project in order, then one row per environment entry. |
| Common.WriteProjectVersions | artifacts/common.py:151-162 | The printed lines and the failure are those of the specification `VersionsTable`. |
| Common.DigitsRoundTrip | artifacts/common.py:148 | A zero-padded decimal field is made of digits only and reads back as its number. |
| Common.DefaultVersionFormat | artifacts/common.py:147-148 | The default version is `YYYYMMDD-local`. It has 14 characters, its first 8 are digits, and the digits give back today's year, month and day. |
| PostprocessBinary.Matching | artifacts/postprocess-binary.py:35-37 | The matching lines are exactly the lines that contain the marker. |
| PostprocessBinary.FieldOfMatchingSpec | artifacts/postprocess-binary.py:35-44 | A field scrape succeeds exactly when every matching line has the field. It then yields those fields, one per matching line, in order. |
| PostprocessBinary.StripUnderscores | artifacts/postprocess-binary.py:43 | Each macOS symbol loses its leading underscores. |
| PostprocessBinary.ScanWindowsExports | artifacts/postprocess-binary.py:49-58 | The loop with its `active` flag computes the specification `WindowsScan`. |
| PostprocessBinary.WindowsScanNoHeader | artifacts/postprocess-binary.py:49-58 | Without the export table header there are no symbols (`None`). |
| PostprocessBinary.WindowsScanFinds | artifacts/postprocess-binary.py:49-58 | The symbols are the third fields of the lines between the first header and the next blank line. |
| PostprocessBinary.WindowsScanUnterminated | artifacts/postprocess-binary.py:49-58 | A header followed by no blank line (every later line has a third field) gives no symbol list (`None`): the loop ends without returning. |
| PostprocessBinary.Disallowed | artifacts/postprocess-binary.py:104-106 | The disallowed symbols are exactly the exports that neither start with `openslide_` nor equal `JNI_OnLoad`. |
| PostprocessBinary.ExportCheckSpec | artifacts/postprocess-binary.py:98-108 | Only shared libraries are checked. A library passes exactly when its symbol list exists, is non-empty and holds only allowed names. Each error occurs exactly under its condition: a failed scan, a missing or empty list ("Couldn't find exported symbols"), or some disallowed name, in which case the error lists exactly the disallowed exports. |
| PostprocessBinary.ScanRpath | artifacts/postprocess-binary.py:119-129 | The `for`/`else` loop with its `active` flag computes the specification `RpathScan`. |
| PostprocessBinary.RpathScanNone | artifacts/postprocess-binary.py:119-129 | Without a `cmd LC_RPATH` line the scan fails with "Couldn't read LC_RPATH". |
| PostprocessBinary.RpathScanFinds | artifacts/postprocess-binary.py:119-129 | The old rpath is the second word of the first `path` line after the first `cmd LC_RPATH` line. |
| PostprocessBinary.AsWrittenRewritesLibraries | artifacts/postprocess-binary.py:111-113 | As written, `libopenslide.so.1` is a shared library and still has its rpath set on Linux. |
| PostprocessBinary.RpathActionSpec | artifacts/postprocess-binary.py:110-137 | On Linux the rpath becomes `$ORIGIN/../lib` exactly for files that are not shared libraries. On macOS, non-`.dylib` files get their old rpath replaced, by `@loader_path` for a `.jnilib` and by `@loader_path/../lib` otherwise, and a failed scan is an error. Other hosts are untouched. |
| ProjectVersions.FirstLine | artifacts/write-project-versions.py:59 | The first line holds no newline, starts the text, and ends at a newline or at the end of the text. |
| ProjectVersions.FirstLineIsFirstPiece | artifacts/write-project-versions.py:57-59 | The first line is the first piece of `split('\n')`. |
| ProjectVersions.FirstVersionLine | artifacts/write-project-versions.py:51-54 | The result is the first line that is neither blank nor a `#` line, or `None` exactly when there is none. |
| ProjectVersions.MingwVersion | artifacts/write-project-versions.py:51-54 | The version is absent exactly when no line is a version line. Otherwise it is the first version line with every `"` removed. |
| Text.RemoveCharConcat | artifacts/write-project-versions.py:54 | `replace('"', '')` works piece by piece: removing from a concatenation concatenates the removals. |
| Text.RemoveCharOne | artifacts/write-project-versions.py:54 | On one character, removal drops it exactly when it is the removed character. |
| ProjectVersions.GccVersionSpec | artifacts/write-project-versions.py:56 | `[^ ]+ (.+)` matches at the start exactly when the extraction succeeds, and its group is the result. |
| ProjectVersions.AfterLastVersionSpec | artifacts/write-project-versions.py:61 | On each line, everything through the last ` version ` is removed. A line without it is kept. |
| ProjectVersions.ClangVersionOneLine | artifacts/write-project-versions.py:61 | A one-line version string keeps only what follows its last ` version `. |
| ProjectVersions.CollectEnvInfo | artifacts/write-project-versions.py:44-61 | The successive assignments compute the specification `EnvInfo`. |
| ProjectVersions.EnvInfoSpec | artifacts/write-project-versions.py:44-61 | `MinGW-w64` comes first, and only on Windows. Then come `GCC` and `Binutils` for gcc, or `Clang` for clang, or nothing else. Each value is its extracted version. |
| ProjectVersions.EnvInfoErrors | artifacts/write-project-versions.py:44-61 | The MinGW error occurs exactly on Windows when no output line defines the version. The GCC error occurs exactly when that check passed, the compiler is gcc and the version string does not start with a space-free word, a space and a non-empty rest of its first line (`[^ ]+ (.+)`). |
| GetVersion.PinnedVersionSpec | artifacts/get-version.py:29-33 | The pinned version begins with the stripped file content. `-local` is appended exactly when that content has no `-`. The result always holds a `-` and is already stripped. |
| GetVersion.PinnedVersionIdempotent | artifacts/get-version.py:29-33 | Applying the pinned rule to its own result changes nothing. |
| GetVersion.GetVersionCascade | artifacts/get-version.py:26-39 | An empty environment value gives the same version as none. A non-empty one gives itself, whatever the pinned file and the date. With a pinned file the date does not matter. Without either, the version equals the date default of `common/meson.py`. |
| GetVersion.PinnedVersusMeson | artifacts/get-version.py:29-33 | This pinned rule agrees with the `-local` rule of `common/meson.py` exactly when the stripped content holds no `-` or already holds `-local`. |
| GetVersion.GetVersionNonEmpty | artifacts/get-version.py:26-39 | The version is never empty. Without an environment value it always holds a `-`. |
| GetVersion.BlankPinnedFile | artifacts/get-version.py:30-33 | An empty or blank pinned file yields `-local`. |
| MesonCommon.LocalVersionSpec | common/meson.py:59-63 | The stripped content is kept as a prefix. `-local` is appended exactly when it does not already occur. The result holds `-local` and is already stripped. |
| MesonCommon.LocalVersionIdempotent | common/meson.py:61-62 | The suffix rule is idempotent. |
| MesonCommon.DefaultVersionSpec | common/meson.py:56-65 | The default always holds `-local`. A missing pinned file yields `YYYYMMDD-local` for today. |
| ImportLibrary.RFind | artifacts/write-import-library.py:42 | The result is the index of the last occurrence of the character, or -1. |
| ImportLibrary.Stem | artifacts/write-import-library.py:42 | The stem is a prefix of the name. |
| ImportLibrary.StemOf | artifacts/write-import-library.py:42 | The stem of `b.ext` is `b` when `b` is non-empty and `ext` is a non-empty extension without a dot. |
| ImportLibrary.BasenameWithoutDash | artifacts/write-import-library.py:42 | A stem without `-` gives an empty base name. |
| ImportLibrary.BasenameWithDash | artifacts/write-import-library.py:42 | With a `-`, the stem is the base name, a `-`, and a last component without `-`. |
| ImportLibrary.BasenameOf | artifacts/write-import-library.py:42 | Removing the last component undoes appending it: `Basename(b + "-" + v) == b`. |
| ImportLibrary.ImportLibrarySibling | artifacts/write-import-library.py:41-43 | The import library sits in the DLL's directory and is named after the base name plus `.dll.a`. It is missing only where `with_name` refuses a path with an empty name. |

## Left out

- External tools are not run: `lipo`, `objdump`, `dyld_info`, `otool`,
  `install_name_tool`, `patchelf`, `strip`, `objcopy`, `dsymutil`, the compiler,
  `ld` and `MESONINTROSPECT`. Their outputs are parameters, and `lipo` is a
  function that may fail.
- The debug-symbol steps of `postprocess-binary.py` are only external commands
  and are not modelled: splitting debug info, `dsymutil`, and stripping.
- Reading and writing archives, compression, zip deflate settings and file I/O
  are not modelled. Archive members are values, and source files are a function
  from path to contents. `get_archive_base_path` is taken as the given base
  path.
- The `os.walk` branch of `write-bdist.py` (lines 165-174) is not modelled:
  directory artifacts are copied recursively from the disk. The final README
  copy (lines 186-187) is a plain `Archive.AddFile`.
- The verbose printing of `save` is not modelled. The `listing` result is the
  sequence it would print.
- `meson_host()` is a host string or a `windows` flag. The project table is
  passed as a parameter that callers set to `Projects()`.
- Python's `$` also matches before a final newline. The patterns are modelled as
  matching at the very end only, since file names carry no newlines.
- `IsSpace` covers ASCII whitespace, the separators 0x1C-0x1F, NEL and NBSP. It
  leaves out the other Unicode space characters that `str.split()` and
  `str.strip()` also treat as whitespace.
- `strftime('%Y')` is modelled as a four-digit, zero-padded year. Years below
  1000 print differently on some C libraries.
- A missing `LD` environment variable raises an uncaught Python exception. It
  is not modelled.
- Bdist.Archive.AddFile: after a failure because an ancestor is a file, the
  contract only says the new path was written. The script ends at that failed
  assertion, so the rest of the map is never used.
- Bdist.Archive.AddFile: it requires the path to lie strictly under the base.
  Callers always build it as `base / ...`. Another path would make the walk up
  never reach the base.
- Bdist.AddBuiltFile: the failure cases only say that the call failed. They are
  the failures of `AddFile` and `AddSymlink`, which are specified there.
- UniversalBdist.Resolve: the `lipo` temporary files of `_merge_macho` are not
  modelled. Only the fused payload, or the tool's failure, is.
- PostprocessBinary.RpathActionSpec, PostprocessBinary.RpathAction: they follow the evidently intended Linux test.
  `RpathActionAsWritten` keeps the start-anchored match of the source (see
  Findings).
- ImportLibrary.Stem follows `PurePath.stem` as `rfind('.')` with a dot neither
  first nor last.

## Findings

| source | as written | input that shows it | evidently intended | confidence | as-written member | corrected member |
|---|---|---|---|---|---|---|
| artifacts/postprocess-binary.py:111 | `re.match('.so[.0-9]*$', file)`: the match is anchored at the start and the `.` is unescaped, so it matches only names such as `xso.1` | `libopenslide.so.1`: a shared library, yet the test is false and `patchelf --set-rpath '$ORIGIN/../lib'` runs on it | skip shared libraries, as the macOS branch skips `.dylib` and line 99 finds `.so` names with `re.search` and an escaped dot | medium; not executed | PostprocessBinary.RpathActionAsWritten, PostprocessBinary.AsWrittenRewritesLibraries | PostprocessBinary.RpathAction, PostprocessBinary.RpathActionSpec |
