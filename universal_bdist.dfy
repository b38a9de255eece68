/**
 * The universal (multi-architecture) bundle merge of `write-universal-bdist.py`:
 * N single-architecture tar streams are walked in lockstep; each step's group
 * of members is renamed under the output archive's root and either emitted once,
 * emitted once per input (debug-symbol relocations), emitted with a fused
 * Mach-O payload, or refused, which aborts the whole merge.
 */
module UniversalBdist {
  import opened Wrappers
  import opened Paths
  import opened Tar

  /** Architecture names that may legitimately differ between inputs' paths (dSYM bundles). */
  const DsymArches: set<string> := {"aarch64", "x86_64"}

  /** First four bytes of a 64-bit Mach-O image as stored little-endian (`MH_MAGIC_64`). */
  const MachOMagic: seq<bv8> := [0xCF, 0xFA, 0xED, 0xFE]

  /** Why a merge stops. Each is an exception in the source and aborts the whole merge. */
  datatype MergeError =
    | Exhausted                               // some inputs ended before others
    | PathMismatch(relpaths: seq<Path>)       // "Path mismatch"
    | RelocationTypes(relpaths: seq<Path>)    // "Unknown/mismatched types for relocations"
    | MismatchedTypes(relpaths: seq<Path>)    // "Unknown/mismatched types"
    | ContentsMismatch(relpaths: seq<Path>)   // "Contents mismatch"
    | FusionFailed                            // `lipo` exited non-zero

  /** A member written to the output archive: its header and the payload passed to `addfile`. */
  datatype Written = Written(info: Info, payload: Option<seq<bv8>>)

  /**
   * The external fusion tool (`lipo -create`): the fused image, or `None` when it exits
   * non-zero. It is a parameter of the merge, so nothing about it is assumed.
   */
  type Fuse = seq<seq<bv8>> -> Option<seq<bv8>>

  /** `all_equal`: every item equals the first (vacuously true when empty). */
  predicate AllEqual<T(==)>(items: seq<T>) {
    forall i :: 0 <= i < |items| ==> items[i] == items[0]
  }

  /** `all_of(infos, lambda i: i.type == k)`. */
  predicate AllKind(g: seq<Member>, k: Kind) {
    forall i :: 0 <= i < |g| ==> g[i].info.kind == k
  }

  /** A member's path relative to its archive root: the name without its first segment. */
  function RelPath(name: Path): (r: Path)
    ensures |name| > 0 ==> name == [name[0]] + r
    ensures |name| == 0 ==> r == []
  {
    if |name| == 0 then [] else name[1..]
  }

  /**
   * `addfile_from`: a copy of the header renamed to the output base followed by the
   * relative path, with PAX headers cleared and, when a payload is given, its size.
   */
  function AddFileFrom(base: Path, info: Info, data: Option<seq<bv8>>): (w: Written)
    ensures IsPrefix(base, w.info.name) && w.info.name[|base|..] == RelPath(info.name)
    ensures w.info.pax == map[]
    ensures w.info.size == if data.Some? then |data.value| else info.size
    ensures w.info == info.(name := w.info.name, pax := map[], size := w.info.size)
    ensures w.payload == data
  {
    var renamed := info.(name := base + RelPath(info.name), pax := map[]);
    Written(if data.Some? then renamed.(size := |data.value|) else renamed, data)
  }

  /** Renaming is idempotent for a one-segment base: the relative path survives the rename. */
  lemma RenameIdempotent(base: Path, info: Info, data: Option<seq<bv8>>)
    requires |base| == 1
    ensures RelPath(AddFileFrom(base, info, data).info.name) == RelPath(info.name)
    ensures AddFileFrom(base, AddFileFrom(base, info, data).info, data) == AddFileFrom(base, info, data)
  {
    var w := AddFileFrom(base, info, data);
    assert w.info.name == base + RelPath(info.name);
    assert RelPath(w.info.name) == RelPath(info.name);
  }

  /** `FileSet.relpaths`. */
  function RelPaths(g: seq<Member>): (r: seq<Path>)
    ensures |r| == |g| && forall i :: 0 <= i < |g| ==> r[i] == RelPath(g[i].info.name)
  {
    seq(|g|, i requires 0 <= i < |g| => RelPath(g[i].info.name))
  }

  /** `FileSet.datas`: every input's payload, in input order. */
  function Datas(g: seq<Member>): (r: seq<seq<bv8>>)
    ensures |r| == |g| && forall i :: 0 <= i < |g| ==> r[i] == g[i].data
  {
    seq(|g|, i requires 0 <= i < |g| => g[i].data)
  }

  function LinkNames(g: seq<Member>): (r: seq<string>)
    ensures |r| == |g| && forall i :: 0 <= i < |g| ==> r[i] == g[i].info.linkname
  {
    seq(|g|, i requires 0 <= i < |g| => g[i].info.linkname)
  }

  /** `DSYM_ARCHES.intersection(p.parts)` is non-empty. */
  predicate HasArchSegment(p: Path) {
    exists i :: 0 <= i < |p| && p[i] in DsymArches
  }

  /** `data[0:4] == b'\xcf\xfa\xed\xfe'`. */
  predicate IsMachO(data: seq<bv8>) {
    |data| >= 4 && data[..4] == MachOMagic
  }

  /** Index of the last `.` in `s`, or -1. */
  function LastDot(s: string): (i: int)
    ensures -1 <= i < |s|
    ensures i >= 0 ==> s[i] == '.'
    ensures forall j :: i < j < |s| ==> s[j] != '.'
  {
    if |s| == 0 then -1
    else if s[|s| - 1] == '.' then |s| - 1
    else LastDot(s[..|s| - 1])
  }

  /** `PurePath.suffix` of a file name. */
  function Suffix(name: string): string {
    var i := LastDot(name);
    if 0 < i < |name| - 1 then name[i..] else ""
  }

  /** `relpath.suffix == '.jar'`. */
  predicate IsJar(p: Path) {
    |p| > 0 && Suffix(p[|p| - 1]) == ".jar"
  }

  /** A name has suffix `.jar` exactly when it ends in `.jar` after at least one other character. */
  lemma JarSuffix(name: string)
    ensures Suffix(name) == ".jar" <==> |name| > 4 && name[|name| - 4..] == ".jar"
  {
    var i := LastDot(name);
    if |name| > 4 && name[|name| - 4..] == ".jar" {
      assert name[|name| - 4] == '.';
      assert i == |name| - 4;
    }
    if Suffix(name) == ".jar" {
      assert name[i..] == ".jar";
    }
  }

  /**
   * Every input of a dSYM group re-emitted under its own relative path, with its own
   * bytes when `withData`.
   */
  function Relocate(base: Path, g: seq<Member>, withData: bool): (ws: seq<Written>)
    ensures |ws| == |g|
    ensures forall k :: 0 <= k < |g| ==> ws[k] == AddFileFrom(base, g[k].info, if withData then Some(g[k].data) else None)
    ensures forall k :: 0 <= k < |g| ==> IsPrefix(base, ws[k].info.name) && ws[k].info.name[|base|..] == RelPaths(g)[k]
  {
    seq(|g|, i requires 0 <= i < |g| => AddFileFrom(base, g[i].info, if withData then Some(g[i].data) else None))
  }

  /** The first input's header alone, renamed, with payload `data`. */
  function EmitFirst(base: Path, g: seq<Member>, data: Option<seq<bv8>>): (ws: seq<Written>)
    requires |g| > 0
    ensures |ws| == 1 && ws[0] == AddFileFrom(base, g[0].info, data)
    ensures IsPrefix(base, ws[0].info.name) && ws[0].info.name[|base|..] == RelPaths(g)[0]
  {
    [AddFileFrom(base, g[0].info, data)]
  }

  /**
   * `FileSet.merge_into` for one complete group: what is written for it, or the error
   * that stops the merge. Payloads go to `fuse` in input order.
   */
  function Resolve(base: Path, g: seq<Member>, fuse: Fuse): (r: Result<seq<Written>, MergeError>)
    requires |g| > 0
    ensures r.Ok? ==> forall k :: 0 <= k < |r.value| ==>
      IsPrefix(base, r.value[k].info.name) && r.value[k].info.pax == map[]
      && r.value[k].info.name[|base|..] in RelPaths(g)
  {
    var rel := RelPaths(g);
    if !AllEqual(rel) then
      if !(forall i :: 0 <= i < |rel| ==> HasArchSegment(rel[i])) then Err(PathMismatch(rel))
      else if AllKind(g, Dir) then Ok(Relocate(base, g, false))
      else if AllKind(g, Reg) then Ok(Relocate(base, g, true))
      else Err(RelocationTypes(rel))
    else if AllKind(g, Dir) then Ok(EmitFirst(base, g, None))
    else if AllKind(g, Sym) && AllEqual(LinkNames(g)) then Ok(EmitFirst(base, g, None))
    else if AllKind(g, Reg) then
      var datas := Datas(g);
      if IsMachO(datas[0]) then
        match fuse(datas)
        case None => Err(FusionFailed)
        case Some(fused) => Ok(EmitFirst(base, g, Some(fused)))
      else if IsJar(rel[0]) then Ok(EmitFirst(base, g, Some(datas[0])))
      else if AllEqual(datas) then Ok(EmitFirst(base, g, Some(datas[0])))
      else Err(ContentsMismatch(rel))
    else Err(MismatchedTypes(rel))
  }

  /** The conditions under which `FileSet.merge_into` accepts a group, stated case by case. */
  predicate Mergeable(g: seq<Member>, fuse: Fuse)
    requires |g| > 0
  {
    var rel := RelPaths(g);
    if AllEqual(rel) then
      || AllKind(g, Dir)
      || (AllKind(g, Sym) && AllEqual(LinkNames(g)))
      || (AllKind(g, Reg)
          && (IsMachO(g[0].data) ==> fuse(Datas(g)).Some?)
          && (!IsMachO(g[0].data) && !IsJar(rel[0]) ==> AllEqual(Datas(g))))
    else
      && (forall i :: 0 <= i < |g| ==> HasArchSegment(rel[i]))
      && (AllKind(g, Dir) || AllKind(g, Reg))
  }

  /** `merge_into` succeeds on a group exactly when its paths, types and contents agree. */
  lemma ResolveOkIff(base: Path, g: seq<Member>, fuse: Fuse)
    requires |g| > 0
    ensures Resolve(base, g, fuse).Ok? <==> Mergeable(g, fuse)
  {
    var rel := RelPaths(g);
    if AllEqual(rel) && AllKind(g, Dir) && AllKind(g, Sym) {
      assert g[0].info.kind == Dir;
    }
  }

  /**
   * An aligned group that merges yields exactly one member: the first input's header,
   * renamed. Its payload is the fusion of all payloads for a Mach-O image, otherwise the
   * first input's bytes, which every input shares unless the file is a `.jar`.
   */
  lemma AlignedEmitsOnce(base: Path, g: seq<Member>, fuse: Fuse)
    requires |g| > 0 && AllEqual(RelPaths(g))
    requires Resolve(base, g, fuse).Ok?
    ensures var out := Resolve(base, g, fuse).value;
      && |out| == 1
      && out[0] == AddFileFrom(base, g[0].info, out[0].payload)
      && out[0].info.name == base + RelPaths(g)[0]
      && out[0].info.kind == g[0].info.kind
      && (forall i :: 0 <= i < |g| ==> g[i].info.kind == g[0].info.kind)
      && (g[0].info.kind == Sym ==> forall i :: 0 <= i < |g| ==> g[i].info.linkname == out[0].info.linkname)
      && (g[0].info.kind == Dir || g[0].info.kind == Sym ==> out[0].payload == None)
      && (g[0].info.kind == Reg && IsMachO(g[0].data) ==> out[0].payload == fuse(Datas(g)))
      && (g[0].info.kind == Reg && !IsMachO(g[0].data) ==> out[0].payload == Some(g[0].data))
      && (g[0].info.kind == Reg && !IsMachO(g[0].data) && !IsJar(RelPaths(g)[0]) ==>
            forall i :: 0 <= i < |g| ==> g[i].data == g[0].data)
  {
    var rel := RelPaths(g);
    assert AllEqual(rel);
    if AllKind(g, Dir) {
    } else if AllKind(g, Sym) && AllEqual(LinkNames(g)) {
    } else {
      assert AllKind(g, Reg);
      if !IsMachO(g[0].data) && !IsJar(rel[0]) {
        assert AllEqual(Datas(g));
      }
    }
  }

  /**
   * A dSYM relocation that merges re-emits every input, in input order, each with its own
   * relative path, header and (for regular files) bytes; every path names an architecture.
   */
  lemma RelocatedEmitsEach(base: Path, g: seq<Member>, fuse: Fuse)
    requires |g| > 0 && !AllEqual(RelPaths(g))
    requires Resolve(base, g, fuse).Ok?
    ensures var out := Resolve(base, g, fuse).value;
      && |out| == |g|
      && (forall i :: 0 <= i < |g| ==> HasArchSegment(RelPaths(g)[i]))
      && (AllKind(g, Dir) || AllKind(g, Reg))
      && forall i :: 0 <= i < |g| ==>
           && out[i] == AddFileFrom(base, g[i].info, if g[i].info.kind == Reg then Some(g[i].data) else None)
           && out[i].info.name == base + RelPaths(g)[i]
  {
  }

  /** Each exception of `merge_into` is raised exactly under its condition. */
  lemma ResolveErrors(base: Path, g: seq<Member>, fuse: Fuse)
    requires |g| > 0
    ensures var r := Resolve(base, g, fuse); var rel := RelPaths(g);
      && (r == Err(PathMismatch(rel)) <==> !AllEqual(rel) && exists i :: 0 <= i < |g| && !HasArchSegment(rel[i]))
      && (r == Err(FusionFailed) <==>
            AllEqual(rel) && AllKind(g, Reg) && IsMachO(g[0].data) && fuse(Datas(g)) == None)
      && (r == Err(ContentsMismatch(rel)) <==>
            AllEqual(rel) && AllKind(g, Reg) && !IsMachO(g[0].data) && !IsJar(rel[0]) && !AllEqual(Datas(g)))
      && (r == Err(RelocationTypes(rel)) <==>
            !AllEqual(rel) && (forall i :: 0 <= i < |g| ==> HasArchSegment(rel[i]))
            && !AllKind(g, Dir) && !AllKind(g, Reg))
      && (r == Err(MismatchedTypes(rel)) <==>
            AllEqual(rel) && !AllKind(g, Dir) && !(AllKind(g, Sym) && AllEqual(LinkNames(g))) && !AllKind(g, Reg))
      && (AllEqual(rel) && AllKind(g, Sym) && !AllEqual(LinkNames(g)) ==> r == Err(MismatchedTypes(rel)))
  {
    var rel := RelPaths(g);
    if AllEqual(rel) && AllKind(g, Sym) {
      assert g[0].info.kind == Sym;
      assert !AllKind(g, Dir) && !AllKind(g, Reg);
    }
  }

  /** Groups of identical members (same archive fed N times) always merge, except for Mach-O images. */
  lemma IdenticalGroupMerges(base: Path, m: Member, n: nat, fuse: Fuse)
    requires n > 0 && m.info.kind != Other
    requires m.info.kind == Reg ==> !IsMachO(m.data)
    ensures var g := seq(n, _ => m);
      Resolve(base, g, fuse) == Ok([AddFileFrom(base, m.info, if m.info.kind == Reg then Some(m.data) else None)])
  {
    var g := seq(n, _ => m);
    assert AllEqual(RelPaths(g));
    assert AllEqual(LinkNames(g));
    assert AllEqual(Datas(g));
  }

  // ---------------------------------------------------------------------------
  // The lockstep walk (`Tars.__iter__` driving `merge_into`)
  // ---------------------------------------------------------------------------

  /** Length of the longest input. */
  function MaxLen(inputs: seq<seq<Member>>): (n: nat)
    ensures forall k :: 0 <= k < |inputs| ==> |inputs[k]| <= n
    ensures |inputs| > 0 ==> exists k :: 0 <= k < |inputs| && |inputs[k]| == n
  {
    if |inputs| == 0 then 0
    else
      var rest := MaxLen(inputs[1..]);
      assert forall k :: 1 <= k < |inputs| ==> inputs[k] == inputs[1..][k - 1];
      if |inputs[0]| >= rest then |inputs[0]| else rest
  }

  /** What `tar.next()` gives for every input at step `i`: its `i`-th member, or `None` once it has ended. */
  function Step(inputs: seq<seq<Member>>, i: nat): (infos: seq<Option<Member>>)
    ensures |infos| == |inputs|
    ensures forall k :: 0 <= k < |inputs| ==> infos[k] == if i < |inputs[k]| then Some(inputs[k][i]) else None
  {
    seq(|inputs|, k requires 0 <= k < |inputs| => if i < |inputs[k]| then Some(inputs[k][i]) else None)
  }

  /** `any(infos)`: some input yielded a member. */
  predicate AnyMember(infos: seq<Option<Member>>) {
    exists k :: 0 <= k < |infos| && infos[k].Some?
  }

  /** A step where some input still yields lies before the end of the longest input. */
  lemma AnyMemberBelowMax(inputs: seq<seq<Member>>, i: nat)
    requires AnyMember(Step(inputs, i))
    ensures i < MaxLen(inputs)
  {
    var k :| 0 <= k < |inputs| && Step(inputs, i)[k].Some?;
    assert i < |inputs[k]|;
  }

  /** `FileSet` can be built only when every input yielded a member. */
  predicate AllMembers(infos: seq<Option<Member>>) {
    forall k :: 0 <= k < |infos| ==> infos[k].Some?
  }

  function Present(infos: seq<Option<Member>>): (g: seq<Member>)
    requires AllMembers(infos)
    ensures |g| == |infos| && forall k :: 0 <= k < |infos| ==> Some(g[k]) == infos[k]
  {
    seq(|infos|, k requires 0 <= k < |infos| => infos[k].value)
  }

  /**
   * The merge from step `i` on: the members written, in order, and the error that stopped
   * it, if any. Steps continue while any input yields; a step where only some do fails.
   */
  function MergeFrom(base: Path, inputs: seq<seq<Member>>, fuse: Fuse, i: nat): (seq<Written>, Option<MergeError>)
    decreases MaxLen(inputs) - i
  {
    var infos := Step(inputs, i);
    if !AnyMember(infos) then ([], None)
    else if !AllMembers(infos) then ([], Some(Exhausted))
    else match Resolve(base, Present(infos), fuse)
      case Err(e) => ([], Some(e))
      case Ok(ws) =>
        AnyMemberBelowMax(inputs, i);
        var (rest, err) := MergeFrom(base, inputs, fuse, i + 1);
        (ws + rest, err)
  }

  /** One step of `MergeFrom`, unfolded. */
  lemma MergeFromStep(base: Path, inputs: seq<seq<Member>>, fuse: Fuse, i: nat)
    ensures var infos := Step(inputs, i); var m := MergeFrom(base, inputs, fuse, i);
      && (!AnyMember(infos) ==> m == ([], None))
      && (AnyMember(infos) && !AllMembers(infos) ==> m == ([], Some(Exhausted)))
      && (AnyMember(infos) && AllMembers(infos) ==>
            var r := Resolve(base, Present(infos), fuse);
            && (r.Err? ==> m == ([], Some(r.error)))
            && (r.Ok? ==> m == (r.value + MergeFrom(base, inputs, fuse, i + 1).0, MergeFrom(base, inputs, fuse, i + 1).1)))
  {
  }

  /** The whole merge: `for fs in Tars(args.bdist): fs.merge_into(out)`. */
  function Merge(base: Path, inputs: seq<seq<Member>>, fuse: Fuse): (seq<Written>, Option<MergeError>) {
    MergeFrom(base, inputs, fuse, 0)
  }

  /**
   * One round of the merge loop: read the next member of every input and merge that
   * group. `done` says the loop stops here (every input ended, or an error).
   */
  method MergeGroup(base: Path, inputs: seq<seq<Member>>, fuse: Fuse, i: nat) returns (ws: seq<Written>, done: bool, err: Option<MergeError>)
    ensures done ==> ws == [] && MergeFrom(base, inputs, fuse, i) == ([], err)
    ensures !done ==> i < MaxLen(inputs) && err == None
    ensures !done ==> MergeFrom(base, inputs, fuse, i) == (ws + MergeFrom(base, inputs, fuse, i + 1).0, MergeFrom(base, inputs, fuse, i + 1).1)
  {
    MergeFromStep(base, inputs, fuse, i);
    var infos := Step(inputs, i);
    if !AnyMember(infos) {
      return [], true, None;
    }
    if !AllMembers(infos) {
      return [], true, Some(Exhausted);
    }
    var r := Resolve(base, Present(infos), fuse);
    if r.Err? {
      return [], true, Some(r.error);
    }
    AnyMemberBelowMax(inputs, i);
    return r.value, false, None;
  }

  /**
   * The merge loop: read one member from every input, merge the group into the output,
   * repeat until every input has ended or a group fails. Output written before a failure
   * stays written (the output archive is incremental).
   */
  method MergeInto(base: Path, inputs: seq<seq<Member>>, fuse: Fuse) returns (out: seq<Written>, err: Option<MergeError>)
    ensures out == Merge(base, inputs, fuse).0 && err == Merge(base, inputs, fuse).1
  {
    out, err := [], None;
    var i: nat := 0;
    while true
      invariant out + MergeFrom(base, inputs, fuse, i).0 == Merge(base, inputs, fuse).0
      invariant MergeFrom(base, inputs, fuse, i).1 == Merge(base, inputs, fuse).1
      decreases MaxLen(inputs) - i
    {
      var ws, done, e := MergeGroup(base, inputs, fuse, i);
      if done {
        assert out + [] == out;
        err := e;
        return;
      }
      assert out + (ws + MergeFrom(base, inputs, fuse, i + 1).0) == (out + ws) + MergeFrom(base, inputs, fuse, i + 1).0;
      out := out + ws;
      i := i + 1;
    }
  }

  /**
   * A merge that completes saw inputs of one common length: from any step on, inputs
   * that have not ended by then end together.
   */
  lemma {:induction false} MergeNeedsEqualLengths(base: Path, inputs: seq<seq<Member>>, fuse: Fuse, i: nat)
    requires MergeFrom(base, inputs, fuse, i).1 == None
    ensures forall k, l :: 0 <= k < |inputs| && 0 <= l < |inputs| && i <= |inputs[k]| && i <= |inputs[l]| ==>
      |inputs[k]| == |inputs[l]|
    decreases MaxLen(inputs) - i
  {
    var infos := Step(inputs, i);
    MergeFromStep(base, inputs, fuse, i);
    if !AnyMember(infos) {
      forall k | 0 <= k < |inputs| ensures |inputs[k]| <= i { assert infos[k] == None; }
    } else {
      AnyMemberBelowMax(inputs, i);
      MergeNeedsEqualLengths(base, inputs, fuse, i + 1);
      forall k | 0 <= k < |inputs| ensures i < |inputs[k]| { assert infos[k].Some?; }
    }
  }

  /** The written entries of `archive` when every group is that archive's own member, N times over. */
  function Copied(base: Path, archive: seq<Member>): seq<Written> {
    if |archive| == 0 then []
    else
      var m := archive[0];
      [AddFileFrom(base, m.info, if m.info.kind == Reg then Some(m.data) else None)] + Copied(base, archive[1..])
  }

  /** Only directories, symlinks and non-Mach-O regular files. */
  predicate PlainArchive(archive: seq<Member>) {
    forall j :: 0 <= j < |archive| ==>
      archive[j].info.kind != Other && (archive[j].info.kind == Reg ==> !IsMachO(archive[j].data))
  }

  /**
   * Merging N copies of one archive without Mach-O images reproduces that archive,
   * renamed under the output base, each member exactly once.
   */
  lemma {:induction false} MergeCopies(base: Path, archive: seq<Member>, n: nat, fuse: Fuse, i: nat)
    requires n > 0 && i <= |archive| && PlainArchive(archive)
    ensures MergeFrom(base, seq(n, _ => archive), fuse, i) == (Copied(base, archive[i..]), None)
    decreases |archive| - i
  {
    var inputs := seq(n, _ => archive);
    var infos := Step(inputs, i);
    assert infos[0] == if i < |archive| then Some(archive[i]) else None;
    if i == |archive| {
      assert !AnyMember(infos);
      assert archive[i..] == [];
    } else {
      var m := archive[i];
      assert AllMembers(infos);
      assert Present(infos) == seq(n, _ => m);
      IdenticalGroupMerges(base, m, n, fuse);
      MergeCopies(base, archive, n, fuse, i + 1);
      assert archive[i..][1..] == archive[i + 1..];
    }
  }
}
