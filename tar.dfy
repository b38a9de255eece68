/**
 * Tar members as the packaging scripts see them through Python's `tarfile`:
 * a header (`TarInfo`) and, for regular files, the bytes that follow it.
 * The container encoding itself (ustar/PAX blocks, XZ compression) is not modelled.
 */
module Tar {
  import opened Paths

  /** `TarInfo.type`: `DIRTYPE`, `REGTYPE`, `SYMTYPE`, or any other type byte. */
  datatype Kind = Dir | Reg | Sym | Other

  /**
   * `TarInfo`: the member name split into segments, its type, link target,
   * size, permission bits, ownership, modification time and PAX extended headers.
   */
  datatype Info = Info(
    name: Path,
    kind: Kind,
    linkname: string,
    size: nat,
    mode: bv32,
    uid: nat,
    gid: nat,
    uname: string,
    gname: string,
    mtime: int,
    pax: map<string, string>)

  /** One member of a tar stream: its header and its payload (empty unless regular). */
  datatype Member = Member(info: Info, data: seq<bv8>)
}
