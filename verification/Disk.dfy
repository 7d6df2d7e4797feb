/** The receive directory as an operating system may keep it: for every segment a volatile and a
  * durable directory entry, and a volatile and a durable copy of the contents. */
module Disk {
  import opened Bytes

  datatype Name = NoName | PartialName | FinalName

  datatype SegId = SegId(tli: nat, seg: nat)

  /** vname and vol are what the process sees; dname and dur are what stable storage holds. */
  datatype SegFile = SegFile(vname: Name, dname: Name, vol: seq<byte>, dur: seq<byte>)

  type Files = map<SegId, SegFile>

  const ABSENT := SegFile(NoName, NoName, [], [])

  function At(files: Files, id: SegId): SegFile {
    if id in files then files[id] else ABSENT
  }

  /** A byte of a file that may still grow; unwritten bytes read as zero. */
  function ByteAt(s: seq<byte>, i: nat): byte {
    if i < |s| then s[i] else 0
  }

  /** m has the size of a or of b, and every byte of m is the byte of a or the byte of b. */
  predicate Mixed(m: seq<byte>, a: seq<byte>, b: seq<byte>) {
    && (|m| == |a| || |m| == |b|)
    && forall i :: 0 <= i < |m| ==> m[i] == ByteAt(a, i) || m[i] == ByteAt(b, i)
  }

  /** A successful fsync: contents are durable, and so is the entry of a file that had none. */
  function Fsynced(f: SegFile): SegFile {
    f.(dur := f.vol, dname := if f.dname.NoName? then f.vname else f.dname)
  }

  /** A failed fsync promises nothing: pending bytes may be written, kept, or dropped from the cache. */
  predicate FsyncFailed(f: SegFile, g: SegFile) {
    && g.vname == f.vname
    && (g.dname == f.dname || g.dname == f.vname)
    && Mixed(g.vol, f.dur, f.vol)
    && Mixed(g.dur, f.dur, f.vol)
  }

  /** Writeback by the kernel at a time of its own choosing. */
  predicate WrittenBack(f: SegFile, g: SegFile) {
    && g.vname == f.vname && g.vol == f.vol
    && (g.dname == f.dname || g.dname == f.vname)
    && Mixed(g.dur, f.dur, f.vol)
  }

  ghost predicate Writeback(files: Files, files': Files) {
    forall id :: WrittenBack(At(files, id), At(files', id))
  }

  /** A machine crash settles every entry and every byte to one of its two versions. */
  predicate Settled(f: SegFile, g: SegFile) {
    && g.vname == g.dname && g.vol == g.dur
    && (g.vname == f.vname || g.vname == f.dname)
    && Mixed(g.dur, f.dur, f.vol)
  }

  ghost predicate Crashed(files: Files, files': Files) {
    forall id :: Settled(At(files, id), At(files', id))
  }

  /** A successful fsync of the directory: all entries become durable. */
  function DirSynced(files: Files): (files': Files)
    ensures forall id :: At(files', id) == At(files, id).(dname := At(files, id).vname)
  {
    map id | id in files :: files[id].(dname := files[id].vname)
  }
}
