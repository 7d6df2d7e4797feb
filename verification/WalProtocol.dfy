/** The WAL receiver and the uploads of its segments as a transition system over single system calls, with
  * failures, machine crashes, kernel writeback and restarts as steps of their own. */
module WalProtocol {
  import opened Bytes
  import opened Disk

  /** w is the segment size; wal(tli, lsn) is the byte every server sends at that position. */
  datatype Cfg = Cfg(w: nat, wal: (nat, nat) -> byte)

  function WalByte(c: Cfg, id: SegId, off: nat): byte {
    c.wal(id.tli, id.seg * c.w + off)
  }

  /** The first n bytes of a segment, as the server has them. */
  function Slice(c: Cfg, id: SegId, n: nat): (s: seq<byte>)
    ensures |s| == n
    ensures forall i :: 0 <= i < n ==> s[i] == WalByte(c, id, i)
  {
    seq(n, i requires 0 <= i < n => WalByte(c, id, i))
  }

  /** Where the receiver stands between two system calls. */
  datatype Phase =
    | Stopped                            // no session
    | Ended                              // copy stream finished by the server, file closed
    | Idle(seg: nat)                     // session, no file open, next byte opens seg
    | Creating(seg: nat)                 // partial file created or emptied, not yet extended
    | Streaming(seg: nat, pos: nat)      // partial file open, pos bytes written
    | Full(seg: nat)                     // all bytes written, descriptor closed
    | FullSynced(seg: nat)               // ... and fsynced under the partial name
    | Renamed(seg: nat)                  // ... and renamed
    | FinalSynced(seg: nat)              // ... and fsynced under the final name
    | Broken(seg: nat)                   // an error is being returned, file still open
    | Parking(seg: nat, eot: bool)       // incomplete file closed, to be fsynced
    | ParkSynced(seg: nat, eot: bool)    // ... and fsynced, directory fsync to follow

  /** origin is the segment of the very first start; base and startSeg describe the session start; stored holds
    * the segments that are fully in the archive. */
  datatype St = St(files: Files, tli: nat, origin: nat, base: Files, startSeg: nat,
                   phase: Phase, blockPos: nat, lastFlush: nat, acked: nat, stored: map<SegId, seq<byte>>)
  {
    function Id(seg: nat): SegId { SegId(tli, seg) }
    function File(seg: nat): SegFile { At(files, SegId(tli, seg)) }
    function With(seg: nat, f: SegFile): (t: St)
      ensures forall id :: At(t.files, id) == if id == SegId(tli, seg) then f else At(files, id)
    {
      this.(files := files[SegId(tli, seg) := f])
    }
  }

  // ---- opening a segment (OpenWalFile) ----

  predicate OpenExisting(c: Cfg, s: St, s': St) {
    && s.phase.Idle?
    && var f := s.File(s.phase.seg);
    && f.vname.PartialName? && |f.vol| == c.w
    && s' == s.With(s.phase.seg, Fsynced(f)).(phase := Streaming(s.phase.seg, 0))
  }

  /** A new file, or the old one emptied. Of a removed final file nothing is left once it is created again. */
  function Created(f: SegFile): SegFile {
    if f.dname.FinalName? then SegFile(PartialName, NoName, [], []) else f.(vname := PartialName, vol := [])
  }

  predicate Create(c: Cfg, s: St, s': St) {
    && s.phase.Idle?
    && var f := s.File(s.phase.seg);
    && (f.vname.NoName? || (f.vname.PartialName? && |f.vol| == 0))
    && s' == s.With(s.phase.seg, Created(f)).(phase := Creating(s.phase.seg))
  }

  predicate Extend(c: Cfg, s: St, s': St) {
    && s.phase.Creating?
    && s' == s.With(s.phase.seg, s.File(s.phase.seg).(vol := Zeros(c.w))).(phase := Streaming(s.phase.seg, 0))
  }

  // ---- receiving bytes (processXLogDataMsg, WriteAtWalFile) ----

  /** The file after k more bytes of the stream at offset pos. */
  function Written(c: Cfg, id: SegId, f: SegFile, pos: nat, k: nat): SegFile
    requires pos + k <= |f.vol|
  {
    f.(vol := f.vol[..pos] + Slice(c, id, pos + k)[pos..] + f.vol[pos + k..])
  }

  predicate Write(c: Cfg, s: St, s': St, k: nat) {
    && s.phase.Streaming?
    && var f := s.File(s.phase.seg);
    && s.phase.pos + k <= c.w == |f.vol|
    && s' == s.With(s.phase.seg, Written(c, s.Id(s.phase.seg), f, s.phase.pos, k))
              .(phase := Streaming(s.phase.seg, s.phase.pos + k), blockPos := s.blockPos + k)
  }

  // ---- flushing and reporting ----

  predicate Sync(c: Cfg, s: St, s': St) {
    && s.phase.Streaming? && s.phase.pos < c.w && s.lastFlush < s.blockPos
    && s' == s.With(s.phase.seg, Fsynced(s.File(s.phase.seg))).(lastFlush := s.blockPos)
  }

  predicate SyncFails(c: Cfg, s: St, s': St, g: SegFile) {
    && (s.phase.Streaming? || s.phase.Full?)
    && FsyncFailed(s.File(s.phase.seg), g)
    && s' == s.With(s.phase.seg, g).(phase := Broken(s.phase.seg))
  }

  predicate AtRest(c: Cfg, s: St) {
    s.phase.Idle? || (s.phase.Streaming? && s.phase.pos < c.w)
  }

  /** A standby status update with write position blockPos and flush position lastFlush. */
  predicate Report(c: Cfg, s: St, s': St) {
    && AtRest(c, s)
    && s' == s.(acked := if s.acked < s.lastFlush then s.lastFlush else s.acked)
  }

  // ---- completing a segment (closeAndRename) ----

  predicate CloseFull(c: Cfg, s: St, s': St) {
    && s.phase.Streaming? && s.phase.pos == c.w
    && s' == s.(phase := Full(s.phase.seg))
  }

  predicate SyncFull(c: Cfg, s: St, s': St) {
    && s.phase.Full?
    && s' == s.With(s.phase.seg, Fsynced(s.File(s.phase.seg))).(phase := FullSynced(s.phase.seg))
  }

  predicate Rename(c: Cfg, s: St, s': St) {
    && s.phase.FullSynced?
    && s' == s.With(s.phase.seg, s.File(s.phase.seg).(vname := FinalName)).(phase := Renamed(s.phase.seg))
  }

  predicate SyncFinal(c: Cfg, s: St, s': St) {
    && s.phase.Renamed?
    && s' == s.With(s.phase.seg, Fsynced(s.File(s.phase.seg))).(phase := FinalSynced(s.phase.seg))
  }

  predicate SyncDir(c: Cfg, s: St, s': St) {
    && s.phase.FinalSynced?
    && s' == s.(files := DirSynced(s.files), phase := Idle(s.phase.seg + 1), lastFlush := s.blockPos)
  }

  // ---- closing an incomplete segment (closeNoRename) ----

  /** At the end of the stream an open file has received something. */
  predicate Park(c: Cfg, s: St, s': St) {
    || (s.phase.Broken? && s' == s.(phase := Parking(s.phase.seg, false)))
    || (s.phase.Streaming? && 0 < s.phase.pos < c.w && s' == s.(phase := Parking(s.phase.seg, true)))
  }

  predicate SyncParked(c: Cfg, s: St, s': St) {
    && s.phase.Parking?
    && s' == s.With(s.phase.seg, Fsynced(s.File(s.phase.seg))).(phase := ParkSynced(s.phase.seg, s.phase.eot))
  }

  predicate SyncDirParked(c: Cfg, s: St, s': St) {
    && s.phase.ParkSynced?
    && s' == s.(files := DirSynced(s.files),
                phase := if s.phase.eot then Ended else Stopped,
                lastFlush := if s.phase.eot then s.blockPos else s.lastFlush)
  }

  predicate EndIdle(c: Cfg, s: St, s': St) {
    s.phase.Idle? && s' == s.(phase := Ended)
  }

  // ---- failures, the environment, and a new session ----

  /** Any other error, cancellation or process exit. The received position no longer matters. */
  predicate Abort(c: Cfg, s: St, s': St, pos: nat) {
    || (s.phase.Streaming? && s' == s.(phase := Broken(s.phase.seg), blockPos := pos))
    || s' == s.(phase := Stopped, blockPos := pos)
  }

  /** An fsync fails after which the file is not open: of a closed file, or of one being reopened. */
  predicate ClosedSyncFails(c: Cfg, s: St, s': St, g: SegFile) {
    && (s.phase.Renamed? || s.phase.Parking? || s.phase.Idle?)
    && FsyncFailed(s.File(s.phase.seg), g)
    && s' == s.With(s.phase.seg, g).(phase := Stopped)
  }

  ghost predicate Background(c: Cfg, s: St, s': St) {
    Writeback(s.files, s'.files) && s' == s.(files := s'.files)
  }

  ghost predicate Crash(c: Cfg, s: St, s': St) {
    Crashed(s.files, s'.files) && s' == s.(files := s'.files, phase := Stopped)
  }

  /** The directory fsync with which every session ends. */
  predicate SessionDirSync(c: Cfg, s: St, s': St) {
    s.phase.Stopped? && s' == s.(files := DirSynced(s.files))
  }

  /** A file findStreamingStart takes into account. */
  predicate Entry(c: Cfg, f: SegFile) {
    f.vname.PartialName? || (f.vname.FinalName? && |f.vol| == c.w)
  }

  ghost predicate Best(c: Cfg, s: St, b: nat) {
    Entry(c, At(s.files, SegId(s.tli, b))) && forall a: nat :: Entry(c, At(s.files, SegId(s.tli, a))) ==> a <= b
  }

  /** The directory holds files of this timeline only. */
  ghost predicate OnlyTimeline(s: St) {
    forall id :: At(s.files, id).vname.NoName? || id.tli == s.tli
  }

  /** r is the segment from which findStreamingStart resumes; with no file left the server offers a position no
    * later than any it has been told is flushed. */
  ghost predicate RestartAt(c: Cfg, s: St, r: nat) {
    || (s.origin <= r && r * c.w <= s.acked && forall a: nat :: !Entry(c, At(s.files, SegId(s.tli, a))))
    || (Best(c, s, r) && s.File(r).vname.PartialName?)
    || (r > 0 && Best(c, s, r - 1) && s.File(r - 1).vname.FinalName?)
  }

  ghost predicate Restart(c: Cfg, s: St, s': St, r: nat) {
    && (s.phase.Stopped? || s.phase.Ended?)
    && OnlyTimeline(s)
    && RestartAt(c, s, r)
    && s' == s.(base := s.files, startSeg := r, phase := Idle(r), blockPos := r * c.w, lastFlush := r * c.w)
  }

  /** The fsync of a reopened partial file fails: the file is removed and the process exits. Its durable
    * entry may outlive the removal. */
  predicate UnlinkOnOpen(c: Cfg, s: St, s': St, g: SegFile) {
    && s.phase.Idle?
    && var f := s.File(s.phase.seg);
    && f.vname.PartialName? && |f.vol| == c.w
    && FsyncFailed(f, g)
    && s' == s.With(s.phase.seg, g.(vname := NoName)).(phase := Stopped)
  }

  predicate Named(f: SegFile) { !f.vname.NoName? || !f.dname.NoName? }

  /** The segment about to be opened is in the archive, or nothing of it, or of a later one, is promised or on
    * disk. */
  ghost predicate Unneeded(c: Cfg, s: St) {
    s.phase.Idle? &&
    (s.Id(s.phase.seg) in s.stored ||
      (s.acked <= s.phase.seg * c.w && forall b: nat :: b > s.phase.seg ==> !Named(At(s.files, SegId(s.tli, b)))))
  }

  // ---- uploads ----

  /** An upload puts a complete file into the archive. */
  predicate Store(c: Cfg, s: St, s': St, a: nat) {
    s.File(a).vname.FinalName? && s' == s.(stored := s.stored[s.Id(a) := s.File(a).vol])
  }

  /** A failed upload may leave a damaged object. */
  predicate StoreFails(c: Cfg, s: St, s': St, a: nat) {
    s.File(a).vname.FinalName? && s' == s.(stored := s.stored - {s.Id(a)})
  }

  /** A file that has been uploaded is removed; its durable entry may outlive the removal. */
  predicate Remove(c: Cfg, s: St, s': St, a: nat) {
    && s.Id(a) in s.stored && s.File(a).vname.FinalName?
    && s' == s.With(a, s.File(a).(vname := NoName))
  }

  // ---- steps by name ----

  datatype Step =
    | DoOpen | DoCreate | DoExtend | DoWrite(k: nat) | DoSync | DoReport
    | DoCloseFull | DoSyncFull | DoRename | DoSyncFinal | DoSyncDir
    | DoPark | DoSyncParked | DoSyncDirParked | DoEnd
    | FailSync(g: SegFile) | FailClosedSync(g: SegFile) | FailOther(pos: nat) | FailOpen(g: SegFile)
    | Kernel | MachineCrash | LastDirSync | Begin(r: nat)
    | DoStore(a: nat) | FailStore(a: nat) | DoRemove(a: nat)

  ghost predicate StepBy(c: Cfg, s: St, s': St, e: Step) {
    match e
    case DoOpen => OpenExisting(c, s, s')
    case DoCreate => Create(c, s, s')
    case DoExtend => Extend(c, s, s')
    case DoWrite(k) => Write(c, s, s', k)
    case DoSync => Sync(c, s, s')
    case DoReport => Report(c, s, s')
    case DoCloseFull => CloseFull(c, s, s')
    case DoSyncFull => SyncFull(c, s, s')
    case DoRename => Rename(c, s, s')
    case DoSyncFinal => SyncFinal(c, s, s')
    case DoSyncDir => SyncDir(c, s, s')
    case DoPark => Park(c, s, s')
    case DoSyncParked => SyncParked(c, s, s')
    case DoSyncDirParked => SyncDirParked(c, s, s')
    case DoEnd => EndIdle(c, s, s')
    case FailSync(g) => SyncFails(c, s, s', g)
    case FailClosedSync(g) => ClosedSyncFails(c, s, s', g)
    case FailOther(pos) => Abort(c, s, s', pos)
    case FailOpen(g) => UnlinkOnOpen(c, s, s', g) && Unneeded(c, s)
    case Kernel => Background(c, s, s')
    case MachineCrash => Crash(c, s, s')
    case LastDirSync => SessionDirSync(c, s, s')
    case Begin(r) => Restart(c, s, s', r)
    case DoStore(a) => Store(c, s, s', a)
    case FailStore(a) => StoreFails(c, s, s', a)
    case DoRemove(a) => Remove(c, s, s', a)
  }

  predicate Uploading(e: Step) { e.DoStore? || e.FailStore? || e.DoRemove? }

  /** Steps of the receiver and the environment that leave the flush position and all durable bytes alone. */
  predicate Quiet(e: Step) {
    !e.DoSync? && !e.DoSyncDir? && !e.DoSyncDirParked? && !e.FailOpen? && !e.Begin? && !Uploading(e)
  }

  ghost predicate Next(c: Cfg, s: St, s': St) {
    exists e :: StepBy(c, s, s', e)
  }

  // ---- a step outside the main theorems ----

  /** The server announces a later timeline; nothing of it has been received before. */
  ghost predicate Switch(c: Cfg, s: St, s': St, tli: nat, start: nat) {
    && c.w > 0 && s.phase.Ended? && s.tli < tli && start <= s.blockPos
    && (forall id: SegId :: id.tli == tli ==> At(s.files, id) == ABSENT && id !in s.stored)
    && var seg := start / c.w;
    && s' == s.(tli := tli, origin := seg, base := s.files, startSeg := seg, phase := Idle(seg), blockPos := seg * c.w)
  }

  predicate Init(c: Cfg, s: St) {
    && c.w > 0
    && s.files == map[] && s.base == map[] && s.stored == map[]
    && s.phase.Stopped?
    && s.acked == s.lastFlush == s.blockPos == s.origin * c.w
  }

  ghost predicate RunStep(c: Cfg, run: seq<St>, i: nat)
    requires 0 < i < |run|
  {
    Next(c, run[i - 1], run[i])
  }

  ghost predicate NoUploads(run: seq<St>) {
    forall i :: 0 <= i < |run| ==> run[i].stored == map[]
  }

  ghost predicate IsRun(c: Cfg, run: seq<St>) {
    |run| > 0 && Init(c, run[0]) && forall i: nat :: 0 < i < |run| ==> RunStep(c, run, i)
  }
}
