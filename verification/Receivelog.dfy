/** The streaming client: one object per connection, with the receive directory it writes.
  *
  * Every system call may fail. A ghost history records the protocol state after each of them, so that
  * what holds over runs of the protocol holds at every point of these methods. */
module Receivelog {
  import opened Arith
  import opened Bytes
  import opened CopyStream
  import opened Disk
  import opened Faults
  import opened WalProtocol
  import opened WalSafety
  import opened WalLayout
  import opened WalRecovery

  /** Exited: the process terminated itself; nothing runs afterwards. */
  datatype Outcome = Done | Failed | Exited

  /** fd tells whether the descriptor is still open. */
  datatype Walfile = NoFile | Wal(seg: nat, currpos: nat, fd: bool)

  /** n bytes of the server's log. */
  function Log(c: Cfg, tli: nat, lsn: nat, n: nat): (s: seq<byte>)
    ensures |s| == n && forall i :: 0 <= i < n ==> s[i] == c.wal(tli, lsn + i)
  {
    seq(n, i requires 0 <= i < n => c.wal(tli, lsn + i))
  }

  /** The server sends contiguous bytes. Only data that the client's own offset check would accept
    * needs to be assumed about. */
  ghost predicate Served(c: Cfg, tli: nat, pos: nat, input: seq<Event>)
    requires c.w > 0
    decreases |input|
  {
    input == [] ||
    match input[0]
    case XLogData(start, data) =>
      start % c.w == pos % c.w ==>
        start == pos && data == Log(c, tli, pos, |data|) && Served(c, tli, pos + |data|, input[1..])
    case _ => Served(c, tli, pos, input[1..])
  }

  ghost predicate AlwaysServed(c: Cfg, script: Script)
    requires c.w > 0
  {
    forall tli: nat, pos: nat :: Served(c, tli, pos, script(tli, pos))
  }

  /** Where a session may stand; nothing is uploaded from its directory. Only on the first timeline does the flush
    * position mean anything. */
  ghost predicate Start(c: Cfg, s: St, first: nat) {
    && s.stored == map[] && DiskInv(c, s) && LaidOut(c, s) && NoLater(s)
    && (s.tli == first ==> FlushInv(c, s))
  }

  ghost predicate StepTo(c: Cfg, s: St, s': St, e: Step, first: nat) {
    StepBy(c, s, s', e) && s'.stored == map[] && (e.Begin? ==> s'.tli == first)
  }

  ghost predicate TraceStep(c: Cfg, s: St, s': St, first: nat) {
    exists e :: StepTo(c, s, s', e, first)
  }

  ghost predicate StepAt(c: Cfg, run: seq<St>, first: nat, i: nat)
    requires i < |run|
  {
    if i == 0 then Start(c, run[0], first) else TraceStep(c, run[i - 1], run[i], first)
  }

  /** A protocol run from such a beginning. */
  ghost predicate IsTrace(c: Cfg, run: seq<St>, first: nat) {
    |run| > 0 && forall i: nat :: i < |run| ==> StepAt(c, run, first, i)
  }

  lemma TraceExtends(c: Cfg, run: seq<St>, first: nat, s: St, e: Step)
    requires IsTrace(c, run, first) && StepTo(c, run[|run| - 1], s, e, first)
    ensures IsTrace(c, run + [s], first)
  {
    forall i: nat | i < |run| + 1 ensures StepAt(c, run + [s], first, i) {
      if i < |run| { assert StepAt(c, run, first, i); }
    }
  }

  lemma StartKept(c: Cfg, s: St, s': St, e: Step, first: nat)
    requires Start(c, s, first) && StepTo(c, s, s', e, first)
    ensures Start(c, s', first)
  {
    StepKeeps(c, s, s', e);
    if s.tli == first { StepFlushes(c, s, s', e); }
    StepLaysOut(c, s, s', e);
    StepKeepsLater(c, s, s', e);
  }

  /** What holds at the beginning holds throughout. */
  lemma {:induction false} TraceKeeps(c: Cfg, run: seq<St>, first: nat, i: nat)
    requires IsTrace(c, run, first) && i < |run|
    ensures Start(c, run[i], first)
  {
    if i == 0 {
      assert StepAt(c, run, first, 0);
    } else {
      TraceKeeps(c, run, first, i - 1);
      TraceStepKeeps(c, run, first, i);
    }
  }

  lemma TraceStepKeeps(c: Cfg, run: seq<St>, first: nat, i: nat)
    requires IsTrace(c, run, first) && 0 < i < |run| && Start(c, run[i - 1], first)
    ensures Start(c, run[i], first)
  {
    assert StepAt(c, run, first, i);
    var e :| StepTo(c, run[i - 1], run[i], e, first);
    StartKept(c, run[i - 1], run[i], e, first);
  }

  lemma RunIsTrace(c: Cfg, run: seq<St>)
    requires IsRun(c, run) && NoUploads(run)
    ensures IsTrace(c, run, run[0].tli)
  {
    forall i: nat | i < |run| ensures StepAt(c, run, run[0].tli, i) {
      RunKeeps(c, run, i);
      if i > 0 {
        assert RunStep(c, run, i);
        var e :| StepBy(c, run[i - 1], run[i], e);
        assert StepTo(c, run[i - 1], run[i], e, run[0].tli);
      }
    }
  }

  lemma TraceRestarts(c: Cfg, run: seq<St>, first: nat, s: St, r: nat)
    requires IsTrace(c, run, first) && Restart(c, run[|run| - 1], s, r) && s.stored == map[] && s.tli == first
    ensures IsTrace(c, run + [s], first)
  {
    TraceExtends(c, run, first, s, Begin(r));
  }

  /** fsync by path of a file that is no longer open: where it leads, and the step it is. */
  ghost predicate ClosedSync(s: St, seg: nat, next: Phase, e: Step) {
    || (s.phase == Renamed(seg) && next == FinalSynced(seg) && e.DoSyncFinal?)
    || (s.phase.Parking? && s.phase.seg == seg && next == ParkSynced(seg, s.phase.eot) && e.DoSyncParked?)
  }

  lemma ClosedSyncStep(c: Cfg, s: St, s': St, seg: nat, next: Phase, e: Step, ok: bool, g: SegFile)
    requires ClosedSync(s, seg, next, e)
    requires if ok then g == Fsynced(s.File(seg)) else FsyncFailed(s.File(seg), g)
    requires s' == s.With(seg, g).(phase := if ok then next else Stopped)
    ensures StepBy(c, s, s', if ok then e else FailClosedSync(g))
  {
  }

  /** An fsync of the open file that is to move the flush position. */
  lemma FlushStep(c: Cfg, s: St, s': St, ok: bool, g: SegFile)
    requires s.phase.Streaming? && s.phase.pos < c.w && s.lastFlush < s.blockPos
    requires if ok then g == Fsynced(s.File(s.phase.seg)) else FsyncFailed(s.File(s.phase.seg), g)
    requires s' == s.With(s.phase.seg, g).(phase := if ok then s.phase else Broken(s.phase.seg),
                                           lastFlush := if ok then s.blockPos else s.lastFlush)
    ensures StepBy(c, s, s', if ok then DoSync else FailSync(g))
  {
  }

  lemma ServedNext(c: Cfg, tli: nat, pos: nat, input: seq<Event>, i: nat)
    requires c.w > 0 && i < |input| && Served(c, tli, pos, input[i..])
    ensures input[i].XLogData? && input[i].start % c.w == pos % c.w ==>
      && input[i].start == pos && input[i].data == Log(c, tli, pos, |input[i].data|)
      && Served(c, tli, pos + |input[i].data|, input[i + 1..])
    ensures !input[i].XLogData? ==> Served(c, tli, pos, input[i + 1..])
  {
  }

  /** Nothing of a later timeline has been received. */
  ghost predicate NoLater(s: St) {
    forall id: SegId :: id.tli > s.tli ==> At(s.files, id) == ABSENT
  }

  lemma KernelKeepsLater(c: Cfg, s: St, s': St)
    requires NoLater(s) && (Background(c, s, s') || Crash(c, s, s'))
    ensures NoLater(s')
  {
  }

  /** Steps that leave all files alone, or fsync the directory. */
  lemma PhaseKeepsLater(c: Cfg, s: St, s': St, e: Step)
    requires StepBy(c, s, s', e) && NoLater(s) && (s'.files == s.files || s'.files == DirSynced(s.files))
    requires s'.tli == s.tli
    ensures NoLater(s')
  {
  }

  lemma OneFileLater(s: St, seg: nat, g: SegFile)
    requires NoLater(s)
    ensures NoLater(s.With(seg, g))
  {
  }

  lemma FileKeepsLater(c: Cfg, s: St, s': St, e: Step)
    requires StepBy(c, s, s', e) && NoLater(s)
    requires e.DoOpen? || e.DoCreate? || e.DoExtend? || e.DoWrite? || e.DoSync? || e.DoSyncFull?
      || e.DoRename? || e.DoSyncFinal? || e.DoSyncParked? || e.FailSync? || e.FailClosedSync? || e.FailOpen?
    ensures NoLater(s')
  {
    OneFileLater(s, s.phase.seg, s'.File(s.phase.seg));
  }

  lemma StepKeepsLater(c: Cfg, s: St, s': St, e: Step)
    requires StepBy(c, s, s', e) && s.stored == s'.stored == map[] && NoLater(s)
    ensures NoLater(s')
  {
    if e.Kernel? || e.MachineCrash? {
      KernelKeepsLater(c, s, s');
    } else if s'.files == s.files || e.DoSyncDir? || e.DoSyncDirParked? || e.LastDirSync? {
      PhaseKeepsLater(c, s, s', e);
    } else if Uploading(e) {
      NothingUploaded(c, s, s', e);
    } else {
      FileKeepsLater(c, s, s', e);
    }
  }

  // ---- what the process sees of the directory ----

  ghost predicate SeenAlike(was: Files, now: Files) {
    forall id :: ViewOf(At(now, id)) == ViewOf(At(was, id))
  }

  ghost predicate SeenBut(was: Files, now: Files, id: SegId, v: View) {
    forall other :: ViewOf(At(now, other)) == if other == id then v else ViewOf(At(was, other))
  }

  lemma CreatedAndExtended(was: Files, before: Files, between: Files, now: Files, id: SegId, w: nat)
    requires SeenAlike(was, before) && SeenAlike(before[id := Created(At(before, id))], between)
    requires now == between[id := At(between, id).(vol := Zeros(w))]
    ensures SeenBut(was, now, id, View(PartialName, Zeros(w)))
  {
    var created := before[id := Created(At(before, id))];
    assert ViewOf(At(between, id)) == ViewOf(At(created, id)) == View(PartialName, []);
    forall other | other != id ensures ViewOf(At(now, other)) == ViewOf(At(was, other)) {
      assert ViewOf(At(between, other)) == ViewOf(At(created, other)) &&
        ViewOf(At(before, other)) == ViewOf(At(was, other));
    }
  }

  predicate WroteBack(was: Files, now: Files) {
    now.Keys == was.Keys && forall id :: id in was ==> WrittenBack(was[id], now[id])
  }

  lemma WroteBackIsStep(c: Cfg, s: St, now: Files)
    requires WroteBack(s.files, now)
    ensures StepBy(c, s, s.(files := now), Kernel) && SeenAlike(s.files, now)
  {
    forall id ensures WrittenBack(At(s.files, id), At(now, id)) {
      assert id in now.Keys <==> id in s.files.Keys;
    }
  }

  /** reliable says that no call to the operating system or the server fails, and that nothing is canceled. */
  class StreamCtl {
    const reliable: bool
    const walSegSz: nat
    ghost const cfg: Cfg
    ghost const first: nat

    var timeline: nat
    var startPos: nat
    var blockPos: nat
    var lastFlushPosition: nat
    var stopPos: nat
    var walfile: Walfile
    var files: Files
    var sent: seq<Status>

    ghost var phase: Phase
    ghost var origin: nat
    ghost var startSeg: nat
    ghost var base: Files
    ghost var acked: nat
    ghost var run: seq<St>

    ghost function Snap(): St
      reads this
    {
      St(files, timeline, origin, base, startSeg, phase, blockPos, lastFlushPosition, acked, map[])
    }

    ghost function Last(): St
      requires run != []
      reads this
    {
      run[|run| - 1]
    }

    /** The open file agrees with the protocol phase. */
    ghost predicate Linked()
      reads this
    {
      match phase
      case Streaming(seg, pos) => walfile == Wal(seg, pos, true)
      case Full(seg) => walfile == Wal(seg, cfg.w, false)
      case FullSynced(seg) => walfile == Wal(seg, cfg.w, false)
      case Broken(seg) => walfile.Wal? && walfile.seg == seg
      case Stopped => walfile.Wal? ==> !walfile.fd
      case _ => walfile.NoFile?
    }

    ghost predicate AllAcked()
      reads this
    {
      forall st :: st in sent ==> st.flush <= acked
    }

    ghost predicate Valid()
      reads this
    {
      && walSegSz == cfg.w > 0
      && IsTrace(cfg, run, first)
      && Last() == Snap()
      && Linked()
      && AllAcked()
    }

    /** A call that returned an error: the session is over or about to be closed. */
    ghost predicate Ending()
      reads this
    {
      Valid() && (phase.Broken? || phase.Stopped?)
    }

    /** The process removed a partial file it could not fsync, and exited. */
    ghost predicate Gone()
      reads this
    {
      && IsTrace(cfg, run, first)
      && exists g :: UnlinkOnOpen(cfg, Last(), Snap(), g)
    }

    /** Appends the current state, reached from the last one by step e, to the history. */
    ghost method Record(e: Step)
      requires IsTrace(cfg, run, first) && StepBy(cfg, Last(), Snap(), e) && !e.Begin?
      modifies this`run
      ensures IsTrace(cfg, run, first) && run == old(run) + [Snap()]
    {
      TraceExtends(cfg, run, first, Snap(), e);
      run := run + [Snap()];
    }

    // ---- system calls ----

    /** Before any call the kernel may have written back whatever it likes. */
    method Interfere()
      requires Valid()
      modifies this`files, this`run
      ensures Valid() && old(run) <= run && SeenAlike(old(files), files)
    {
      var after: Files := *;
      if WroteBack(files, after) {
        WroteBackIsStep(cfg, Snap(), after);
        files := after;
        Record(Kernel);
      }
    }

    /** fsync, by descriptor or by path; g is what becomes of the file. */
    method Fsync(id: SegId) returns (ok: bool, ghost g: SegFile)
      modifies this`files
      ensures files == old(files)[id := g]
      ensures if ok then g == Fsynced(At(old(files), id)) else FsyncFailed(At(old(files), id), g)
      ensures reliable ==> ok
    {
      var f := At(files, id);
      var after := Fsynced(f);
      ok := Attempt(reliable);
      if !ok {
        after := *;
        if !FsyncFailed(f, after) { after := f; }
      }
      files := files[id := after];
      g := after;
    }

    method FsyncDir() returns (ok: bool)
      modifies this`files
      ensures files == if ok then DirSynced(old(files)) else old(files)
      ensures reliable ==> ok
    {
      ok := Attempt(reliable);
      if ok { files := DirSynced(files); }
    }

    /** An error is returned from here. */
    ghost method Fail()
      requires IsTrace(cfg, run, first) && walSegSz == cfg.w > 0
      requires Last() == Snap().(blockPos := Last().blockPos)
      requires if phase.Streaming? then walfile.Wal? && walfile.seg == phase.seg else walfile.Wal? ==> !walfile.fd
      requires AllAcked()
      modifies this`run, this`phase
      ensures Ending() && run == old(run) + [Snap()]
      ensures phase == if old(phase).Streaming? then Broken(old(phase).seg) else Stopped
    {
      ghost var was := Last();
      phase := if phase.Streaming? then Broken(phase.seg) else Stopped;
      assert Abort(cfg, was, Snap(), blockPos);
      Record(FailOther(blockPos));
    }

    /** The invariants of the protocol, at the current state. */
    lemma Now()
      requires Valid()
      ensures Start(cfg, Snap(), first)
    {
      TraceKeeps(cfg, run, first, |run| - 1);
    }

    lemma NowOnDisk()
      requires Valid()
      ensures DiskInv(cfg, Snap())
    {
      Now();
    }

    lemma IdleNow()
      requires Valid() && phase.Idle?
      ensures blockPos == phase.seg * cfg.w && !At(files, SegId(timeline, phase.seg)).vname.FinalName?
    {
      NowOnDisk();
    }

    /** No file of the segment, an empty one, or one of full size. */
    lemma SizeNow()
      requires Valid() && phase.Idle?
      ensures var f := At(files, SegId(timeline, phase.seg));
        f.vname.PartialName? ==> |f.vol| == 0 || |f.vol| == walSegSz
    {
      NowOnDisk();
      assert CleanFile(cfg, SegId(timeline, phase.seg), At(files, SegId(timeline, phase.seg)));
    }

    lemma PosInSegment()
      requires Valid() && phase.Streaming?
      ensures phase.pos <= walSegSz == |At(files, SegId(timeline, phase.seg)).vol|
      ensures blockPos == phase.seg * cfg.w + phase.pos
    {
      NowOnDisk();
    }

    // ---- the open segment file ----

    /** Opens the file with creation and truncation. */
    method CreateEmpty(id: SegId) returns (ok: bool)
      requires Valid() && phase.Idle? && id == SegId(timeline, phase.seg)
      requires At(files, id).vname.NoName? || (At(files, id).vname.PartialName? && |At(files, id).vol| == 0)
      modifies this`files, this`phase, this`run
      ensures old(run) <= run
      ensures files == if ok then old(files)[id := Created(At(old(files), id))] else old(files)
      ensures ok ==> Valid() && phase == Creating(id.seg)
      ensures !ok ==> Ending()
      ensures reliable ==> ok
    {
      ok := Attempt(reliable);
      if !ok { Fail(); return; }
      files := files[id := Created(At(files, id))];
      phase := Creating(id.seg);
      Record(DoCreate);
    }

    /** Extends the new file with zeros. */
    method TruncateToSize(id: SegId) returns (ok: bool)
      requires Valid() && phase == Creating(id.seg) && id.tli == timeline
      modifies this`files, this`phase, this`walfile, this`run
      ensures old(run) <= run
      ensures files == if ok then old(files)[id := At(old(files), id).(vol := Zeros(walSegSz))] else old(files)
      ensures ok ==> Valid() && phase == Streaming(id.seg, 0)
      ensures !ok ==> Ending()
      ensures reliable ==> ok
    {
      ok := Attempt(reliable);
      if !ok { Fail(); return; }
      files := files[id := At(files, id).(vol := Zeros(walSegSz))];
      walfile, phase := Wal(id.seg, 0, true), Streaming(id.seg, 0);
      Record(DoExtend);
    }

    method CreateFileAndTruncate(id: SegId) returns (out: Outcome)
      requires Valid() && phase.Idle? && id == SegId(timeline, phase.seg)
      requires At(files, id).vname.NoName? || (At(files, id).vname.PartialName? && |At(files, id).vol| == 0)
      modifies this`files, this`phase, this`walfile, this`run
      ensures old(run) <= run
      ensures out.Done? ==> Valid() && phase == Streaming(id.seg, 0)
      ensures out.Done? ==> SeenBut(old(files), files, id, View(PartialName, Zeros(walSegSz)))
      ensures out.Failed? ==> Ending()
      ensures !out.Exited? && (reliable ==> out.Done?)
    {
      Interfere();
      ghost var before := files;
      var ok := CreateEmpty(id);
      if ok {
        Interfere();
        ghost var between := files;
        ok := TruncateToSize(id);
        if ok { CreatedAndExtended(old(files), before, between, files, id, walSegSz); }
      }
      out := if ok then Done else Failed;
    }

    /** What the process sees of the file is on stable storage, under some name. */
    ghost predicate OnDisk(id: SegId)
      reads this
    {
      At(files, id).dur == At(files, id).vol && !At(files, id).dname.NoName?
    }

    /** Any failure here ends the process, if the fsync failed after an attempt to remove the file. */
    method OpenFileAndFsync(id: SegId) returns (out: Outcome)
      requires Valid() && phase.Idle? && id == SegId(timeline, phase.seg)
      requires At(files, id).vname.PartialName? && |At(files, id).vol| == walSegSz
      modifies this`files, this`phase, this`walfile, this`run
      ensures old(run) <= run
      ensures out.Done? ==> Valid() && phase == Streaming(id.seg, 0)
      ensures out.Done? ==> SeenAlike(old(files), files) && OnDisk(id)
      ensures out.Exited? ==> Gone() || Ending()
      ensures !out.Failed? && (reliable ==> out.Done?)
    {
      var readable := Attempt(reliable);
      if readable {
        Interfere();
        out := FsyncReopened(id);
      } else {
        Fail();
        out := Exited;
      }
    }

    method FsyncReopened(id: SegId) returns (out: Outcome)
      requires Valid() && phase.Idle? && id == SegId(timeline, phase.seg)
      requires At(files, id).vname.PartialName? && |At(files, id).vol| == walSegSz
      modifies this`files, this`phase, this`walfile, this`run
      ensures old(run) <= run
      ensures out.Done? ==> Valid() && phase == Streaming(id.seg, 0)
      ensures out.Done? ==> files == old(files)[id := Fsynced(At(old(files), id))]
      ensures out.Exited? ==> Gone() || Ending()
      ensures !out.Failed? && (reliable ==> out.Done?)
    {
      var ok, g := Fsync(id);
      if ok {
        walfile, phase := Wal(id.seg, 0, true), Streaming(id.seg, 0);
        Record(DoOpen);
        return Done;
      }
      RemoveUnsynced(id, g);
      return Exited;
    }

    /** The fsync has left g of the file; an attempt is made to remove it. */
    method RemoveUnsynced(id: SegId, ghost g: SegFile)
      requires IsTrace(cfg, run, first) && walSegSz == cfg.w > 0 && phase.Idle? && id == SegId(timeline, phase.seg)
      requires var was := Last();
        && At(was.files, id).vname.PartialName? && |At(was.files, id).vol| == cfg.w
        && FsyncFailed(At(was.files, id), g) && Snap() == was.(files := was.files[id := g])
      requires walfile.NoFile? && AllAcked()
      modifies this`files, this`phase, this`run
      ensures old(run) <= run && (Gone() || Ending())
    {
      phase := Stopped;
      var removed: bool := *;
      if removed {
        ghost var was := Last();
        files := files[id := files[id].(vname := NoName)];
        assert files == was.files[id := g.(vname := NoName)];
        assert UnlinkOnOpen(cfg, was, Snap(), g);
      } else {
        Record(FailClosedSync(g));
      }
    }

    method OpenWalFile(startpoint: nat) returns (out: Outcome)
      requires Valid() && phase.Idle? && startpoint == blockPos
      modifies this`files, this`phase, this`walfile, this`run
      ensures old(run) <= run
      ensures out.Done? ==> Valid() && phase == Streaming(old(phase).seg, 0)
      ensures out.Failed? ==> Ending()
      ensures out.Exited? ==> Gone() || Ending()
      ensures var id, f := SegId(timeline, old(phase).seg), At(old(files), SegId(timeline, old(phase).seg));
        if f.vname.PartialName? && |f.vol| == walSegSz then
          !out.Failed? && (out.Done? ==> SeenAlike(old(files), files) && OnDisk(id)) && (reliable ==> out.Done?)
        else if f.vname.PartialName? && |f.vol| > 0 then
          out.Failed? && files == old(files)
        else
          && !out.Exited? && (reliable ==> out.Done?)
          && (out.Done? ==> SeenBut(old(files), files, id, View(PartialName, Zeros(walSegSz))))
    {
      IdleNow();
      DivModUnique(walSegSz, phase.seg, 0, blockPos);
      var segno := startpoint / walSegSz;
      var id := SegId(timeline, segno);
      var f := At(files, id);
      if f.vname.PartialName? {
        if |f.vol| == walSegSz {
          out := OpenFileAndFsync(id);
          return;
        }
        if |f.vol| != 0 { Fail(); return Failed; }
      }
      out := CreateFileAndTruncate(id);
    }

    /** WriteAt on the open file; after an error an unknown number of bytes may have been written. */
    method WriteAtWalFile(data: seq<byte>, xlogoff: nat) returns (ok: bool, ghost k: nat)
      requires walfile.Wal?
      requires xlogoff + |data| <= |At(files, SegId(timeline, walfile.seg)).vol|
      modifies this`files, this`walfile
      ensures k <= |data| && (ok ==> k == |data|) && (reliable ==> ok)
      ensures var id, f := SegId(timeline, old(walfile).seg), At(old(files), SegId(timeline, old(walfile).seg));
        files == old(files)[id := f.(vol := f.vol[..xlogoff] + data[..k] + f.vol[xlogoff + k..])]
      ensures walfile == if ok then old(walfile).(currpos := old(walfile).currpos + |data|) else old(walfile)
    {
      var id := SegId(timeline, walfile.seg);
      var f := At(files, id);
      var n: int := *;
      if reliable || n < 0 || n > |data| { n := |data|; }
      files := files[id := f.(vol := f.vol[..xlogoff] + data[..n] + f.vol[xlogoff + n..])];
      k := n;
      ok := n == |data|;
      if ok { walfile := walfile.(currpos := walfile.currpos + n); }
    }

    /** The directory has been fsynced since the last recorded state. */
    ghost predicate DirSyncPending()
      reads this
    {
      && walSegSz == cfg.w > 0 && IsTrace(cfg, run, first) && walfile.NoFile?
      && Snap() == Last().(files := DirSynced(Last().files))
      && AllAcked()
    }

    method CloseAndRename() returns (ok: bool)
      requires Valid() && walfile.Wal? && phase == Streaming(walfile.seg, walSegSz)
      modifies this`files, this`phase, this`walfile, this`run
      ensures old(run) <= run
      ensures ok ==> DirSyncPending() && phase == FinalSynced(old(walfile).seg)
      ensures ok ==> At(files, SegId(timeline, old(walfile).seg)).vname.FinalName?
      ensures !ok ==> Ending()
      ensures reliable ==> ok
    {
      var id := SegId(timeline, walfile.seg);
      ok := CloseFd();
      if ok { ok := FsyncAndRename(id); }
      if ok { ok := FsyncFnameAndDir(id, FinalSynced(id.seg), DoSyncFinal); }
    }

    method FsyncAndRename(id: SegId) returns (ok: bool)
      requires Valid() && phase == Full(id.seg) && id.tli == timeline
      modifies this`files, this`phase, this`walfile, this`run
      ensures old(run) <= run
      ensures ok ==> Valid() && phase == Renamed(id.seg)
      ensures ok ==> walfile.NoFile? && At(files, id).vname.FinalName?
      ensures !ok ==> Ending()
      ensures reliable ==> ok
    {
      Interfere();
      ok := FsyncFull(id);
      if ok {
        Interfere();
        ok := RenameFull(id);
      }
    }

    method RenameFull(id: SegId) returns (ok: bool)
      requires Valid() && phase == FullSynced(id.seg) && id.tli == timeline
      modifies this`files, this`phase, this`walfile, this`run
      ensures old(run) <= run
      ensures ok ==> Valid() && phase == Renamed(id.seg)
      ensures ok ==> walfile.NoFile? && At(files, id).vname.FinalName?
      ensures !ok ==> Ending()
      ensures reliable ==> ok
    {
      ok := Attempt(reliable);
      if !ok { Fail(); return; }
      files := files[id := At(files, id).(vname := FinalName)];
      walfile, phase := NoFile, Renamed(id.seg);
      Record(DoRename);
    }

    /** Closes the descriptor of a complete segment. */
    method CloseFd() returns (ok: bool)
      requires Valid() && walfile.Wal? && phase == Streaming(walfile.seg, walSegSz)
      modifies this`phase, this`walfile, this`run
      ensures old(run) <= run
      ensures ok ==> Valid() && phase == Full(old(walfile).seg)
      ensures !ok ==> Ending()
      ensures reliable ==> ok
    {
      ok := Attempt(reliable);
      walfile := walfile.(fd := false);
      if !ok { Fail(); return; }
      phase := Full(walfile.seg);
      Record(DoCloseFull);
    }

    method FsyncFull(id: SegId) returns (ok: bool)
      requires Valid() && phase == Full(id.seg) && id.tli == timeline
      modifies this`files, this`phase, this`run
      ensures old(run) <= run
      ensures ok ==> Valid() && phase == FullSynced(id.seg)
      ensures !ok ==> Ending()
      ensures reliable ==> ok
    {
      ghost var g;
      ok, g := Fsync(id);
      phase := if ok then FullSynced(id.seg) else Broken(id.seg);
      Record(if ok then DoSyncFull else FailSync(g));
    }

    /** fsync by path of a file that is no longer open. */
    method FsyncClosed(id: SegId, ghost next: Phase, ghost e: Step) returns (ok: bool)
      requires Valid() && id.tli == timeline && ClosedSync(Snap(), id.seg, next, e)
      modifies this`files, this`phase, this`run
      ensures old(run) <= run
      ensures ok ==> Valid() && phase == next
      ensures forall other :: At(files, other).vname == At(old(files), other).vname
      ensures !ok ==> Ending()
      ensures reliable ==> ok
    {
      ghost var g;
      ok, g := Fsync(id);
      phase := if ok then next else Stopped;
      ClosedSyncStep(cfg, Last(), Snap(), id.seg, next, e, ok, g);
      Record(if ok then e else FailClosedSync(g));
    }

    method FsyncFnameAndDir(id: SegId, ghost next: Phase, ghost e: Step) returns (ok: bool)
      requires Valid() && id.tli == timeline && walfile.NoFile? && ClosedSync(Snap(), id.seg, next, e)
      modifies this`files, this`phase, this`run
      ensures old(run) <= run
      ensures ok ==> DirSyncPending() && phase == next
      ensures forall other :: At(files, other).vname == At(old(files), other).vname
      ensures !ok ==> Ending()
      ensures reliable ==> ok
    {
      Interfere();
      ok := FsyncClosed(id, next, e);
      if !ok { return; }
      Interfere();
      ok := FsyncDir();
      if !ok { Fail(); }
    }

    method CloseNoRename() returns (ok: bool)
      requires Valid() && walfile.Wal?
      requires phase.Broken? || phase.Stopped? || (phase.Streaming? && 0 < phase.pos < walSegSz)
      modifies this`files, this`phase, this`walfile, this`run
      ensures old(run) <= run
      ensures ok ==> DirSyncPending() && phase == ParkSynced(old(walfile).seg, old(phase).Streaming?)
      ensures forall other :: At(files, other).vname == At(old(files), other).vname
      ensures !ok ==> Ending() && (walfile.Wal? ==> !walfile.fd)
      ensures reliable && old(walfile).fd ==> ok
    {
      var id := SegId(timeline, walfile.seg);
      ok := walfile.fd;
      if !ok { return; }
      ok := Attempt(reliable);
      walfile := walfile.(fd := false);
      if !ok { Fail(); return; }
      walfile, phase := NoFile, Parking(id.seg, phase.Streaming?);
      Record(DoPark);
      ok := FsyncFnameAndDir(id, ParkSynced(id.seg, phase.eot), DoSyncParked);
    }

    /** Renames the file exactly when it is complete. */
    method CloseWalFile() returns (ok: bool)
      requires Valid() && (phase.Idle? || (phase.Streaming? && phase.pos > 0))
      modifies this`files, this`phase, this`walfile, this`run, this`lastFlushPosition
      ensures old(run) <= run
      ensures ok && old(walfile).Wal? && old(walfile).currpos == walSegSz ==>
        At(files, SegId(timeline, old(walfile).seg)).vname.FinalName?
      ensures !(old(walfile).Wal? && old(walfile).currpos == walSegSz) ==>
        forall id :: At(files, id).vname == At(old(files), id).vname
      ensures !ok ==> Ending() && lastFlushPosition == old(lastFlushPosition)
      ensures ok ==> Valid()
      ensures reliable ==> ok
      ensures ok && old(phase).Idle? ==>
        phase == old(phase) && files == old(files) && lastFlushPosition == old(lastFlushPosition)
      ensures ok && old(phase).Streaming? ==>
        lastFlushPosition == blockPos
        && phase == if old(phase).pos == walSegSz then Idle(old(phase).seg + 1) else Ended
    {
      if walfile.NoFile? { return true; }
      PosInSegment();
      if walfile.currpos == walSegSz {
        ok := CloseComplete();
      } else {
        ok := CloseNoRename();
        if ok { UpdateLastFlushPosition(blockPos, Ended); }
      }
    }

    method CloseComplete() returns (ok: bool)
      requires Valid() && walfile.Wal? && phase == Streaming(walfile.seg, walSegSz)
      modifies this`files, this`phase, this`walfile, this`run, this`lastFlushPosition
      ensures old(run) <= run
      ensures ok ==> At(files, SegId(timeline, old(walfile).seg)).vname.FinalName?
      ensures ok ==> Valid() && phase == Idle(old(walfile).seg + 1) && lastFlushPosition == blockPos
      ensures !ok ==> Ending() && lastFlushPosition == old(lastFlushPosition)
      ensures reliable ==> ok
    {
      var seg := walfile.seg;
      ok := CloseAndRename();
      if ok { UpdateLastFlushPosition(blockPos, Idle(seg + 1)); }
    }

    /** Everything received is durable: the file has been closed and the directory fsynced. */
    method UpdateLastFlushPosition(p: nat, ghost next: Phase)
      requires DirSyncPending() && p == blockPos
      requires (phase.FinalSynced? && next == Idle(phase.seg + 1)) || (phase.ParkSynced? && phase.eot && next == Ended)
      modifies this`phase, this`lastFlushPosition, this`run
      ensures old(run) <= run && Valid() && phase == next && lastFlushPosition == p
    {
      lastFlushPosition := p;
      phase := next;
      Record(if next.Idle? then DoSyncDir else DoSyncDirParked);
    }

    /** After an error, cancellation or controlled shutdown. */
    method CloseWalFileIfPresentNoRename()
      requires Valid() && (phase.Idle? || phase.Broken? || phase.Stopped? || phase.Ended?
                           || (phase.Streaming? && phase.pos < walSegSz))
      modifies this`files, this`phase, this`walfile, this`run
      ensures old(run) <= run && Valid() && phase.Stopped?
      ensures forall id :: At(files, id).vname == At(old(files), id).vname
      ensures reliable && old(walfile).Wal? && old(walfile).fd ==> Parked(old(walfile).seg)
    {
      if phase.Streaming? { Fail(); }
      if walfile.Wal? {
        var ok := CloseNoRename();
        if ok {
          phase := Stopped;
          Record(DoSyncDirParked);
        }
      }
      if !phase.Stopped? { Fail(); }
    }

    /** The last steps of the session have made the file of the segment, and its entry, durable. */
    ghost predicate Parked(seg: nat)
      reads this
    {
      |run| > 1 && run[|run| - 2].phase == ParkSynced(seg, false) && Snap() == run[|run| - 1]
      && SyncDirParked(cfg, run[|run| - 2], Snap())
    }

    // ---- messages ----

    lemma ChunkIsSlice(id: SegId, pos: nat, lsn: nat, chunk: seq<byte>, k: nat)
      requires k <= |chunk| && lsn == id.seg * cfg.w + pos
      requires chunk == Log(cfg, id.tli, lsn, |chunk|)
      ensures chunk[..k] == Slice(cfg, id, pos + k)[pos..]
    {
    }

    lemma WriteIsStep(was: St, now: St, chunk: seq<byte>, k: nat)
      requires was.phase.Streaming? && k <= |chunk| && was.phase.pos + |chunk| <= cfg.w == |was.File(was.phase.seg).vol|
      requires was.blockPos == was.phase.seg * cfg.w + was.phase.pos
      requires chunk == Log(cfg, was.tli, was.blockPos, |chunk|)
      requires var id, pos := was.Id(was.phase.seg), was.phase.pos;
        var f := At(was.files, id);
        pos + |chunk| <= |f.vol|
        && now == was.(files := was.files[id := f.(vol := f.vol[..pos] + chunk[..k] + f.vol[pos + k..])],
                       phase := Streaming(was.phase.seg, pos + k), blockPos := was.blockPos + k)
      ensures Write(cfg, was, now, k)
    {
      ChunkIsSlice(was.Id(was.phase.seg), was.phase.pos, was.blockPos, chunk, k);
    }

    /** One write of the receive loop, within the open segment. */
    method WriteChunk(chunk: seq<byte>, xlogoff: nat) returns (ok: bool)
      requires Valid() && walfile.Wal? && phase == Streaming(walfile.seg, xlogoff)
      requires xlogoff + |chunk| <= walSegSz && chunk == Log(cfg, timeline, blockPos, |chunk|)
      modifies this`files, this`walfile, this`phase, this`blockPos, this`run
      ensures old(run) <= run
      ensures ok ==>
        Valid() && phase == Streaming(old(walfile).seg, xlogoff + |chunk|) && blockPos == old(blockPos) + |chunk|
      ensures !ok ==> Ending()
      ensures reliable ==> ok
    {
      PosInSegment();
      ghost var was, seg := Snap(), walfile.seg;
      ghost var k: nat;
      ok, k := WriteAtWalFile(chunk, xlogoff);
      blockPos := blockPos + if ok then |chunk| else 0;
      ghost var now := was.(files := files, phase := Streaming(seg, xlogoff + k), blockPos := was.blockPos + k);
      WriteIsStep(was, now, chunk, k);
      if ok { WriteDone(now, k); } else { WriteBroke(now, k); }
    }

    /** A complete write: now is the state that it leads to. */
    ghost method WriteDone(now: St, k: nat)
      requires IsTrace(cfg, run, first) && walSegSz == cfg.w > 0 && Write(cfg, Last(), now, k)
      requires now.phase.Streaming? && walfile == Wal(now.phase.seg, now.phase.pos, true)
      requires now == Snap().(phase := now.phase)
      requires AllAcked()
      modifies this`phase, this`run
      ensures old(run) <= run && Valid() && phase == now.phase
    {
      phase := now.phase;
      Record(DoWrite(k));
    }

    /** An incomplete write: now is the state in which its bytes have reached the file. */
    ghost method WriteBroke(now: St, k: nat)
      requires IsTrace(cfg, run, first) && walSegSz == cfg.w > 0 && Write(cfg, Last(), now, k)
      requires now.phase.Streaming? && walfile.Wal? && walfile.seg == now.phase.seg
      requires now == Snap().(phase := now.phase, blockPos := now.blockPos)
      requires AllAcked()
      modifies this`phase, this`run
      ensures old(run) <= run && Ending()
    {
      TraceExtends(cfg, run, first, now, DoWrite(k));
      run := run + [now];
      phase := Broken(now.phase.seg);
      Record(FailOther(blockPos));
    }

    method OpenIfNeeded() returns (out: Outcome)
      requires Valid() && Between(cfg, Snap())
      modifies this`files, this`walfile, this`phase, this`run
      ensures old(run) <= run
      ensures out.Done? ==> Valid() && phase == Streaming(old(phase).seg, old(SegPos())) && walfile.Wal?
      ensures reliable ==> out.Done?
      ensures out.Failed? ==> Ending()
      ensures out.Exited? ==> Gone() || Ending()
    {
      if walfile.NoFile? {
        SizeNow();
        out := OpenWalFile(blockPos);
      } else {
        out := Done;
      }
    }

    /** One turn of the receive loop: bytes for one segment, which is opened and closed as needed. */
    method ReceiveChunk(chunk: seq<byte>, xlogoff: nat) returns (out: Outcome, next: nat)
      requires Valid() && Between(cfg, Snap()) && xlogoff == SegPos()
      requires 0 < |chunk| <= walSegSz - xlogoff && chunk == Log(cfg, timeline, blockPos, |chunk|)
      modifies this`files, this`walfile, this`phase, this`blockPos, this`lastFlushPosition, this`run
      ensures old(run) <= run
      ensures out.Done? ==> Valid() && Between(cfg, Snap()) && next == SegPos() && blockPos == old(blockPos) + |chunk|
      ensures out.Done? ==> lastFlushPosition == if next == 0 then blockPos else old(lastFlushPosition)
      ensures reliable ==> out.Done?
      ensures out.Failed? ==> Ending()
      ensures out.Exited? ==> Gone() || Ending()
    {
      next := xlogoff;
      out := OpenIfNeeded();
      if !out.Done? { return; }
      Interfere();
      var ok := WriteChunk(chunk, xlogoff);
      if !ok { return Failed, next; }
      next := next + |chunk|;
      AtSegmentEnd(next);
      if blockPos % walSegSz == 0 {
        ok := CloseWalFile();
        if !ok { return Failed, next; }
        next := 0;
      }
      out := Done;
    }

    /** The offset at which the next byte goes. */
    ghost function SegPos(): nat
      reads this
    {
      if phase.Streaming? then phase.pos else 0
    }

    lemma OffsetOfBlockPos()
      requires Valid() && Between(cfg, Snap())
      ensures blockPos % walSegSz == SegPos() < walSegSz
    {
      NowOnDisk();
      DivModUnique(walSegSz, phase.seg, SegPos(), blockPos);
    }

    /** Between messages and at the end of the stream the directory is the stream cut at segment boundaries. */
    lemma CutStream()
      requires Valid() && InOrder(cfg, Snap())
      ensures Cut(cfg, Snap())
    {
      Now();
      forall id { LaidOutView(cfg, Snap(), id); }
    }

    /** Accepts data exactly when it continues at the current in-segment offset, if no call fails. */
    method ProcessXLogDataMsg(walStart: nat, data: seq<byte>) returns (out: Outcome)
      requires Valid() && Between(cfg, Snap())
      requires walStart % walSegSz == blockPos % walSegSz ==>
        walStart == blockPos && data == Log(cfg, timeline, blockPos, |data|)
      modifies this`files, this`walfile, this`phase, this`blockPos, this`lastFlushPosition, this`run
      ensures old(run) <= run
      ensures walStart % walSegSz != old(blockPos) % walSegSz ==> out.Failed? && files == old(files)
      ensures reliable && walStart % walSegSz == old(blockPos) % walSegSz ==> out.Done?
      ensures out.Done? ==> Valid() && Between(cfg, Snap()) && blockPos == old(blockPos) + |data|
      ensures out.Done? ==> lastFlushPosition == FlushAfter(walSegSz, old(blockPos), old(lastFlushPosition), blockPos)
      ensures out.Failed? ==> Ending()
      ensures out.Exited? ==> Gone() || Ending()
    {
      OffsetOfBlockPos();
      blockPos := walStart;
      var xlogoff := blockPos % walSegSz;
      if walfile.NoFile? {
        if xlogoff != 0 { Fail(); return Failed; }
      } else {
        if walfile.currpos != xlogoff { Fail(); return Failed; }
      }
      var bytesLeft: nat, bytesWritten: nat := |data|, 0;
      while bytesLeft != 0
        invariant bytesWritten + bytesLeft == |data|
        invariant Valid() && Between(cfg, Snap()) && blockPos == walStart + bytesWritten
        invariant xlogoff == SegPos()
        invariant old(run) <= run
        invariant lastFlushPosition == FlushAfter(walSegSz, walStart, old(lastFlushPosition), blockPos)
      {
        OffsetOfBlockPos();
        var bytesToWrite := if xlogoff + bytesLeft > walSegSz then walSegSz - xlogoff else bytesLeft;
        var chunk := data[bytesWritten..bytesWritten + bytesToWrite];
        ghost var was, flushed := blockPos, lastFlushPosition;
        out, xlogoff := ReceiveChunk(chunk, xlogoff);
        if !out.Done? { return; }
        OffsetOfBlockPos();
        FlushAfterChunk(walSegSz, walStart, old(lastFlushPosition), was, bytesToWrite);
        bytesWritten, bytesLeft := bytesWritten + bytesToWrite, bytesLeft - bytesToWrite;
      }
      return Done;
    }

    lemma AtSegmentEnd(pos: nat)
      requires Valid() && phase.Streaming? && phase.pos == pos > 0
      ensures pos <= walSegSz && (blockPos % walSegSz == 0 <==> pos == walSegSz)
    {
      NowOnDisk();
      if pos < walSegSz {
        DivModUnique(walSegSz, phase.seg, pos, blockPos);
      } else {
        DivModUnique(walSegSz, phase.seg + 1, 0, blockPos);
      }
    }

    method SyncWalFile() returns (ok: bool, ghost g: SegFile)
      requires walfile.Wal?
      modifies this`files
      ensures files == old(files)[SegId(timeline, walfile.seg) := g]
      ensures var f := At(old(files), SegId(timeline, walfile.seg));
        if ok then g == Fsynced(f) else FsyncFailed(f, g)
      ensures reliable ==> ok
    {
      ok, g := Fsync(SegId(timeline, walfile.seg));
    }

    /** Flushes the open file and moves the flush position to what has been received. */
    method Flush() returns (ok: bool)
      requires Valid() && Between(cfg, Snap()) && walfile.Wal? && lastFlushPosition < blockPos
      modifies this`files, this`phase, this`lastFlushPosition, this`run
      ensures old(run) <= run
      ensures ok ==> Valid() && phase == old(phase) && lastFlushPosition == blockPos
      ensures !ok ==> Ending() && lastFlushPosition == old(lastFlushPosition)
      ensures reliable ==> ok
    {
      ghost var g;
      ok, g := SyncWalFile();
      if ok {
        lastFlushPosition := blockPos;
      } else {
        phase := Broken(walfile.seg);
      }
      FlushStep(cfg, Last(), Snap(), ok, g);
      Record(if ok then DoSync else FailSync(g));
    }

    /** A status update that could not be sent may still have reached the server. */
    method SendFeedback() returns (ok: bool)
      requires Valid() && Between(cfg, Snap())
      modifies this`sent, this`phase, this`acked, this`run
      ensures old(run) <= run
      ensures sent == old(sent) + [Status(timeline, blockPos, lastFlushPosition)]
      ensures ok ==> Valid() && phase == old(phase)
      ensures !ok ==> Ending()
      ensures reliable ==> ok
    {
      sent := sent + [Status(timeline, blockPos, lastFlushPosition)];
      acked := if acked < lastFlushPosition then lastFlushPosition else acked;
      Record(DoReport);
      ok := Attempt(reliable);
      if !ok { Fail(); }
    }

    /** How far the session has come. */
    ghost function Here(): Progress
      reads this
    {
      Progress(blockPos, lastFlushPosition)
    }

    /** Between messages a file is open exactly within a segment. */
    lemma OpenExactly()
      requires Valid() && Between(cfg, Snap())
      ensures walfile.Wal? <==> blockPos % walSegSz != 0
    {
      OffsetOfBlockPos();
    }

    /** A requested reply reports everything received as flushed. */
    method ProcessKeepaliveMsg(replyRequested: bool) returns (ok: bool)
      requires Valid() && Between(cfg, Snap())
      modifies this`files, this`sent, this`phase, this`acked, this`lastFlushPosition, this`run
      ensures old(run) <= run
      ensures !replyRequested ==> ok && sent == old(sent) && lastFlushPosition == old(lastFlushPosition)
      ensures ok ==> Valid() && phase == old(phase)
      ensures ok && replyRequested ==> sent == old(sent) + [Status(timeline, blockPos, lastFlushPosition)]
      ensures ok && replyRequested ==> Here() == Synced(walSegSz, old(Here()))
      ensures !ok ==> Ending() && old(sent) <= sent <= old(sent) + [Status(timeline, blockPos, lastFlushPosition)]
      ensures !ok ==> lastFlushPosition == Synced(walSegSz, old(Here())).flush || sent == old(sent)
      ensures reliable ==> ok
      ensures ok && replyRequested && timeline == first ==> lastFlushPosition == blockPos
    {
      if timeline == first { FlushWindow(); }
      OpenExactly();
      if replyRequested {
        if lastFlushPosition < blockPos && walfile.Wal? {
          Interfere();
          ok := Flush();
          if !ok { return; }
        }
        ok := SendFeedback();
      } else {
        ok := true;
      }
    }

    /** The server has ended the copy stream. No incomplete segment is renamed. */
    method HandleEndOfCopyStream() returns (ok: bool)
      requires Valid() && Between(cfg, Snap())
      modifies this`files, this`walfile, this`phase, this`lastFlushPosition, this`stopPos, this`run
      ensures old(run) <= run
      ensures forall id :: At(files, id).vname == At(old(files), id).vname
      ensures ok ==> Valid() && phase.Ended? && stopPos == blockPos && Cut(cfg, Snap())
      ensures ok ==> lastFlushPosition == CopyStream.Closed(walSegSz, old(Here()))
      ensures !ok ==> Ending()
      ensures reliable ==> ok
    {
      OpenExactly();
      ok := CloseWalFile();
      if !ok { return; }
      if !phase.Ended? { EndSession(); }
      ok := Attempt(reliable);
      if !ok { Fail(); return; }
      CutStream();
      stopPos := blockPos;
    }

    ghost method EndSession()
      requires Valid() && phase.Idle?
      modifies this`phase, this`run
      ensures old(run) <= run && Valid() && phase.Ended?
    {
      phase := Ended;
      Record(DoEnd);
    }

    /** An announcement ends the copy stream. */
    method ProcessOneMsg(ev: Event) returns (out: Outcome, next: Option<NextTimeline>)
      requires Valid() && Between(cfg, Snap())
      requires ev.XLogData? && ev.start % walSegSz == blockPos % walSegSz ==>
        ev.start == blockPos && ev.data == Log(cfg, timeline, blockPos, |ev.data|)
      modifies this`files, this`walfile, this`phase, this`blockPos, this`lastFlushPosition, this`stopPos, this`sent,
        this`acked, this`run
      ensures old(run) <= run
      ensures out.Done? && next.None? ==> Valid() && Between(cfg, Snap()) && blockPos == old(blockPos) + Payload(ev)
      ensures out.Done? && next.None? && ev.XLogData? ==> ev.start % walSegSz == old(blockPos) % walSegSz
      ensures out.Done? && next.Some? ==> Valid() && phase.Ended? && stopPos == blockPos && Cut(cfg, Snap())
      ensures next.Some? ==> ev.CopyDone? && next.value == ev.next && blockPos == old(blockPos)
      ensures out.Done? ==> Acceptable(walSegSz, ev, old(blockPos)) && (next.Some? <==> ev.CopyDone?)
      ensures reliable && Acceptable(walSegSz, ev, old(blockPos)) ==> out.Done?
      ensures next.Some? ==> forall id :: At(files, id).vname == At(old(files), id).vname
      ensures out.Failed? ==> Ending()
      ensures out.Exited? ==> Gone() || Ending()
      ensures out.Done? ==> sent == old(sent) + MsgSent(walSegSz, timeline, old(Here()), ev)
      ensures out.Done? && next.None? ==> lastFlushPosition == AfterMsg(walSegSz, old(Here()), ev).flush
      ensures out.Done? && next.Some? ==> lastFlushPosition == CopyStream.Closed(walSegSz, old(Here()))
      ensures old(sent) <= sent <= old(sent) + MsgSent(walSegSz, timeline, old(Here()), ev)
    {
      next := None;
      match ev {
        case Keepalive(reply) =>
          var ok := ProcessKeepaliveMsg(reply);
          out := if ok then Done else Failed;
        case XLogData(start, data) =>
          out := ProcessXLogDataMsg(start, data);
        case CopyDone(announced) =>
          var ok := HandleEndOfCopyStream();
          if !ok { return Failed, None; }
          out, next := Done, Some(announced);
        case Ignored =>
          out := Done;
        case _ =>
          Fail();
          out := Failed;
      }
    }

    /** If anything has been received since the last flush: flush it and report it. */
    method FlushBehind() returns (ok: bool)
      requires Valid() && Between(cfg, Snap())
      modifies this`files, this`sent, this`phase, this`acked, this`lastFlushPosition, this`run
      ensures old(run) <= run
      ensures ok ==> Valid() && phase == old(phase) && Here() == Synced(walSegSz, old(Here()))
      ensures ok ==> sent == old(sent) + TopSent(walSegSz, timeline, old(Here()), false)
      ensures old(sent) <= sent <= old(sent) + TopSent(walSegSz, timeline, old(Here()), false)
      ensures !ok ==> Ending()
      ensures reliable ==> ok
    {
      OpenExactly();
      if lastFlushPosition < blockPos && walfile.Wal? {
        Interfere();
        ok := Flush();
        if !ok { return; }
        ok := SendFeedback();
      } else {
        ok := true;
      }
    }

    /** The top of the receive loop: flush and report what has arrived, and report again if it is time. */
    method FlushAndReport(due: bool) returns (ok: bool)
      requires Valid() && Between(cfg, Snap())
      modifies this`files, this`sent, this`phase, this`acked, this`lastFlushPosition, this`run
      ensures old(run) <= run
      ensures ok ==> Valid() && phase == old(phase) && Here() == Synced(walSegSz, old(Here()))
      ensures ok ==> sent == old(sent) + TopSent(walSegSz, timeline, old(Here()), due)
      ensures old(sent) <= sent <= old(sent) + TopSent(walSegSz, timeline, old(Here()), due)
      ensures !ok ==> Ending()
      ensures reliable ==> ok
      ensures ok && timeline == first ==> lastFlushPosition == blockPos
    {
      if timeline == first { FlushWindow(); }
      ok := FlushBehind();
      if ok && due { ok := SendFeedback(); }
    }

    /** What is still to be sent from message i on, and how the stream will end. */
    ghost function Rest(input: seq<Event>, due: nat -> bool, i: nat, top: bool): Story
      requires walSegSz > 0 && i <= |input|
      reads this
    {
      Stream(walSegSz, timeline, input, due, i, Here(), top)
    }

    /** What has been sent and what is still to be sent make up the whole. */
    ghost predicate Tells(total: Story, rest: Story)
      reads this
    {
      total == Story(sent + rest.sent, rest.end)
    }

    /** An error: nothing has been sent that was not to be sent, and if no call fails everything has been, and the
      * stream could not end well. */
    ghost predicate BreaksOff(total: Story)
      reads this
    {
      sent <= total.sent && (reliable ==> total == Story(sent, None))
    }

    /** The first i messages have been processed. */
    ghost predicate Receiving(input: seq<Event>, i: nat)
      reads this
    {
      && Valid() && Between(cfg, Snap())
      && i <= |input| && Served(cfg, timeline, blockPos, input[i..])
      && blockPos == startPos + Delivered(input, i)
    }

    /** The server has ended the stream with message k - 1. */
    ghost predicate Finished(input: seq<Event>, k: nat, next: NextTimeline)
      reads this
    {
      && Valid() && phase.Ended? && Cut(cfg, Snap())
      && 0 < k <= |input| && input[k - 1] == CopyDone(next)
      && stopPos == blockPos == startPos + Delivered(input, k)
    }

    /** The story of the session is complete: next has been announced. */
    ghost predicate Complete(total: Story, next: NextTimeline)
      reads this
    {
      total == Story(sent, Some(CopyStream.Ending(next, stopPos, lastFlushPosition)))
    }

    method ProcessNext(input: seq<Event>, ghost due: nat -> bool, k: nat, ghost total: Story)
      returns (out: Outcome, next: Option<NextTimeline>)
      requires Receiving(input, k) && k < |input| && !input[k].Timeout?
      requires Tells(total, Rest(input, due, k, false))
      modifies this`files, this`walfile, this`phase, this`blockPos, this`lastFlushPosition, this`stopPos, this`sent,
        this`acked, this`run
      ensures old(run) <= run && old(sent) <= sent
      ensures out.Done? && next.None? ==> Receiving(input, k + 1) && Tells(total, Rest(input, due, k + 1, false))
      ensures out.Done? && next.Some? ==> Finished(input, k + 1, next.value) && Complete(total, next.value)
      ensures !out.Done? ==> BreaksOff(total)
      ensures out.Failed? ==> Ending()
      ensures out.Exited? ==> Gone() || Ending()
    {
      ServedNext(cfg, timeline, blockPos, input, k);
      ghost var was, before := sent, Here();
      out, next := ProcessOneMsg(input[k]);
      OneMoreMsg(walSegSz, timeline, input, due, k, before, was);
    }

    /** Processes messages up to a timeout, the end of the stream or an error; k is the first one left. */
    method DrainMessages(input: seq<Event>, ghost due: nat -> bool, i: nat, ghost total: Story)
      returns (out: Outcome, next: Option<NextTimeline>, k: nat)
      requires Receiving(input, i) && i < |input| && !input[i].Timeout? && !input[i].Disconnected?
      requires Tells(total, Rest(input, due, i, false))
      modifies this`files, this`walfile, this`phase, this`blockPos, this`lastFlushPosition, this`stopPos, this`sent,
        this`acked, this`run
      ensures old(run) <= run && old(sent) <= sent && i < k <= |input|
      ensures out.Done? && next.None? ==> Receiving(input, k) && Tells(total, Rest(input, due, k, false))
      ensures out.Done? && next.None? ==> k < |input| && input[k].Timeout?
      ensures out.Done? && next.Some? ==> Finished(input, k, next.value) && Complete(total, next.value)
      ensures !out.Done? ==> BreaksOff(total)
      ensures out.Failed? ==> Valid() && (Between(cfg, Snap()) || Ending())
      ensures out.Exited? ==> Gone() || Ending()
    {
      k := i;
      while true
        invariant i <= k < |input| && !input[k].Timeout?
        invariant Receiving(input, k) && Tells(total, Rest(input, due, k, false))
        invariant old(run) <= run && old(sent) <= sent
        decreases |input| - k
      {
        out, next := ProcessNext(input, due, k, total);
        k := k + 1;
        if !out.Done? || next.Some? { return; }
        if k == |input| || input[k].Disconnected? {
          ConnectionLost(input, due, k, total);
          return Failed, None, k;
        }
        if input[k].Timeout? { return Done, None, k; }
      }
    }

    lemma ConnectionLost(input: seq<Event>, due: nat -> bool, k: nat, total: Story)
      requires walSegSz > 0 && k <= |input| && (k == |input| || input[k].Disconnected?)
      requires Tells(total, Rest(input, due, k, false))
      ensures BreaksOff(total)
    {
      assert sent + [] == sent;
    }

    /** One turn of the receive loop. */
    method ReceiveTurn(input: seq<Event>, due: nat -> bool, i: nat, ghost total: Story)
      returns (out: Outcome, next: Option<NextTimeline>, k: nat)
      requires Receiving(input, i) && Tells(total, Rest(input, due, i, true))
      modifies this`files, this`walfile, this`phase, this`blockPos, this`lastFlushPosition, this`stopPos, this`sent,
        this`acked, this`run
      ensures old(run) <= run && old(sent) <= sent && i <= k <= |input|
      ensures out.Done? && next.None? ==> i < k && Receiving(input, k) && Tells(total, Rest(input, due, k, true))
      ensures out.Done? && next.Some? ==> Finished(input, k, next.value) && Complete(total, next.value)
      ensures !out.Done? ==> BreaksOff(total)
      ensures out.Failed? ==> Valid() && (Between(cfg, Snap()) || Ending())
      ensures out.Exited? ==> Gone() || Ending()
    {
      ghost var was, before := sent, Here();
      var ok := FlushAndReport(due(i));
      TurnBegins(walSegSz, timeline, input, due, i, before, was);
      k := i;
      if ok {
        out, next, k := ReceiveUntilTimeout(input, due, i, total);
      } else {
        out, next := Failed, None;
      }
    }

    /** The rest of a turn: messages up to a timeout. */
    method ReceiveUntilTimeout(input: seq<Event>, ghost due: nat -> bool, i: nat, ghost total: Story)
      returns (out: Outcome, next: Option<NextTimeline>, k: nat)
      requires Receiving(input, i) && Tells(total, Rest(input, due, i, false))
      modifies this`files, this`walfile, this`phase, this`blockPos, this`lastFlushPosition, this`stopPos, this`sent,
        this`acked, this`run
      ensures old(run) <= run && old(sent) <= sent && i <= k <= |input|
      ensures out.Done? && next.None? ==> i < k && Receiving(input, k) && Tells(total, Rest(input, due, k, true))
      ensures out.Done? && next.Some? ==> Finished(input, k, next.value) && Complete(total, next.value)
      ensures !out.Done? ==> BreaksOff(total)
      ensures out.Failed? ==> Valid() && (Between(cfg, Snap()) || Ending())
      ensures out.Exited? ==> Gone() || Ending()
    {
      var ok := Attempt(reliable);
      if !ok || i == |input| || input[i].Disconnected? {
        if ok { ConnectionLost(input, due, i, total); }
        return Failed, None, i;
      }
      k := i;
      if !input[i].Timeout? {
        out, next, k := DrainMessages(input, due, i, total);
        if !out.Done? || next.Some? { return; }
      }
      ServedNext(cfg, timeline, blockPos, input, k);
      return Done, None, k + 1;
    }

    /** A session about to start at startPos; the received position is still that of the last one. */
    ghost predicate Primed()
      reads this
    {
      && walSegSz == cfg.w > 0
      && IsTrace(cfg, run, first)
      && Last() == Snap().(blockPos := startPos)
      && phase.Idle? && walfile.NoFile?
      && AllAcked()
    }

    /** What a session of this timeline is to send, and how it will end. */
    ghost function Whole(input: seq<Event>, due: nat -> bool): Story
      requires walSegSz > 0
      reads this
    {
      var story := Stream(walSegSz, timeline, input, due, 0, Progress(startPos, lastFlushPosition), true);
      Story(sent + story.sent, story.end)
    }

    /** Receives until the server ends the stream, after k messages, with an announcement. What is sent on the way,
      * and whether the stream ends well, is as Stream says. */
    method HandleCopyStream(input: seq<Event>, due: nat -> bool, ghost total: Story)
      returns (out: Outcome, next: Option<NextTimeline>, ghost k: nat)
      requires Primed() && Served(cfg, timeline, startPos, input) && total == Whole(input, due)
      modifies this`files, this`walfile, this`phase, this`blockPos, this`lastFlushPosition, this`stopPos, this`sent,
        this`acked, this`run
      ensures old(run) <= run
      ensures out.Done? ==> next.Some? && Finished(input, k, next.value) && Complete(total, next.value)
      ensures !out.Done? ==> BreaksOff(total)
      ensures old(sent) <= sent
      ensures out.Failed? ==> Valid() && (Between(cfg, Snap()) || Ending())
      ensures out.Exited? ==> Gone() || Ending()
    {
      blockPos := startPos;
      var i := 0;
      assert input[0..] == input;
      while true
        invariant Receiving(input, i) && Tells(total, Rest(input, due, i, true))
        invariant old(run) <= run && old(sent) <= sent
        decreases |input| - i
      {
        out, next, i := ReceiveTurn(input, due, i, total);
        k := i;
        if !out.Done? || next.Some? { return; }
      }
    }

    /** The state in which a session begins to receive. */
    ghost function Begun(): St
      requires walSegSz > 0
      reads this
    {
      Snap().(base := files, startSeg := startPos / walSegSz, phase := Idle(startPos / walSegSz),
              blockPos := startPos, lastFlush := startPos)
    }

    /** A new object: nothing has been received and no position is set but the start. */
    ghost predicate Prepared()
      reads this
    {
      && walSegSz == cfg.w > 0 && timeline == first
      && IsTrace(cfg, run, first)
      && walfile.NoFile? && sent == []
      && startPos == startPos / walSegSz * walSegSz
      && Restart(cfg, Last(), Begun(), startPos / walSegSz)
    }

    /** A connection over the directory that history has left behind, with the start position found there. */
    constructor (reliable: bool, ghost c: Cfg, ghost history: seq<St>, walSegSz: nat, timeline: nat, startPos: nat,
                 files: Files)
      requires IsRun(c, history) && NoUploads(history) && walSegSz == c.w > 0
      requires var last := history[|history| - 1];
        && (last.phase.Stopped? || last.phase.Ended?) && OnlyTimeline(last)
        && files == last.files && timeline == last.tli == history[0].tli
        && startPos == startPos / walSegSz * walSegSz && RestartAt(c, last, startPos / walSegSz)
      ensures Prepared() && this.reliable == reliable && cfg == c && run == history
      ensures this.startPos == startPos && this.timeline == timeline
    {
      this.reliable := reliable;
      this.walSegSz, this.timeline, this.startPos, this.files := walSegSz, timeline, startPos, files;
      blockPos, lastFlushPosition, stopPos, walfile, sent := 0, 0, 0, NoFile, [];
      ghost var last := history[|history| - 1];
      cfg, first, run := c, timeline, history;
      phase, origin, startSeg, base, acked := last.phase, last.origin, last.startSeg, last.base, last.acked;
      new;
      RunIsTrace(c, history);
      assert Begun() == last.(base := files, startSeg := startPos / walSegSz, phase := Idle(startPos / walSegSz),
        blockPos := startPos, lastFlush := startPos);
    }

    method Begin()
      requires Prepared()
      modifies this`lastFlushPosition, this`phase, this`base, this`startSeg, this`run
      ensures Primed() && old(run) <= run && lastFlushPosition == startPos
    {
      lastFlushPosition := startPos;
      ghost var begun := Begun();
      TraceRestarts(cfg, run, first, begun, startPos / walSegSz);
      run := run + [begun];
      base, startSeg, phase := files, startPos / walSegSz, Idle(startPos / walSegSz);
    }

    /** Streaming goes on with the announced timeline, from the beginning of a segment. */
    method SwitchTimeline(next: NextTimeline)
      requires Valid() && phase.Ended? && first <= timeline < next.tli && next.start <= blockPos
      modifies this`timeline, this`startPos, this`phase, this`origin, this`base, this`startSeg, this`run
      ensures Primed() && timeline == next.tli && startPos == next.start - next.start % walSegSz
    {
      Now();
      ghost var was, seg := Snap(), next.start / walSegSz;
      AlignDown(next.start, walSegSz);
      timeline, startPos := next.tli, next.start - next.start % walSegSz;
      phase, origin, base, startSeg := Idle(seg), seg, files, seg;
      ghost var begun := Snap().(blockPos := startPos);
      assert Switch(cfg, was, begun, next.tli, next.start);
      SwitchKeepsDisk(cfg, was, begun, next.tli, next.start);
      assert Start(cfg, begun, first);
      run := [begun];
      assert StepAt(cfg, run, first, 0);
    }

    /** One turn of the outer loop: a whole timeline, up to the switch to the next one. If no call fails it is left
      * exactly for an announcement that is followed. */
    method ReceiveTimeline(input: seq<Event>, due: nat -> bool, ghost total: Story)
      returns (out: Outcome, ghost hop: Hop)
      requires Primed() && first <= timeline && Served(cfg, timeline, startPos, input) && total == Whole(input, due)
      modifies this
      ensures out.Done? ==> Leads(old(timeline), total)
      ensures reliable && Leads(old(timeline), total) ==> out.Done?
      ensures out.Done? ==> Primed() && hop == HopOf(walSegSz, old(timeline), total.end.value) && sent == total.sent
      ensures out.Done? ==>
        timeline == hop.toTli && startPos == hop.start && lastFlushPosition == total.end.value.flush
      ensures old(sent) <= sent <= total.sent && (old(timeline) > LAST_TIMELINE ==> sent == old(sent))
      ensures reliable && old(timeline) <= LAST_TIMELINE ==> sent == total.sent
      ensures !out.Done? ==> timeline == old(timeline)
      ensures out.Failed? ==> Valid() && phase.Stopped?
      ensures out.Exited? ==> Gone() || Ending()
    {
      hop := Hop(0, 0, 0, 0, 0);
      var ready := Attempt(reliable); // the history file is there or could be fetched, and the server starts to stream
      if timeline > LAST_TIMELINE || !ready {
        Fail();
        out := Failed;
      } else {
        out, hop := StreamTimeline(input, due, total);
      }
    }

    method StreamTimeline(input: seq<Event>, due: nat -> bool, ghost total: Story)
      returns (out: Outcome, ghost hop: Hop)
      requires Primed() && first <= timeline && Served(cfg, timeline, startPos, input) && total == Whole(input, due)
      modifies this
      ensures out.Done? ==> total.end.Some? && Followed(old(timeline), total.end.value)
      ensures reliable && total.end.Some? && Followed(old(timeline), total.end.value) ==> out.Done?
      ensures out.Done? ==> Primed() && hop == HopOf(walSegSz, old(timeline), total.end.value) && sent == total.sent
      ensures out.Done? ==>
        timeline == hop.toTli && startPos == hop.start && lastFlushPosition == total.end.value.flush
      ensures old(sent) <= sent <= total.sent && (reliable ==> sent == total.sent)
      ensures !out.Done? ==> timeline == old(timeline)
      ensures out.Failed? ==> Valid() && phase.Stopped?
      ensures out.Exited? ==> Gone() || Ending()
    {
      hop := Hop(0, 0, 0, 0, 0);
      var next: Option<NextTimeline>;
      ghost var k;
      out, next, k := HandleCopyStream(input, due, total);
      if out.Done? {
        out, hop := FollowAnnouncement(next.value);
      } else if out.Failed? {
        CloseWalFileIfPresentNoRename();
      }
    }

    /** Only a later timeline that starts no later than where this one stopped is followed. */
    method FollowAnnouncement(next: NextTimeline) returns (out: Outcome, ghost hop: Hop)
      requires Valid() && phase.Ended? && stopPos == blockPos && first <= timeline
      modifies this`files, this`walfile, this`timeline, this`startPos, this`phase, this`origin, this`base,
        this`startSeg, this`run
      ensures !out.Exited? && (out.Done? <==> old(timeline) < next.tli && next.start <= stopPos)
      ensures out.Done? ==>
        Primed() && hop == HopOf(walSegSz, old(timeline), CopyStream.Ending(next, stopPos, lastFlushPosition))
      ensures out.Done? ==> timeline == hop.toTli && startPos == hop.start
      ensures out.Failed? ==> timeline == old(timeline) && Valid() && phase.Stopped?
    {
      hop := Hop(0, 0, 0, 0, 0);
      if next.tli <= timeline || next.start > stopPos {
        CloseWalFileIfPresentNoRename();
        return Failed, hop;
      }
      hop := HopOf(walSegSz, timeline, CopyStream.Ending(next, stopPos, lastFlushPosition));
      SwitchTimeline(next);
      out := Done;
    }

    /** Receives one timeline after the other until an error. A controlled shutdown of the server is an
      * error too: it announces timeline 0. */
    method ReceiveXlogStream(script: Script, due: (nat, nat) -> bool) returns (out: Outcome, ghost hops: seq<Hop>)
      requires Prepared()
      requires AlwaysServed(cfg, script)
      modifies this
      ensures !out.Done?
      ensures var saga := SagaOf(walSegSz, script, due, old(timeline), old(startPos), old(startPos));
        && hops <= saga.hops && sent <= saga.sent
        && (reliable ==> hops == saga.hops && sent == saga.sent)
      ensures Hops(walSegSz, old(timeline), hops, timeline) && |hops| <= 0x8000_0000
      ensures out.Failed? ==> Valid() && phase.Stopped?
      ensures out.Exited? ==> Gone() || Ending()
      ensures RisingOn(first, sent)
    {
      ghost var saga := SagaOf(walSegSz, script, due, timeline, startPos, startPos);
      ChainRises(walSegSz, script, due, timeline, startPos, startPos);
      Begin();
      SetOut(saga, script, due);
      out, hops := FollowTimelines(script, due, saga);
      PrefixRises(first, sent, saga.sent);
    }

    method FollowTimelines(script: Script, due: (nat, nat) -> bool, ghost saga: Saga)
      returns (out: Outcome, ghost hops: seq<Hop>)
      requires OnTheWay(saga, [], script, due) && AlwaysServed(cfg, script)
      modifies this
      ensures !out.Done? && Hops(walSegSz, first, hops, timeline) && |hops| <= LAST_TIMELINE + 1
      ensures hops <= saga.hops && sent <= saga.sent && (reliable ==> hops == saga.hops && sent == saga.sent)
      ensures out.Failed? ==> Valid() && phase.Stopped?
      ensures out.Exited? ==> Gone() || Ending()
    {
      hops := [];
      while true
        invariant OnTheWay(saga, hops, script, due)
        decreases if timeline <= LAST_TIMELINE then LAST_TIMELINE + 1 - timeline else 0
      {
        out, hops := ReceiveNext(script, due, saga, hops);
        if !out.Done? { return; }
      }
    }

    /** One turn of the outer loop, after the given hops. */
    method ReceiveNext(script: Script, due: (nat, nat) -> bool, ghost saga: Saga, ghost hops: seq<Hop>)
      returns (out: Outcome, ghost more: seq<Hop>)
      requires OnTheWay(saga, hops, script, due)
      requires AlwaysServed(cfg, script)
      modifies this
      ensures out.Done? ==> OnTheWay(saga, more, script, due) && old(timeline) <= LAST_TIMELINE
      ensures out.Done? ==> old(timeline) < timeline
      ensures Hops(walSegSz, first, more, timeline) && |more| <= LAST_TIMELINE + 1
      ensures !out.Done? ==> more <= saga.hops && sent <= saga.sent
      ensures !out.Done? && reliable ==> more == saga.hops && sent == saga.sent
      ensures out.Failed? ==> Valid() && phase.Stopped?
      ensures out.Exited? ==> Gone() || Ending()
    {
      more := hops;
      ghost var hop, total := Hop(0, 0, 0, 0, 0), Whole(script(timeline, startPos), DueOn(due, timeline));
      ChainStep(walSegSz, script, due, timeline, startPos, lastFlushPosition, hops, sent);
      out, hop := ReceiveTimeline(script(timeline, startPos), DueOn(due, timeline), total);
      if out.Done? {
        HopsMore(walSegSz, first, hops, hop.fromTli, hop);
        more := hops + [hop];
      }
    }

    lemma SetOut(saga: Saga, script: Script, due: (nat, nat) -> bool)
      requires Primed() && sent == [] && timeline == first && lastFlushPosition == startPos
      requires saga == SagaOf(walSegSz, script, due, timeline, startPos, startPos)
      ensures OnTheWay(saga, [], script, due)
    {
      assert [] + saga.hops == saga.hops && [] + saga.sent == saga.sent;
    }

    /** The timeline ends with an announcement that is followed. */
    predicate Leads(tli: nat, total: Story) {
      tli <= LAST_TIMELINE && total.end.Some? && Followed(tli, total.end.value)
    }

    /** A timeline is about to start after the given hops. */
    ghost predicate OnTheWay(saga: Saga, hops: seq<Hop>, script: Script, due: (nat, nat) -> bool)
      reads this
    {
      && Primed() && Hops(walSegSz, first, hops, timeline)
      && first + |hops| <= timeline && |hops| <= LAST_TIMELINE + 1
      && Continues(saga, hops, script, due)
    }

    /** What has happened and the chain from here on make up the whole. */
    ghost predicate Continues(saga: Saga, hops: seq<Hop>, script: Script, due: (nat, nat) -> bool)
      requires walSegSz > 0
      reads this
    {
      var rest := SagaOf(walSegSz, script, due, timeline, startPos, lastFlushPosition);
      saga == Saga(hops + rest.hops, sent + rest.sent)
    }

    /** Between messages, on the first timeline: the write position of the open file is the segment offset of what
      * has been received, and the flush position lies within that segment; with no file open nothing is pending. */
    lemma FlushWindow()
      requires Valid() && Between(cfg, Snap()) && timeline == first
      ensures walfile.Wal? ==>
        walfile.currpos == blockPos % walSegSz && blockPos - walfile.currpos <= lastFlushPosition <= blockPos
      ensures walfile.NoFile? ==> lastFlushPosition == blockPos && blockPos % walSegSz == 0
    {
      Now();
      OffsetOfBlockPos();
    }

    /** On the first timeline everything below every flush position sent so far is on stable storage. */
    lemma SentIsDurable(st: Status)
      requires Valid() && timeline == first && st in sent
      ensures DurableTo(cfg, Snap(), st.flush)
    {
      Now();
    }
  }
}
