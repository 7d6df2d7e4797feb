/** The receive directory as a pure function of where the session started and how far it has received. */
module WalLayout {
  import opened Arith
  import opened Bytes
  import opened Disk
  import opened WalProtocol
  import opened WalSafety

  /** What the process sees of a file. */
  datatype View = View(name: Name, vol: seq<byte>)

  function ViewOf(f: SegFile): View { View(f.vname, f.vol) }

  /** The bytes under the write position of a partial file: those of an earlier session, or zeros. */
  function Tail(c: Cfg, base: Files, id: SegId): (t: seq<byte>)
    ensures |t| == c.w
  {
    var f := At(base, id);
    if f.vname.PartialName? && |f.vol| == c.w then f.vol else Zeros(c.w)
  }

  /** A session that started at segment start over directory base and has received everything up to
    * pos bytes of segment seg: earlier segments are final, at most one partial file holds the rest. */
  function Layout(c: Cfg, base: Files, tli: nat, start: nat, seg: nat, pos: nat, id: SegId): View
    requires pos <= c.w
  {
    if id.tli == tli && start <= id.seg < seg then View(FinalName, Slice(c, id, c.w))
    else if id == SegId(tli, seg) && pos > 0 then View(PartialName, Slice(c, id, pos) + Tail(c, base, id)[pos..])
    else ViewOf(At(base, id))
  }

  ghost predicate Others(c: Cfg, s: St, seg: nat) {
    forall id :: id != SegId(s.tli, seg) ==>
      ViewOf(At(s.files, id)) == Layout(c, s.base, s.tli, s.startSeg, seg, 0, id)
  }

  /** A partial file with pos received bytes is open, or has just been closed. */
  ghost predicate Tailed(c: Cfg, s: St, seg: nat, pos: nat) {
    Others(c, s, seg) && pos <= c.w && s.File(seg).vol == Slice(c, s.Id(seg), pos) + Tail(c, s.base, s.Id(seg))[pos..]
  }

  /** The directory is the layout of the position received. */
  ghost predicate Cut(c: Cfg, s: St) {
    c.w > 0 && forall id ::
      ViewOf(At(s.files, id)) == Layout(c, s.base, s.tli, s.startSeg, s.blockPos / c.w, s.blockPos % c.w, id)
  }

  /** The directory while a session is writing and closing its segments. */
  ghost predicate LaidOut(c: Cfg, s: St) {
    match s.phase
    case Idle(seg) => Others(c, s, seg) && ViewOf(s.File(seg)) == ViewOf(At(s.base, s.Id(seg)))
    case Creating(seg) => Others(c, s, seg) && Tail(c, s.base, s.Id(seg)) == Zeros(c.w)
    case Streaming(seg, pos) => Tailed(c, s, seg, pos)
    case Full(seg) => Others(c, s, seg)
    case FullSynced(seg) => Others(c, s, seg)
    case Renamed(seg) => Others(c, s, seg)
    case FinalSynced(seg) => Others(c, s, seg)
    case Parking(seg, eot) => eot ==> s.blockPos >= seg * c.w && Tailed(c, s, seg, s.blockPos - seg * c.w)
    case ParkSynced(seg, eot) => eot ==> s.blockPos >= seg * c.w && Tailed(c, s, seg, s.blockPos - seg * c.w)
    case Ended => Cut(c, s)
    case Stopped => true
    case Broken(_) => true
  }

  lemma OneFile(c: Cfg, s: St, seg: nat, g: SegFile)
    requires Others(c, s, seg)
    ensures Others(c, s.With(seg, g), seg)
  {
  }

  lemma OpenLaysOut(c: Cfg, s: St, s': St)
    requires DiskInv(c, s) && LaidOut(c, s) && (OpenExisting(c, s, s') || Create(c, s, s') || Extend(c, s, s'))
    ensures LaidOut(c, s')
  {
  }

  lemma WrittenTail(c: Cfg, id: SegId, f: SegFile, t: seq<byte>, pos: nat, k: nat)
    requires pos + k <= c.w == |t| && f.vol == Slice(c, id, pos) + t[pos..]
    ensures Written(c, id, f, pos, k).vol == Slice(c, id, pos + k) + t[pos + k..]
  {
  }

  lemma WriteLaysOut(c: Cfg, s: St, s': St, k: nat)
    requires LaidOut(c, s) && Write(c, s, s', k)
    ensures LaidOut(c, s')
  {
    var seg, pos := s.phase.seg, s.phase.pos;
    WrittenTail(c, s.Id(seg), s.File(seg), Tail(c, s.base, s.Id(seg)), pos, k);
    OneFile(c, s, seg, Written(c, s.Id(seg), s.File(seg), pos, k));
  }

  /** The segment just completed becomes one of the earlier ones. */
  lemma SyncDirLaysOut(c: Cfg, s: St, s': St)
    requires DiskInv(c, s) && LaidOut(c, s) && SyncDir(c, s, s') && s.stored == map[]
    ensures LaidOut(c, s')
  {
    var seg := s.phase.seg;
    HoldsIsSlice(c, s.Id(seg), s.File(seg).vol);
    assert ViewOf(s'.File(seg)) == View(FinalName, Slice(c, s.Id(seg), c.w));
    forall id | id != SegId(s.tli, seg + 1)
      ensures ViewOf(At(s'.files, id)) == Layout(c, s'.base, s'.tli, s'.startSeg, seg + 1, 0, id)
    {
      assert id != s.Id(seg) ==> ViewOf(At(s.files, id)) == Layout(c, s.base, s.tli, s.startSeg, seg, 0, id);
    }
  }

  ghost predicate SameViews(s: St, s': St) {
    && s'.tli == s.tli && s'.base == s.base && s'.startSeg == s.startSeg && s'.blockPos == s.blockPos
    && forall id :: ViewOf(At(s'.files, id)) == ViewOf(At(s.files, id))
  }

  /** The phase moves on within its segment, or stays. */
  predicate Onward(p: Phase, p': Phase) {
    || p' == p
    || (p'.Full? && p.Streaming? && p'.seg == p.seg)
    || (p'.FullSynced? && p.Full? && p'.seg == p.seg)
    || (p'.FinalSynced? && p.Renamed? && p'.seg == p.seg)
    || (p'.ParkSynced? && p.Parking? && p'.seg == p.seg && p'.eot == p.eot)
  }

  lemma OthersAlike(c: Cfg, s: St, s': St, seg: nat)
    requires Others(c, s, seg) && SameViews(s, s')
    ensures Others(c, s', seg)
  {
    forall id | id != SegId(s'.tli, seg)
      ensures ViewOf(At(s'.files, id)) == Layout(c, s'.base, s'.tli, s'.startSeg, seg, 0, id)
    {
      assert ViewOf(At(s.files, id)) == Layout(c, s.base, s.tli, s.startSeg, seg, 0, id);
    }
  }

  lemma CutAlike(c: Cfg, s: St, s': St)
    requires Cut(c, s) && SameViews(s, s')
    ensures Cut(c, s')
  {
  }

  lemma ViewsLaidOut(c: Cfg, s: St, s': St)
    requires LaidOut(c, s) && SameViews(s, s') && Onward(s.phase, s'.phase)
    ensures LaidOut(c, s')
  {
    if s.phase.Ended? {
      CutAlike(c, s, s');
    } else if !Over(s.phase) {
      OthersAlike(c, s, s', s.phase.seg);
      assert ViewOf(s'.File(s.phase.seg)) == ViewOf(s.File(s.phase.seg));
    }
  }

  /** Outside an orderly session there is nothing to show. */
  predicate Over(p: Phase) {
    p.Stopped? || p.Broken? || ((p.Parking? || p.ParkSynced?) && !p.eot)
  }

  lemma KernelLaysOut(c: Cfg, s: St, s': St)
    requires LaidOut(c, s) && Background(c, s, s')
    ensures LaidOut(c, s')
  {
    forall id ensures ViewOf(At(s'.files, id)) == ViewOf(At(s.files, id)) {
      assert WrittenBack(At(s.files, id), At(s'.files, id));
    }
    ViewsLaidOut(c, s, s');
  }

  lemma PhaseLaysOut(c: Cfg, s: St, s': St, e: Step)
    requires DiskInv(c, s) && LaidOut(c, s) && StepBy(c, s, s', e)
    requires e.DoSync? || e.DoReport? || e.DoCloseFull? || e.DoSyncFull? || e.DoSyncFinal? || e.DoSyncParked?
    ensures LaidOut(c, s')
  {
    ViewsLaidOut(c, s, s');
  }

  lemma EndLaysOut(c: Cfg, s: St, s': St, e: Step)
    requires DiskInv(c, s) && LaidOut(c, s) && StepBy(c, s, s', e)
    requires e.DoPark? || e.DoSyncDirParked? || e.DoEnd?
    ensures LaidOut(c, s')
  {
    if e.DoEnd? || (e.DoSyncDirParked? && s.phase.eot) {
      forall id { LaidOutView(c, s, id); }
    }
  }

  lemma BeginLaysOut(c: Cfg, s: St, s': St, r: nat)
    requires Restart(c, s, s', r)
    ensures LaidOut(c, s')
  {
  }

  lemma FailedIsOver(c: Cfg, s: St, s': St, e: Step)
    requires StepBy(c, s, s', e)
    requires e.FailSync? || e.FailClosedSync? || e.FailOther? || e.FailOpen? || e.MachineCrash? || e.LastDirSync?
    ensures Over(s'.phase)
  {
  }

  lemma StepLaysOut(c: Cfg, s: St, s': St, e: Step)
    requires DiskInv(c, s) && LaidOut(c, s) && StepBy(c, s, s', e) && s.stored == s'.stored == map[]
    ensures LaidOut(c, s')
  {
    if e.DoOpen? || e.DoCreate? || e.DoExtend? {
      OpenLaysOut(c, s, s');
    } else if e.DoWrite? {
      WriteLaysOut(c, s, s', e.k);
    } else if e.DoRename? {
      OneFile(c, s, s.phase.seg, s'.File(s.phase.seg));
    } else if e.DoSyncDir? {
      SyncDirLaysOut(c, s, s');
    } else if e.Kernel? {
      KernelLaysOut(c, s, s');
    } else if e.DoPark? || e.DoSyncDirParked? || e.DoEnd? {
      EndLaysOut(c, s, s', e);
    } else if e.Begin? {
      BeginLaysOut(c, s, s', e.r);
    } else if e.DoSync? || e.DoReport? || e.DoCloseFull? || e.DoSyncFull? || e.DoSyncFinal? || e.DoSyncParked? {
      PhaseLaysOut(c, s, s', e);
    } else if Uploading(e) {
      NothingUploaded(c, s, s', e);
    } else {
      FailedIsOver(c, s, s', e);
    }
  }

  lemma {:induction false} RunLaysOut(c: Cfg, run: seq<St>, i: nat)
    requires IsRun(c, run) && NoUploads(run) && i < |run|
    ensures DiskInv(c, run[i]) && LaidOut(c, run[i])
  {
    RunKeeps(c, run, i);
    if i > 0 {
      RunLaysOut(c, run, i - 1);
      assert RunStep(c, run, i);
      var e :| StepBy(c, run[i - 1], run[i], e);
      StepLaysOut(c, run[i - 1], run[i], e);
    }
  }

  /** A session between two messages: nothing open, or a partial file with at least one byte written. */
  predicate Between(c: Cfg, s: St) {
    s.phase.Idle? || (s.phase.Streaming? && 0 < s.phase.pos < c.w)
  }

  /** A session between two messages, closing its last file at the end of the stream, or past that end. */
  predicate InOrder(c: Cfg, s: St) {
    Between(c, s) || s.phase.Ended? || ((s.phase.Parking? || s.phase.ParkSynced?) && s.phase.eot)
  }

  lemma LaidOutView(c: Cfg, s: St, id: SegId)
    requires DiskInv(c, s) && LaidOut(c, s) && InOrder(c, s)
    ensures ViewOf(At(s.files, id)) == Layout(c, s.base, s.tli, s.startSeg, s.blockPos / c.w, s.blockPos % c.w, id)
  {
    if !s.phase.Ended? {
      var seg := s.phase.seg;
      DivModUnique(c.w, seg, s.blockPos - seg * c.w, s.blockPos);
      if id != s.Id(seg) {
        assert ViewOf(At(s.files, id)) == Layout(c, s.base, s.tli, s.startSeg, seg, 0, id);
      }
    }
  }

  /** The refinement: as long as nothing is uploaded from it, between messages and after the end of the stream
    * the directory depends only on where the session started and on the position received, not on how the bytes
    * were cut into messages, synced or reported. */
  lemma DirectoryIsCutStream(c: Cfg, run: seq<St>, i: nat, id: SegId)
    requires IsRun(c, run) && NoUploads(run) && i < |run| && InOrder(c, run[i])
    ensures c.w > 0
    ensures var s := run[i];
      ViewOf(At(s.files, id)) == Layout(c, s.base, s.tli, s.startSeg, s.blockPos / c.w, s.blockPos % c.w, id)
  {
    RunLaysOut(c, run, i);
    LaidOutView(c, run[i], id);
  }

  /** Two receptions of the same bytes over the same directory leave the same directory. */
  lemma ChoppingIsInvisible(c: Cfg, run: seq<St>, i: nat, run': seq<St>, i': nat, id: SegId)
    requires IsRun(c, run) && NoUploads(run) && i < |run| && InOrder(c, run[i])
    requires IsRun(c, run') && NoUploads(run') && i' < |run'| && InOrder(c, run'[i'])
    requires run[i].base == run'[i'].base && run[i].tli == run'[i'].tli && run[i].startSeg == run'[i'].startSeg
    requires run[i].blockPos == run'[i'].blockPos
    ensures ViewOf(At(run[i].files, id)) == ViewOf(At(run'[i'].files, id))
  {
    DirectoryIsCutStream(c, run, i, id);
    DirectoryIsCutStream(c, run', i', id);
  }

  /** Over an empty directory: the received segments are final, the last incomplete one is the only
    * partial file, and there is nothing else. */
  lemma FreshDirectory(c: Cfg, run: seq<St>, i: nat, seg: nat)
    requires IsRun(c, run) && NoUploads(run) && i < |run| && InOrder(c, run[i]) && run[i].base == map[]
    ensures c.w > 0
    ensures var s, f := run[i], run[i].File(seg);
      && (f.vname.FinalName? <==> s.startSeg <= seg < s.blockPos / c.w)
      && (f.vname.PartialName? <==> seg == s.blockPos / c.w && s.blockPos % c.w > 0)
      && (f.vname.PartialName? ==> f.vol == Slice(c, s.Id(seg), s.blockPos % c.w) + Zeros(c.w)[s.blockPos % c.w..])
  {
    DirectoryIsCutStream(c, run, i, run[i].Id(seg));
  }

  /** At every moment of every run a final name stands for exactly one segment of the server's bytes,
    * and so it does after a crash. */
  lemma FinalNamesAreExact(c: Cfg, run: seq<St>, i: nat, id: SegId)
    requires IsRun(c, run) && i < |run|
    ensures var f := At(run[i].files, id);
      f.vname.FinalName? || f.dname.FinalName? ==> f.vol == f.dur == Slice(c, id, c.w)
  {
    RunKeeps(c, run, i);
    assert CleanFile(c, id, At(run[i].files, id));
  }
}
