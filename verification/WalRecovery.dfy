/** Crash recovery: which segments a restart can skip, and exactly when. */
module WalRecovery {
  import opened Bytes
  import opened Disk
  import opened WalProtocol
  import opened WalSafety

  // ---- a restart position always exists ----

  lemma {:induction false} BestAmong(c: Cfg, s: St, keys: set<SegId>, b: nat) returns (top: nat)
    requires Entry(c, At(s.files, SegId(s.tli, b)))
    ensures Entry(c, At(s.files, SegId(s.tli, top)))
    ensures forall a: nat :: SegId(s.tli, a) in keys && Entry(c, At(s.files, SegId(s.tli, a))) ==> a <= top
    ensures b <= top
    decreases |keys|
  {
    if keys == {} {
      top := b;
    } else {
      var id :| id in keys;
      var better := id.tli == s.tli && Entry(c, At(s.files, id)) && id.seg > b;
      top := BestAmong(c, s, keys - {id}, if better then id.seg else b);
    }
  }

  lemma RestartExists(c: Cfg, s: St, b: nat) returns (r: nat)
    requires Entry(c, At(s.files, SegId(s.tli, b)))
    ensures RestartAt(c, s, r) && b <= r && (s.File(b).vname.FinalName? ==> b < r)
  {
    var top := BestAmong(c, s, s.files.Keys, b);
    assert Best(c, s, top);
    r := if s.File(top).vname.PartialName? then top else top + 1;
  }

  // ---- no gap ----

  /** All segments from the origin up to r are complete final files with the server's bytes. */
  ghost predicate Gapless(c: Cfg, s: St, r: nat) {
    forall a: nat :: s.origin <= a < r ==>
      var f := At(s.files, SegId(s.tli, a));
      f.vname.FinalName? && f.dname.FinalName? && f.vol == f.dur == Slice(c, SegId(s.tli, a), c.w)
  }

  /** Whatever a machine crash now does, the restart position skips no segment. */
  ghost predicate GapSafe(c: Cfg, s: St) {
    forall crashed, r :: Crashed(s.files, crashed) && RestartAt(c, s.(files := crashed), r)
      ==> Gapless(c, s.(files := crashed), r)
  }

  /** Below any entry that may survive, every rename is durable. */
  ghost predicate ChainSettled(s: St) {
    forall a: nat, b: nat :: s.origin <= a < b && Named(At(s.files, SegId(s.tli, b)))
      ==> At(s.files, SegId(s.tli, a)).dname.FinalName?
  }

  /** The newest segment in the directory is where, or right before where, the session resumes. */
  ghost predicate ByEntry(c: Cfg, s: St, r: nat) {
    || (Best(c, s, r) && s.File(r).vname.PartialName?)
    || (r > 0 && Best(c, s, r - 1) && s.File(r - 1).vname.FinalName?)
  }

  lemma OriginHasEntry(c: Cfg, s: St, r: nat)
    requires c.w > 0 && Contents(c, s.files) && DurableTo(c, s, r * c.w) && s.stored == map[] && r > s.origin
    ensures Entry(c, At(s.files, SegId(s.tli, s.origin)))
  {
    SafeToPosition(c, s, r);
    var id := SegId(s.tli, s.origin);
    assert FullDurable(c, id, At(s.files, id)) && CleanFile(c, id, At(s.files, id));
  }

  /** Without uploads the directory is empty only before anything has been acknowledged. */
  lemma EntryDecides(c: Cfg, s: St, r: nat)
    requires c.w > 0 && Contents(c, s.files) && DurableTo(c, s, s.acked) && s.stored == map[]
    requires RestartAt(c, s, r) && r > s.origin
    ensures ByEntry(c, s, r)
  {
    if r * c.w <= s.acked { OriginHasEntry(c, s, r); }
  }

  lemma SettledGapless(c: Cfg, s: St, crashed: Files, r: nat)
    requires DiskInv(c, s) && FlushInv(c, s) && s.stored == map[] && ChainSettled(s)
    requires Crashed(s.files, crashed) && RestartAt(c, s.(files := crashed), r)
    ensures Gapless(c, s.(files := crashed), r)
  {
    var t := s.(files := crashed, phase := Stopped);
    CrashKeeps(c, s, t);
    DurableKept(c, s, t, s.acked);
    RestartPlace(c, t, r);
    if r > s.origin { EntryDecides(c, t, r); }
    forall a: nat | s.origin <= a < r
      ensures var f := At(crashed, SegId(s.tli, a));
        f.vname.FinalName? && f.dname.FinalName? && f.vol == f.dur == Slice(c, SegId(s.tli, a), c.w)
    {
      var id := SegId(s.tli, a);
      assert CleanFile(c, id, At(crashed, id)) && FullDurable(c, id, At(crashed, id));
      HoldsIsSlice(c, id, At(crashed, id).vol);
      HoldsIsSlice(c, id, At(crashed, id).dur);
      FinalBelow(c, s, crashed, r, a);
    }
  }

  lemma FinalBelow(c: Cfg, s: St, crashed: Files, r: nat, a: nat)
    requires DiskInv(c, s) && s.stored == map[] && ChainSettled(s) && s.origin <= a < r
    requires Crashed(s.files, crashed) && ByEntry(c, s.(files := crashed), r)
    ensures At(crashed, SegId(s.tli, a)).vname.FinalName? && At(crashed, SegId(s.tli, a)).dname.FinalName?
  {
  }

  function Durably(f: SegFile): SegFile { SegFile(f.dname, f.dname, f.dur, f.dur) }

  /** A crash that settles the files in kept as given there, and all others as they durably are. */
  function CrashTo(files: Files, kept: Files): Files {
    map id | id in files :: if id in kept then kept[id] else Durably(files[id])
  }

  lemma CrashedTo(files: Files, kept: Files)
    requires forall id :: id in kept ==> id in files && Settled(files[id], kept[id])
    ensures Crashed(files, CrashTo(files, kept))
    ensures forall id :: At(CrashTo(files, kept), id) == if id in kept then kept[id] else Durably(At(files, id))
  {
  }

  /** The crash that keeps b's entry but forgets the rename of a. */
  lemma UnsettledGap(c: Cfg, s: St, a: nat, b: nat)
    requires DiskInv(c, s) && s.origin <= a < b && Named(s.File(b)) && !s.File(a).dname.FinalName?
    ensures !GapSafe(c, s)
  {
    var idb, fb := SegId(s.tli, b), s.File(b);
    assert CleanFile(c, idb, fb);
    var name := if fb.vname.NoName? then fb.dname else fb.vname;
    var kept := map[idb := SegFile(name, name, fb.dur, fb.dur)];
    CrashedTo(s.files, kept);
    var t := s.(files := CrashTo(s.files, kept));
    assert !At(t.files, SegId(t.tli, a)).vname.FinalName?;
    var r := RestartExists(c, t, b);
    assert !Gapless(c, t, r);
  }

  /** Exactly when: a crash can open a gap if and only if some earlier rename is not yet durable. */
  lemma GapSafeIffSettled(c: Cfg, s: St)
    requires DiskInv(c, s) && FlushInv(c, s) && s.stored == map[]
    ensures GapSafe(c, s) <==> ChainSettled(s)
  {
    if ChainSettled(s) {
      forall crashed, r | Crashed(s.files, crashed) && RestartAt(c, s.(files := crashed), r)
        ensures Gapless(c, s.(files := crashed), r)
      {
        SettledGapless(c, s, crashed, r);
      }
    } else {
      var a: nat, b: nat :| s.origin <= a < b && Named(At(s.files, SegId(s.tli, b)))
        && !At(s.files, SegId(s.tli, a)).dname.FinalName?;
      UnsettledGap(c, s, a, b);
    }
  }

  // ---- runs in which every session starts from a settled directory ----

  /** If the newest segment is final, its rename is durable. */
  ghost predicate TopSettled(c: Cfg, s: St) {
    forall b: nat :: Best(c, s, b) && At(s.files, SegId(s.tli, b)).vname.FinalName?
      ==> At(s.files, SegId(s.tli, b)).dname.FinalName?
  }

  ghost predicate Orderly(c: Cfg, s: St, s': St) {
    Begins(c, s, s') ==> TopSettled(c, s)
  }

  /** Every session starts from a settled directory, and nothing is uploaded from it. */
  ghost predicate OrderlyRun(c: Cfg, run: seq<St>) {
    && IsRun(c, run)
    && (forall i :: 0 < i < |run| ==> Orderly(c, run[i - 1], run[i]))
    && NoUploads(run)
  }

  /** Both the directory fsync that ends a session and a machine crash settle the directory. */
  lemma SettlingSteps(c: Cfg, s: St, s': St)
    requires SessionDirSync(c, s, s') || Crash(c, s, s')
    ensures TopSettled(c, s')
  {
  }

  ghost predicate FinalsBelow(s: St, seg: nat) {
    forall a: nat :: s.origin <= a < seg ==> At(s.files, SegId(s.tli, a)).dname.FinalName?
  }

  ghost predicate Chain(c: Cfg, s: St) {
    && s.stored == map[] && ChainSettled(s)
    && (Active(s.phase) ==> FinalsBelow(s, s.phase.seg))
    && Acknowledged(c, s, s.acked) && Acknowledged(c, s, s.lastFlush)
  }

  /** A segment is reported to its end only when its rename is durable. */
  ghost predicate Acknowledged(c: Cfg, s: St, n: nat) {
    forall a: nat :: s.origin <= a && (a + 1) * c.w <= n ==> At(s.files, SegId(s.tli, a)).dname.FinalName?
  }

  lemma AcknowledgedTo(c: Cfg, s: St, seg: nat, pos: nat)
    requires pos < c.w && FinalsBelow(s, seg)
    ensures Acknowledged(c, s, seg * c.w + pos)
  {
  }

  lemma ChainNames(c: Cfg, s: St, s': St)
    requires Chain(c, s) && Frame(c, s, s')
    ensures ChainSettled(s')
    ensures Acknowledged(c, s', s.acked) && Acknowledged(c, s', s.lastFlush)
    ensures Active(s.phase) ==> FinalsBelow(s', s.phase.seg)
  {
  }

  lemma ChainSync(c: Cfg, s: St, s': St)
    requires DiskInv(c, s) && Chain(c, s) && Sync(c, s, s')
    ensures Chain(c, s')
  {
    SyncKeeps(c, s, s');
    ChainNames(c, s, s');
    AcknowledgedTo(c, s', s.phase.seg, s.phase.pos);
  }

  lemma ChainSyncDir(c: Cfg, s: St, s': St)
    requires DiskInv(c, s) && Chain(c, s) && SyncDir(c, s, s')
    ensures Chain(c, s')
  {
    SyncDirKeeps(c, s, s');
    ChainNames(c, s, s');
    var seg := s.phase.seg;
    assert At(s'.files, SegId(s.tli, seg)).dname.FinalName?;
    AcknowledgedTo(c, s', seg + 1, 0);
  }

  lemma ChainSyncDirParked(c: Cfg, s: St, s': St)
    requires DiskInv(c, s) && Chain(c, s) && SyncDirParked(c, s, s')
    ensures Chain(c, s')
  {
    SyncDirParkedKeeps(c, s, s');
    ChainNames(c, s, s');
    if s.phase.eot { AcknowledgedTo(c, s', s.phase.seg, s.blockPos - s.phase.seg * c.w); }
  }

  lemma ChainQuiet(c: Cfg, s: St, s': St, e: Step)
    requires DiskInv(c, s) && Chain(c, s) && StepBy(c, s, s', e) && Quiet(e)
    ensures Chain(c, s')
  {
    QuietKeeps(c, s, s', e);
    ChainNames(c, s, s');
  }

  lemma ChainUnlink(c: Cfg, s: St, s': St, g: SegFile)
    requires DiskInv(c, s) && FlushInv(c, s) && Chain(c, s) && UnlinkOnOpen(c, s, s', g) && Unneeded(c, s)
    ensures Chain(c, s')
  {
    UnlinkKeeps(c, s, s', g);
    AcknowledgedTo(c, s', s.phase.seg, 0);
  }

  /** In a settled directory nothing lies behind a partial file, so that only acknowledged bytes of its own
    * segment can make it needed. */
  lemma UnneededIfUnacknowledged(c: Cfg, s: St)
    requires DiskInv(c, s) && Chain(c, s) && s.phase.Idle? && s.File(s.phase.seg).vname.PartialName?
    ensures Unneeded(c, s) <==> s.acked <= s.phase.seg * c.w
  {
    forall b: nat | b > s.phase.seg ensures !Named(At(s.files, SegId(s.tli, b))) {
      assert CleanFile(c, s.Id(s.phase.seg), s.File(s.phase.seg));
    }
  }

  lemma RestartChain(c: Cfg, s: St, s': St, r: nat)
    requires DiskInv(c, s) && FlushInv(c, s) && Chain(c, s) && Restart(c, s, s', r) && TopSettled(c, s)
    ensures Chain(c, s')
  {
    RestartPlace(c, s, r);
    if r > s.origin { EntryDecides(c, s, r); }
    forall a: nat | s.origin <= a < r ensures At(s.files, SegId(s.tli, a)).dname.FinalName? {
      var top := if s.File(r).vname.PartialName? then r else r - 1;
      if a < top { assert Named(At(s.files, SegId(s.tli, top))); }
    }
    AcknowledgedTo(c, s', r, 0);
  }

  lemma UnsettledStart(c: Cfg, s: St, s1: St, s2: St, r: nat, b: nat)
    requires DiskInv(c, s) && Restart(c, s, s1, r) && (Create(c, s1, s2) || OpenExisting(c, s1, s2))
    requires Best(c, s, b) && s.File(b).vname.FinalName? && !s.File(b).dname.FinalName?
    ensures !ChainSettled(s2)
  {
    assert r == b + 1 && Named(s2.File(r));
    assert Named(At(s.files, SegId(s.tli, b)));
    assert s2.File(b) == s.File(b);
  }

  /** Exactly when a session may open its first segment: a crash right afterwards can open a gap if and only if
    * the session started from an unsettled directory. */
  lemma OpeningIsSafeExactly(c: Cfg, s: St, s1: St, s2: St, r: nat)
    requires DiskInv(c, s) && FlushInv(c, s) && Chain(c, s) && Restart(c, s, s1, r)
    requires Create(c, s1, s2) || OpenExisting(c, s1, s2)
    ensures GapSafe(c, s2) <==> TopSettled(c, s)
  {
    var e := if Create(c, s1, s2) then DoCreate else DoOpen;
    OpenedInv(c, s, s1, s2, r, e);
    GapSafeIffSettled(c, s2);
    if TopSettled(c, s) {
      OpenedChain(c, s, s1, s2, r, e);
    } else {
      var b: nat :| Best(c, s, b) && s.File(b).vname.FinalName? && !s.File(b).dname.FinalName?;
      UnsettledStart(c, s, s1, s2, r, b);
    }
  }

  lemma OpenedChain(c: Cfg, s: St, s1: St, s2: St, r: nat, e: Step)
    requires DiskInv(c, s) && FlushInv(c, s) && Chain(c, s) && Restart(c, s, s1, r) && TopSettled(c, s)
    requires (e.DoCreate? || e.DoOpen?) && StepBy(c, s1, s2, e)
    ensures Chain(c, s2)
  {
    RestartChain(c, s, s1, r);
    RestartKeeps(c, s, s1, r);
    ChainQuiet(c, s1, s2, e);
  }

  lemma OpenedInv(c: Cfg, s: St, s1: St, s2: St, r: nat, e: Step)
    requires DiskInv(c, s) && FlushInv(c, s) && Restart(c, s, s1, r)
    requires (e.DoCreate? || e.DoOpen?) && StepBy(c, s1, s2, e)
    ensures DiskInv(c, s2) && FlushInv(c, s2) && s2.stored == s.stored
  {
    RestartFlushes(c, s, s1, r);
    QuietKeeps(c, s1, s2, e);
    QuietFlushes(c, s1, s2, e);
  }

  lemma OrderlyStep(c: Cfg, s: St, s': St, e: Step)
    requires DiskInv(c, s) && FlushInv(c, s) && Chain(c, s) && StepBy(c, s, s', e) && Orderly(c, s, s')
    requires s'.stored == map[]
    ensures Chain(c, s')
  {
    if e.DoSync? {
      ChainSync(c, s, s');
    } else if e.DoSyncDir? {
      ChainSyncDir(c, s, s');
    } else if e.DoSyncDirParked? {
      ChainSyncDirParked(c, s, s');
    } else if e.FailOpen? {
      ChainUnlink(c, s, s', e.g);
    } else if e.Begin? {
      RestartChain(c, s, s', e.r);
    } else if Uploading(e) {
      NothingUploaded(c, s, s', e);
    } else {
      ChainQuiet(c, s, s', e);
    }
  }

  lemma {:induction false} OrderlyRunKeeps(c: Cfg, run: seq<St>, i: nat)
    requires OrderlyRun(c, run) && i < |run|
    ensures DiskInv(c, run[i]) && FlushInv(c, run[i]) && Chain(c, run[i])
  {
    RunKeeps(c, run, i);
    if i == 0 {
      AcknowledgedTo(c, run[0], run[0].origin, 0);
    } else {
      OrderlyRunKeeps(c, run, i - 1);
      assert RunStep(c, run, i) && Orderly(c, run[i - 1], run[i]);
      var e :| StepBy(c, run[i - 1], run[i], e);
      OrderlyStep(c, run[i - 1], run[i], e);
    }
  }

  /** Gap-free restart: crash the machine at any moment of a run whose sessions start from a settled
    * directory. Every segment before the restart position is a complete final file, and less than one
    * segment of acknowledged data is requested again. */
  lemma RestartSkipsNothing(c: Cfg, run: seq<St>, i: nat, crashed: Files, r: nat)
    requires OrderlyRun(c, run) && i < |run|
    requires Crashed(run[i].files, crashed) && RestartAt(c, run[i].(files := crashed), r)
    ensures Gapless(c, run[i].(files := crashed), r)
    ensures run[i].origin <= r && run[i].acked < (r + 1) * c.w
  {
    var s := run[i];
    OrderlyRunKeeps(c, run, i);
    GapSafeIffSettled(c, s);
    var t := s.(files := crashed, phase := Stopped);
    CrashKeeps(c, s, t);
    DurableKept(c, s, t, s.acked);
    RestartPlace(c, t, r);
    var id := SegId(s.tli, r);
    assert Settled(At(s.files, id), At(crashed, id)) && CleanFile(c, id, At(s.files, id));
    assert (r + 1) * c.w <= s.acked ==> At(s.files, id).dname.FinalName?;
  }

  // ---- how much durable data a restart requests again ----

  /** In every run, with uploads and however its sessions start: crash the machine at any moment. Every segment
    * before the restart position is in the archive or on stable storage in full, under some name. */
  lemma RestartIsCovered(c: Cfg, run: seq<St>, i: nat, crashed: Files, r: nat)
    requires IsRun(c, run) && i < |run|
    requires Crashed(run[i].files, crashed) && RestartAt(c, run[i].(files := crashed), r)
    ensures run[i].origin <= r && SafeBelow(c, run[i].(files := crashed), r)
  {
    RunKeeps(c, run, i);
    var t := run[i].(files := crashed, phase := Stopped);
    CrashKeeps(c, run[i], t);
    DurableKept(c, run[i], t, t.acked);
    RestartPlace(c, t, r);
  }

  /** Nothing after the restart position is visible: at most one segment of durable data is received again. */
  lemma OneSegmentAgain(c: Cfg, run: seq<St>, i: nat, crashed: Files, r: nat, b: nat)
    requires IsRun(c, run) && i < |run| && b > r
    requires Crashed(run[i].files, crashed) && RestartAt(c, run[i].(files := crashed), r)
    ensures At(crashed, SegId(run[i].tli, b)).vname.NoName?
    ensures Repeated(c, crashed, SegId(run[i].tli, b)) == {}
  {
    assert Settled(At(run[i].files, SegId(run[i].tli, b)), At(crashed, SegId(run[i].tli, b)));
    RunKeeps(c, run, i);
    var t := run[i].(files := crashed, phase := Stopped);
    CrashKeeps(c, run[i], t);
    DurableKept(c, run[i], t, t.acked);
    RestartPlace(c, t, r);
  }

  /** Offsets at which the segment's durable copy already has the server's byte. */
  function Repeated(c: Cfg, files: Files, id: SegId): set<nat> {
    var f := At(files, id);
    set off: nat | off < c.w && !f.dname.NoName? && off < |f.dur| && f.dur[off] == WalByte(c, id, off)
  }

  ghost predicate Whole(c: Cfg, files: Files, id: SegId) {
    !At(files, id).dname.NoName? && Holds(c, id, At(files, id).dur, c.w)
  }

  lemma {:induction false} BoundedSet(xs: set<nat>, n: nat)
    requires forall x :: x in xs ==> x < n
    ensures |xs| <= n && (|xs| == n <==> forall x: nat :: x < n ==> x in xs)
  {
    if n == 0 {
      assert xs == {};
    } else {
      var rest := xs - {n - 1};
      BoundedSet(rest, n - 1);
      if n - 1 in xs {
        assert xs == rest + {n - 1};
      } else {
        assert xs == rest;
      }
    }
  }

  lemma RepeatedWhole(c: Cfg, files: Files, id: SegId)
    requires c.w > 0 && Clean(c, id, At(files, id).dur)
    ensures |Repeated(c, files, id)| < c.w <==> !Whole(c, files, id)
  {
    BoundedSet(Repeated(c, files, id), c.w);
    if forall x: nat :: x < c.w ==> x in Repeated(c, files, id) {
      assert 0 in Repeated(c, files, id) && c.w - 1 in Repeated(c, files, id);
      forall x: nat | x < c.w ensures At(files, id).dur[x] == WalByte(c, id, x) { assert x in Repeated(c, files, id); }
    }
  }

  /** Whatever crash happens now, a restart receives less than a segment of durable bytes again. */
  ghost predicate RepeatsLess(c: Cfg, s: St) {
    forall crashed, r :: Crashed(s.files, crashed) && RestartAt(c, s.(files := crashed), r)
      ==> |Repeated(c, crashed, SegId(s.tli, r))| < c.w
  }

  ghost predicate SomeCopy(c: Cfg, id: SegId, f: SegFile, off: nat) {
    || (off < |f.dur| && f.dur[off] == WalByte(c, id, off))
    || (off < |f.vol| && f.vol[off] == WalByte(c, id, off))
  }

  /** The file may come out of a crash complete and without its final name. */
  ghost predicate MayBeWhole(c: Cfg, id: SegId, f: SegFile) {
    Named(f) && !f.dname.FinalName? && forall off: nat :: off < c.w ==> SomeCopy(c, id, f, off)
  }

  /** Every named segment whose rename is not durable lacks some byte in both copies. */
  ghost predicate AllIncomplete(c: Cfg, s: St) {
    forall a: nat :: !MayBeWhole(c, SegId(s.tli, a), At(s.files, SegId(s.tli, a)))
  }

  lemma WholeWasPossible(c: Cfg, s: St, crashed: Files, r: nat)
    requires DiskInv(c, s) && FlushInv(c, s) && Crashed(s.files, crashed) && RestartAt(c, s.(files := crashed), r)
    requires Whole(c, crashed, SegId(s.tli, r))
    ensures MayBeWhole(c, SegId(s.tli, r), At(s.files, SegId(s.tli, r)))
  {
    var t := s.(files := crashed, phase := Stopped);
    CrashKeeps(c, s, t);
    DurableKept(c, s, t, s.acked);
    RestartPlace(c, t, r);
    var id := SegId(s.tli, r);
    var f, g := At(s.files, id), At(crashed, id);
    assert CleanFile(c, id, f) && Settled(f, g);
    forall off: nat | off < c.w ensures SomeCopy(c, id, f, off) {
      assert g.dur[off] == ByteAt(f.dur, off) || g.dur[off] == ByteAt(f.vol, off);
    }
  }

  /** The best the disk can do: of every byte the copy that is the server's. */
  function BestOf(c: Cfg, id: SegId, f: SegFile): (m: seq<byte>)
    ensures |m| == c.w
  {
    seq(c.w, i requires 0 <= i < c.w =>
      if i < |f.dur| && f.dur[i] == WalByte(c, id, i) then f.dur[i] else ByteAt(f.vol, i))
  }

  /** The crash that leaves a complete segment under its partial name. */
  lemma WholeCrash(c: Cfg, s: St, a: nat) returns (crashed: Files)
    requires DiskInv(c, s) && ChainSettled(s) && MayBeWhole(c, SegId(s.tli, a), At(s.files, SegId(s.tli, a)))
    ensures Crashed(s.files, crashed) && RestartAt(c, s.(files := crashed), a) && Whole(c, crashed, SegId(s.tli, a))
  {
    var ida := SegId(s.tli, a);
    var f := At(s.files, ida);
    assert CleanFile(c, ida, f) && SomeCopy(c, ida, f, 0);
    var m := BestOf(c, ida, f);
    assert Holds(c, ida, m, c.w) by {
      forall off: nat | off < c.w ensures m[off] == WalByte(c, ida, off) { assert SomeCopy(c, ida, f, off); }
    }
    var kept := map[ida := SegFile(PartialName, PartialName, m, m)];
    CrashedTo(s.files, kept);
    crashed := CrashTo(s.files, kept);
    OnlyTopUnsettled(s, a);
    assert Best(c, s.(files := crashed), a);
  }

  /** In a settled directory no segment after one without a durable final name has an entry. */
  lemma OnlyTopUnsettled(s: St, a: nat)
    requires ChainSettled(s) && s.origin <= a && !At(s.files, SegId(s.tli, a)).dname.FinalName?
    ensures forall b: nat :: b > a ==> !Named(At(s.files, SegId(s.tli, b)))
  {
  }

  /** Exactly when: every crash and restart receives less than a segment of durable bytes again if and only if
    * no segment can come out of a crash complete but without its final name. */
  lemma RepeatsLessExactly(c: Cfg, run: seq<St>, i: nat)
    requires OrderlyRun(c, run) && i < |run|
    ensures RepeatsLess(c, run[i]) <==> AllIncomplete(c, run[i])
  {
    var s := run[i];
    OrderlyRunKeeps(c, run, i);
    if AllIncomplete(c, s) {
      forall crashed, r | Crashed(s.files, crashed) && RestartAt(c, s.(files := crashed), r)
        ensures |Repeated(c, crashed, SegId(s.tli, r))| < c.w
      {
        if Whole(c, crashed, SegId(s.tli, r)) { WholeWasPossible(c, s, crashed, r); }
        CrashedIsClean(c, s, crashed, SegId(s.tli, r));
        RepeatedWhole(c, crashed, SegId(s.tli, r));
      }
    } else {
      var a: nat :| MayBeWhole(c, SegId(s.tli, a), At(s.files, SegId(s.tli, a)));
      var crashed := WholeCrash(c, s, a);
      CrashedIsClean(c, s, crashed, SegId(s.tli, a));
      RepeatedWhole(c, crashed, SegId(s.tli, a));
    }
  }

  lemma CrashedIsClean(c: Cfg, s: St, crashed: Files, id: SegId)
    requires DiskInv(c, s) && Crashed(s.files, crashed)
    ensures Clean(c, id, At(crashed, id).dur)
  {
    assert CleanFile(c, id, At(s.files, id)) && Settled(At(s.files, id), At(crashed, id));
  }

  // ---- runs that reach the limits of the guarantees ----

  lemma RunExtends(c: Cfg, run: seq<St>, s: St, e: Step)
    requires OrderlyRun(c, run) && StepBy(c, run[|run| - 1], s, e) && (e.Begin? ==> TopSettled(c, run[|run| - 1]))
    requires !e.Begin? ==> !run[|run| - 1].phase.Stopped? && !run[|run| - 1].phase.Ended?
    requires s.stored == map[]
    ensures OrderlyRun(c, run + [s])
  {
    var more := run + [s];
    forall i: nat | 0 < i < |more| ensures RunStep(c, more, i) && Orderly(c, more[i - 1], more[i]) {
      if i < |run| { assert RunStep(c, run, i) && Orderly(c, run[i - 1], run[i]); }
    }
  }

  /** The first session has opened its first segment. */
  lemma FirstOpened(c: Cfg) returns (run: seq<St>)
    requires c.w > 0
    ensures OrderlyRun(c, run)
    ensures var f := SegFile(PartialName, NoName, Zeros(c.w), []);
      run[|run| - 1] == St(map[SegId(1, 0) := f], 1, 0, map[], 0, Streaming(0, 0), 0, 0, 0, map[])
  {
    var s0 := St(map[], 1, 0, map[], 0, Stopped, 0, 0, 0, map[]);
    run := [s0];
    var s1 := s0.(phase := Idle(0));
    assert RestartAt(c, s0, 0) && OnlyTimeline(s0) && StepBy(c, s0, s1, Begin(0));
    RunExtends(c, run, s1, Begin(0));
    run := run + [s1];
    var s2 := s1.With(0, SegFile(PartialName, NoName, [], [])).(phase := Creating(0));
    assert StepBy(c, s1, s2, DoCreate);
    RunExtends(c, run, s2, DoCreate);
    run := run + [s2];
    var s3 := s2.With(0, SegFile(PartialName, NoName, Zeros(c.w), [])).(phase := Streaming(0, 0));
    assert StepBy(c, s2, s3, DoExtend);
    RunExtends(c, run, s3, DoExtend);
    run := run + [s3];
    assert s3.files == map[SegId(1, 0) := SegFile(PartialName, NoName, Zeros(c.w), [])];
  }

  /** The first segment has been received completely and fsynced under its partial name. */
  lemma FirstSynced(c: Cfg) returns (run: seq<St>)
    requires c.w > 0
    ensures OrderlyRun(c, run)
    ensures var m := Slice(c, SegId(1, 0), c.w);
      run[|run| - 1] ==
        St(map[SegId(1, 0) := SegFile(PartialName, PartialName, m, m)], 1, 0, map[], 0, FullSynced(0), c.w, 0, 0, map[])
  {
    run := FirstOpened(c);
    var s3 := run[|run| - 1];
    var id, m := SegId(1, 0), Slice(c, SegId(1, 0), c.w);
    var s4 := s3.With(0, SegFile(PartialName, NoName, m, [])).(phase := Streaming(0, c.w), blockPos := c.w);
    assert Written(c, id, s3.File(0), 0, c.w).vol == m;
    assert StepBy(c, s3, s4, DoWrite(c.w));
    RunExtends(c, run, s4, DoWrite(c.w));
    run := run + [s4];
    var s5 := s4.(phase := Full(0));
    assert StepBy(c, s4, s5, DoCloseFull);
    RunExtends(c, run, s5, DoCloseFull);
    run := run + [s5];
    var s6 := s5.With(0, SegFile(PartialName, PartialName, m, m)).(phase := FullSynced(0));
    assert StepBy(c, s5, s6, DoSyncFull);
    RunExtends(c, run, s6, DoSyncFull);
    run := run + [s6];
    assert s6.files == map[id := SegFile(PartialName, PartialName, m, m)];
  }

  /** A crash right before the rename requests a whole durable segment again. */
  lemma WholeSegmentRequestedAgain(c: Cfg) returns (run: seq<St>)
    requires c.w > 0
    ensures OrderlyRun(c, run) && !RepeatsLess(c, run[|run| - 1])
  {
    run := FirstSynced(c);
    var s := run[|run| - 1];
    assert forall off: nat :: off < c.w ==> SomeCopy(c, SegId(1, 0), s.File(0), off);
    assert MayBeWhole(c, SegId(s.tli, 0), At(s.files, SegId(s.tli, 0)));
    RepeatsLessExactly(c, run, |run| - 1);
  }

  /** The segment has also been renamed; then the process dies before the directory fsync. */
  lemma RenamedThenKilled(c: Cfg) returns (run: seq<St>)
    requires c.w > 0
    ensures OrderlyRun(c, run) && run[|run| - 1].phase.Stopped?
    ensures var m := Slice(c, SegId(1, 0), c.w);
      run[|run| - 1] ==
        St(map[SegId(1, 0) := SegFile(FinalName, PartialName, m, m)], 1, 0, map[], 0, Stopped, c.w, 0, 0, map[])
  {
    run := FirstSynced(c);
    var s6, m := run[|run| - 1], Slice(c, SegId(1, 0), c.w);
    var s7 := s6.With(0, SegFile(FinalName, PartialName, m, m)).(phase := Renamed(0));
    assert StepBy(c, s6, s7, DoRename);
    RunExtends(c, run, s7, DoRename);
    run := run + [s7];
    var s8 := s7.(phase := Stopped);
    assert StepBy(c, s7, s8, FailOther(c.w));
    RunExtends(c, run, s8, FailOther(c.w));
    run := run + [s8];
  }

  /** The assumption on session starts is needed: if a process dies between the rename and the directory
    * fsync and the next one opens a new segment, a machine crash can lose the rename but keep the new file. */
  lemma UnsettledRestartLosesGapSafety(c: Cfg) returns (run: seq<St>)
    requires c.w > 0
    ensures IsRun(c, run) && !GapSafe(c, run[|run| - 1])
  {
    run := RenamedThenKilled(c);
    var s8 := run[|run| - 1];
    assert Best(c, s8, 0);
    var s9 := s8.(base := s8.files, startSeg := 1, phase := Idle(1), blockPos := 1 * c.w, lastFlush := 1 * c.w);
    assert StepBy(c, s8, s9, Begin(1));
    AnyRunExtends(c, run, s9, Begin(1));
    run := run + [s9];
    var s10 := s9.With(1, SegFile(PartialName, NoName, [], [])).(phase := Creating(1));
    assert StepBy(c, s9, s10, DoCreate);
    AnyRunExtends(c, run, s10, DoCreate);
    run := run + [s10];
    RunKeeps(c, run, |run| - 1);
    UnsettledGap(c, s10, 0, 1);
  }

  lemma AnyRunExtends(c: Cfg, run: seq<St>, s: St, e: Step)
    requires IsRun(c, run) && StepBy(c, run[|run| - 1], s, e)
    ensures IsRun(c, run + [s])
  {
    var more := run + [s];
    forall i: nat | 0 < i < |more| ensures RunStep(c, more, i) {
      if i < |run| { assert RunStep(c, run, i); }
    }
  }

  // ---- removing a partial file that cannot be fsynced ----

  /** Removing a partial file whose fsync fails keeps the promise exactly when its segment is in the archive or no
    * byte of it has been acknowledged. It keeps the invariants exactly when also nothing later depends on it. */
  lemma UnlinkLosesExactly(c: Cfg, s: St, s': St, g: SegFile)
    requires DiskInv(c, s) && FlushInv(c, s) && UnlinkOnOpen(c, s, s', g)
    ensures DurableTo(c, s', s'.acked) <==> s.Id(s.phase.seg) in s.stored || s.acked <= s.phase.seg * c.w
    ensures DiskInv(c, s') && FlushInv(c, s') <==> Unneeded(c, s)
  {
    if Unneeded(c, s) {
      UnlinkKeeps(c, s, s', g);
      UnlinkFlushes(c, s, s', g);
    } else {
      NeededIsLost(c, s, s', g);
    }
  }

  lemma NeededIsLost(c: Cfg, s: St, s': St, g: SegFile)
    requires DiskInv(c, s) && FlushInv(c, s) && UnlinkOnOpen(c, s, s', g) && !Unneeded(c, s)
    ensures DurableTo(c, s', s'.acked) <==> s.acked <= s.phase.seg * c.w
    ensures !DiskInv(c, s') || !FlushInv(c, s')
  {
    var seg := s.phase.seg;
    if s.acked <= seg * c.w {
      DurableUpTo(c, s', seg, 0);
      var b: nat :| b > seg && Named(At(s.files, SegId(s.tli, b)));
      assert Named(At(s'.files, SegId(s.tli, b)));
      assert !SegSafe(c, s'.stored, SegId(s.tli, seg), At(s'.files, SegId(s.tli, seg)));
    } else {
      assert s.origin <= seg && seg * c.w + 0 < s'.acked;
      assert !ByteSafe(c, s'.stored, SegId(s'.tli, seg), At(s'.files, SegId(s'.tli, seg)), 0);
    }
  }

  /** One byte of the first segment has been received, flushed and acknowledged. */
  lemma FirstAcknowledged(c: Cfg) returns (run: seq<St>, f: SegFile)
    requires c.w > 1
    ensures OrderlyRun(c, run) && f.vname == f.dname == PartialName && f.vol == f.dur && |f.vol| == c.w
    ensures run[|run| - 1] == St(map[SegId(1, 0) := f], 1, 0, map[], 0, Streaming(0, 1), 1, 1, 1, map[])
  {
    run := FirstOpened(c);
    var s3, id := run[|run| - 1], SegId(1, 0);
    var g := Written(c, id, s3.File(0), 0, 1);
    var s4 := s3.With(0, g).(phase := Streaming(0, 1), blockPos := 1);
    assert StepBy(c, s3, s4, DoWrite(1));
    RunExtends(c, run, s4, DoWrite(1));
    run := run + [s4];
    f := Fsynced(g);
    var s5 := s4.With(0, f).(lastFlush := 1);
    assert StepBy(c, s4, s5, DoSync);
    RunExtends(c, run, s5, DoSync);
    run := run + [s5];
    var s6 := s5.(acked := 1);
    assert StepBy(c, s5, s6, DoReport);
    RunExtends(c, run, s6, DoReport);
    run := run + [s6];
    assert s6.files == map[id := f];
  }

  /** Then the session has ended, and a new one is about to reopen the file. */
  lemma AcknowledgedThenReopened(c: Cfg) returns (run: seq<St>)
    requires c.w > 1
    ensures OrderlyRun(c, run)
    ensures var s := run[|run| - 1];
      && s.phase == Idle(0) && s.acked == 1
      && s.File(0).vname.PartialName? && |s.File(0).vol| == c.w && s.File(0).vol == s.File(0).dur
  {
    var f;
    run, f := FirstAcknowledged(c);
    var s6 := run[|run| - 1];
    var s7 := s6.(phase := Stopped);
    assert StepBy(c, s6, s7, FailOther(1));
    RunExtends(c, run, s7, FailOther(1));
    run := run + [s7];
    assert Best(c, s7, 0);
    var s8 := s7.(base := s7.files, startSeg := 0, phase := Idle(0), blockPos := 0 * c.w, lastFlush := 0 * c.w);
    assert StepBy(c, s7, s8, Begin(0));
    RunExtends(c, run, s8, Begin(0));
    run := run + [s8];
  }

  /** A run in which the removal takes an acknowledged byte. */
  lemma UnlinkLosesAcknowledged(c: Cfg) returns (run: seq<St>, after: St, g: SegFile)
    requires c.w > 1
    ensures OrderlyRun(c, run) && UnlinkOnOpen(c, run[|run| - 1], after, g)
    ensures !DurableTo(c, after, after.acked)
  {
    run := AcknowledgedThenReopened(c);
    var s := run[|run| - 1];
    var f := s.File(0);
    g, after := f, s.With(0, f.(vname := NoName)).(phase := Stopped);
    assert FsyncFailed(f, f) && UnlinkOnOpen(c, s, after, f);
    OrderlyRunKeeps(c, run, |run| - 1);
    UnlinkLosesExactly(c, s, after, f);
  }

  // ---- a timeline switch ----

  lemma SwitchKeepsDisk(c: Cfg, s: St, s': St, tli: nat, start: nat)
    requires DiskInv(c, s) && Switch(c, s, s', tli, start)
    ensures DiskInv(c, s')
  {
  }

  /** A timeline switch keeps file contents right, but the carried-over flush position is right exactly
    * when the new timeline starts at the segment-aligned end of the old one. */
  lemma SwitchKeepsFlushExactly(c: Cfg, s: St, s': St, tli: nat, start: nat)
    requires DiskInv(c, s) && FlushInv(c, s) && Switch(c, s, s', tli, start)
    ensures DiskInv(c, s')
    ensures s'.blockPos <= s'.lastFlush
    ensures FlushHolds(c, s') <==> start == s.blockPos && start % c.w == 0
  {
    SwitchKeepsDisk(c, s, s', tli, start);
    var seg := start / c.w;
    assert start == seg * c.w + start % c.w;
    assert At(s'.files, SegId(tli, seg)) == ABSENT;
    if s'.lastFlush > seg * c.w {
      assert !ByteDurable(c, SegId(tli, seg), At(s'.files, SegId(tli, seg)), 0);
      assert seg * c.w + 0 < s'.lastFlush;
    } else {
      DurableUpTo(c, s', seg, 0);
    }
  }

  ghost predicate FlushHolds(c: Cfg, s: St) {
    DurableTo(c, s, s.lastFlush) && Window(c, s)
  }

  // ---- the session after a switch ----

  /** Step i is a step of the session. */
  ghost predicate GoesOn(c: Cfg, tail: seq<St>, i: nat)
    requires 0 < i < |tail|
  {
    exists e: Step :: !e.Begin? && StepBy(c, tail[i - 1], tail[i], e)
  }

  ghost predicate IsTail(c: Cfg, tail: seq<St>) {
    |tail| > 0 && forall i: nat :: 0 < i < |tail| ==> GoesOn(c, tail, i)
  }

  /** While the session is at segment seg or later: the flush position is still the one carried over, stop, or a
    * later one that was received since. */
  predicate Carried(t: St, seg: nat, stop: nat) {
    Active(t.phase) ==>
      t.phase.seg > seg || (t.phase.seg == seg && (t.lastFlush == stop || stop < t.lastFlush <= t.blockPos))
  }

  lemma QuietForward(c: Cfg, s: St, s': St, e: Step)
    requires StepBy(c, s, s', e) && Quiet(e) && Active(s'.phase)
    ensures s.blockPos <= s'.blockPos
  {
  }

  lemma CarriedStep(c: Cfg, s: St, s': St, e: Step, seg: nat, stop: nat)
    requires DiskInv(c, s) && StepBy(c, s, s', e) && !e.Begin? && Carried(s, seg, stop)
    ensures Carried(s', seg, stop)
  {
    if Quiet(e) {
      CarriedQuiet(c, s, s', e, seg, stop);
    } else if Uploading(e) {
      UploadKeeps(c, s, s', e);
    } else {
      CarriedFlush(c, s, s', e, seg, stop);
    }
  }

  lemma CarriedFlush(c: Cfg, s: St, s': St, e: Step, seg: nat, stop: nat)
    requires StepBy(c, s, s', e) && Carried(s, seg, stop)
    requires e.DoSync? || e.DoSyncDir? || e.DoSyncDirParked? || e.FailOpen?
    ensures Carried(s', seg, stop)
  {
  }

  lemma CarriedQuiet(c: Cfg, s: St, s': St, e: Step, seg: nat, stop: nat)
    requires DiskInv(c, s) && StepBy(c, s, s', e) && Quiet(e) && Carried(s, seg, stop)
    ensures Carried(s', seg, stop)
  {
    QuietKeeps(c, s, s', e);
    if Active(s'.phase) { QuietForward(c, s, s', e); }
  }

  ghost predicate InTail(c: Cfg, t: St, seg: nat, stop: nat) {
    DiskInv(c, t) && Carried(t, seg, stop)
  }

  lemma TailStep(c: Cfg, tail: seq<St>, i: nat, seg: nat, stop: nat)
    requires IsTail(c, tail) && 0 < i < |tail| && InTail(c, tail[i - 1], seg, stop)
    ensures InTail(c, tail[i], seg, stop)
  {
    assert GoesOn(c, tail, i);
    var e: Step :| !e.Begin? && StepBy(c, tail[i - 1], tail[i], e);
    StepKeeps(c, tail[i - 1], tail[i], e);
    CarriedStep(c, tail[i - 1], tail[i], e, seg, stop);
  }

  lemma {:induction false} TailKeeps(c: Cfg, tail: seq<St>, i: nat, seg: nat, stop: nat)
    requires IsTail(c, tail) && i < |tail| && InTail(c, tail[0], seg, stop)
    ensures InTail(c, tail[i], seg, stop)
  {
    if i > 0 {
      TailKeeps(c, tail, i - 1, seg, stop);
      TailStep(c, tail, i, seg, stop);
    }
  }

  /** When the first segment of the new timeline is complete, the flush position goes back exactly if that
    * segment ends before the position where the old timeline stopped. */
  lemma FlushTurnsBackExactly(c: Cfg, s: St, tail: seq<St>, tli: nat, start: nat)
    requires DiskInv(c, s) && FlushInv(c, s) && IsTail(c, tail) && Switch(c, s, tail[0], tli, start) && |tail| > 1
    requires var t := tail[|tail| - 2];
      t.phase == FinalSynced(start / c.w) && SyncDir(c, t, tail[|tail| - 1])
    ensures tail[|tail| - 1].lastFlush < tail[|tail| - 2].lastFlush <==> (start / c.w + 1) * c.w < s.blockPos
  {
    SwitchKeepsDisk(c, s, tail[0], tli, start);
    TailKeeps(c, tail, |tail| - 2, start / c.w, s.blockPos);
  }

  lemma TailExtends(c: Cfg, tail: seq<St>, s: St, e: Step)
    requires IsTail(c, tail) && !e.Begin? && StepBy(c, tail[|tail| - 1], s, e)
    ensures IsTail(c, tail + [s])
  {
    forall i: nat | 0 < i < |tail| + 1 ensures GoesOn(c, tail + [s], i) {
      if i < |tail| { assert GoesOn(c, tail, i); }
    }
  }

  lemma RunGoesOn(c: Cfg, run: seq<St>, tail: seq<St>) returns (more: seq<St>)
    requires IsRun(c, run) && IsTail(c, tail) && run[|run| - 1] == tail[0]
    ensures IsRun(c, more) && more[|more| - 1] == tail[|tail| - 1]
  {
    more := run + tail[1..];
    forall i: nat | 0 < i < |more| ensures RunStep(c, more, i) {
      if i < |run| {
        assert RunStep(c, run, i);
      } else {
        assert GoesOn(c, tail, i - |run| + 1);
        assert more[i - 1] == tail[i - |run|];
      }
    }
  }

  /** A whole segment is received from scratch. */
  lemma FillSegment(c: Cfg, s: St, seg: nat) returns (tail: seq<St>)
    requires s.phase == Idle(seg) && s.File(seg) == ABSENT && s.blockPos == seg * c.w
    ensures IsTail(c, tail) && tail[0] == s
    ensures tail[|tail| - 1] == s.With(seg, SegFile(PartialName, NoName, Slice(c, s.Id(seg), c.w), []))
      .(phase := Streaming(seg, c.w), blockPos := s.blockPos + c.w)
  {
    tail := [s];
    var t1 := s.With(seg, SegFile(PartialName, NoName, [], [])).(phase := Creating(seg));
    assert StepBy(c, s, t1, DoCreate);
    TailExtends(c, tail, t1, DoCreate);
    tail := tail + [t1];
    var t2 := s.With(seg, SegFile(PartialName, NoName, Zeros(c.w), [])).(phase := Streaming(seg, 0));
    assert t2 == t1.With(seg, t1.File(seg).(vol := Zeros(c.w))).(phase := Streaming(seg, 0));
    assert StepBy(c, t1, t2, DoExtend);
    TailExtends(c, tail, t2, DoExtend);
    tail := tail + [t2];
    var m := Slice(c, s.Id(seg), c.w);
    var t3 := s.With(seg, SegFile(PartialName, NoName, m, []))
      .(phase := Streaming(seg, c.w), blockPos := s.blockPos + c.w);
    assert Written(c, s.Id(seg), t2.File(seg), 0, c.w) == SegFile(PartialName, NoName, m, []);
    assert t3 == t2.With(seg, SegFile(PartialName, NoName, m, []))
      .(phase := Streaming(seg, 0 + c.w), blockPos := t2.blockPos + c.w);
    assert StepBy(c, t2, t3, DoWrite(c.w));
    TailExtends(c, tail, t3, DoWrite(c.w));
    tail := tail + [t3];
  }

  /** ... and completed. */
  lemma FinishSegment(c: Cfg, before: seq<St>, seg: nat) returns (tail: seq<St>)
    requires IsTail(c, before)
    requires var s, m := before[|before| - 1], Slice(c, before[|before| - 1].Id(seg), c.w);
      s.phase == Streaming(seg, c.w) && s.File(seg) == SegFile(PartialName, NoName, m, [])
    ensures IsTail(c, tail) && before <= tail && |tail| > |before| + 1
    ensures var s, m := before[|before| - 1], Slice(c, before[|before| - 1].Id(seg), c.w);
      && tail[|tail| - 2].phase == FinalSynced(seg) && SyncDir(c, tail[|tail| - 2], tail[|tail| - 1])
      && tail[|tail| - 1] == s.With(seg, SegFile(FinalName, PartialName, m, m))
           .(files := DirSynced(s.With(seg, SegFile(FinalName, PartialName, m, m)).files),
             phase := Idle(seg + 1), lastFlush := s.blockPos)
  {
    tail := before;
    var s := before[|before| - 1];
    var m := Slice(c, s.Id(seg), c.w);
    var t4 := s.(phase := Full(seg));
    assert StepBy(c, s, t4, DoCloseFull);
    TailExtends(c, tail, t4, DoCloseFull);
    tail := tail + [t4];
    var t5 := s.With(seg, SegFile(PartialName, PartialName, m, m)).(phase := FullSynced(seg));
    assert StepBy(c, t4, t5, DoSyncFull);
    TailExtends(c, tail, t5, DoSyncFull);
    tail := tail + [t5];
    tail := NameSegment(c, tail, s, seg);
  }

  lemma NameSegment(c: Cfg, before: seq<St>, s: St, seg: nat) returns (tail: seq<St>)
    requires IsTail(c, before)
    requires var m := Slice(c, s.Id(seg), c.w);
      before[|before| - 1] == s.With(seg, SegFile(PartialName, PartialName, m, m)).(phase := FullSynced(seg))
    ensures IsTail(c, tail) && before <= tail && |tail| > |before| + 1
    ensures var m := Slice(c, s.Id(seg), c.w);
      var named := s.With(seg, SegFile(FinalName, PartialName, m, m));
      && tail[|tail| - 2].phase == FinalSynced(seg) && SyncDir(c, tail[|tail| - 2], tail[|tail| - 1])
      && tail[|tail| - 1] ==
           named.(files := DirSynced(named.files), phase := Idle(seg + 1), lastFlush := s.blockPos)
  {
    tail := before;
    var t5, m := before[|before| - 1], Slice(c, s.Id(seg), c.w);
    var named := s.With(seg, SegFile(FinalName, PartialName, m, m));
    var t6 := named.(phase := Renamed(seg));
    assert t6 == t5.With(seg, t5.File(seg).(vname := FinalName)).(phase := Renamed(seg));
    assert StepBy(c, t5, t6, DoRename);
    TailExtends(c, tail, t6, DoRename);
    tail := tail + [t6];
    var t7 := named.(phase := FinalSynced(seg));
    assert t7 == t6.With(seg, Fsynced(t6.File(seg))).(phase := FinalSynced(seg));
    assert StepBy(c, t6, t7, DoSyncFinal);
    TailExtends(c, tail, t7, DoSyncFinal);
    tail := tail + [t7];
    var t8 := named.(files := DirSynced(named.files), phase := Idle(seg + 1), lastFlush := s.blockPos);
    assert StepBy(c, t7, t8, DoSyncDir);
    TailExtends(c, tail, t8, DoSyncDir);
    tail := tail + [t8];
  }

  lemma CompleteSegment(c: Cfg, s: St, seg: nat) returns (tail: seq<St>)
    requires s.phase == Idle(seg) && s.File(seg) == ABSENT && s.blockPos == seg * c.w
    ensures IsTail(c, tail) && tail[0] == s && |tail| > 1
    ensures tail[|tail| - 2].phase == FinalSynced(seg) && SyncDir(c, tail[|tail| - 2], tail[|tail| - 1])
    ensures var t := tail[|tail| - 1];
      && t.phase == Idle(seg + 1) && t.tli == s.tli && t.stored == s.stored
      && t.blockPos == t.lastFlush == (seg + 1) * c.w
      && forall id :: id != s.Id(seg) && At(s.files, id) == ABSENT ==> At(t.files, id) == ABSENT
  {
    var filled := FillSegment(c, s, seg);
    tail := FinishSegment(c, filled, seg);
    assert (seg + 1) * c.w == seg * c.w + c.w;
  }

  ghost predicate OnlyFirstTimeline(s: St) {
    s.stored == map[] && forall id: SegId :: id.tli == 2 ==> At(s.files, id) == ABSENT
  }

  lemma OneSegmentReceived(c: Cfg) returns (run: seq<St>)
    requires c.w > 0
    ensures IsRun(c, run)
    ensures var s := run[|run| - 1];
      && s.phase == Idle(1) && s.tli == 1 && s.blockPos == c.w && s.File(1) == ABSENT && OnlyFirstTimeline(s)
  {
    var s0 := St(map[], 1, 0, map[], 0, Stopped, 0, 0, 0, map[]);
    var s1 := s0.(phase := Idle(0));
    assert RestartAt(c, s0, 0) && OnlyTimeline(s0) && StepBy(c, s0, s1, Begin(0));
    AnyRunExtends(c, [s0], s1, Begin(0));
    var tail := CompleteSegment(c, s1, 0);
    run := RunGoesOn(c, [s0] + [s1], tail);
  }

  /** Two segments of the first timeline have been received when the server ends the stream. */
  lemma TwoSegmentsEnded(c: Cfg) returns (run: seq<St>)
    requires c.w > 0
    ensures IsRun(c, run)
    ensures var s := run[|run| - 1];
      && s.phase.Ended? && s.tli == 1 && s.blockPos == 2 * c.w && OnlyFirstTimeline(s)
  {
    run := OneSegmentReceived(c);
    var tail := CompleteSegment(c, run[|run| - 1], 1);
    run := RunGoesOn(c, run, tail);
    var s := run[|run| - 1];
    assert StepBy(c, s, s.(phase := Ended), DoEnd);
    AnyRunExtends(c, run, s.(phase := Ended), DoEnd);
    run := run + [s.(phase := Ended)];
  }

  /** A run, a switch and a session after which the flush position, reported before, has gone back. */
  lemma SwitchTurnsFlushBack(c: Cfg) returns (run: seq<St>, tail: seq<St>)
    requires c.w > 0
    ensures IsRun(c, run) && IsTail(c, tail) && Switch(c, run[|run| - 1], tail[0], 2, 0)
    ensures AtRest(c, tail[0]) && AtRest(c, tail[|tail| - 1]) && tail[|tail| - 1].lastFlush < tail[0].lastFlush
  {
    run := TwoSegmentsEnded(c);
    RunKeeps(c, run, |run| - 1);
    var s := run[|run| - 1];
    var after := s.(tli := 2, origin := 0 / c.w, base := s.files, startSeg := 0 / c.w, phase := Idle(0 / c.w),
                    blockPos := 0 / c.w * c.w);
    assert At(s.files, SegId(2, 0)) == ABSENT;
    tail := CompleteSegment(c, after, 0);
  }

  /** One whole segment has been received and closed when the server ends the stream. */
  lemma FirstEnded(c: Cfg) returns (run: seq<St>)
    requires c.w > 0
    ensures OrderlyRun(c, run)
    ensures var s := run[|run| - 1];
      s.phase.Ended? && s.blockPos == c.w && s.tli == 1 && s.files.Keys == {SegId(1, 0)}
  {
    run := FirstSynced(c);
    var s6, m := run[|run| - 1], Slice(c, SegId(1, 0), c.w);
    var s7 := s6.With(0, SegFile(FinalName, PartialName, m, m)).(phase := Renamed(0));
    assert StepBy(c, s6, s7, DoRename);
    RunExtends(c, run, s7, DoRename);
    run := run + [s7];
    var s8 := s7.With(0, SegFile(FinalName, PartialName, m, m)).(phase := FinalSynced(0));
    assert StepBy(c, s7, s8, DoSyncFinal);
    RunExtends(c, run, s8, DoSyncFinal);
    run := run + [s8];
    var s9 := s8.(files := DirSynced(s8.files), phase := Idle(0 + 1), lastFlush := c.w);
    assert StepBy(c, s8, s9, DoSyncDir);
    RunExtends(c, run, s9, DoSyncDir);
    run := run + [s9];
    var s10 := s9.(phase := Ended);
    assert StepBy(c, s9, s10, DoEnd);
    RunExtends(c, run, s10, DoEnd);
    run := run + [s10];
  }

  /** A run after which a timeline that starts earlier leaves a flush position that is not durable. */
  lemma SwitchBreaksFlush(c: Cfg) returns (run: seq<St>, after: St)
    requires c.w > 0
    ensures OrderlyRun(c, run) && Switch(c, run[|run| - 1], after, 2, 0) && !FlushHolds(c, after)
  {
    run := FirstEnded(c);
    var s := run[|run| - 1];
    after := s.(tli := 2, origin := 0 / c.w, base := s.files, startSeg := 0 / c.w, phase := Idle(0 / c.w),
      blockPos := 0 / c.w * c.w);
    OrderlyRunKeeps(c, run, |run| - 1);
    SwitchKeepsFlushExactly(c, s, after, 2, 0);
  }
}
