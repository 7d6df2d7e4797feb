/** What every step of the receiver keeps, and what that gives over whole runs. */
module WalSafety {
  import opened Arith
  import opened Bytes
  import opened Disk
  import opened WalProtocol

  // ---- what a file holds ----

  /** s is empty or a full segment, and every byte is unwritten or the server's byte. */
  ghost predicate Clean(c: Cfg, id: SegId, s: seq<byte>) {
    && (|s| == 0 || |s| == c.w)
    && forall i :: 0 <= i < |s| ==> s[i] == 0 || s[i] == WalByte(c, id, i)
  }

  ghost predicate Holds(c: Cfg, id: SegId, s: seq<byte>, n: nat) {
    n <= |s| && forall i :: 0 <= i < n ==> s[i] == WalByte(c, id, i)
  }

  ghost predicate CleanFile(c: Cfg, id: SegId, f: SegFile) {
    && Clean(c, id, f.vol) && Clean(c, id, f.dur)
    && (f.vname.FinalName? || f.dname.FinalName? ==>
          !f.dname.NoName? && Holds(c, id, f.vol, c.w) && Holds(c, id, f.dur, c.w))
    && (f.dname.FinalName? ==> !f.vname.PartialName?)
  }

  /** No crash, at this moment or after kernel writeback, can lose this byte. */
  ghost predicate ByteDurable(c: Cfg, id: SegId, f: SegFile, off: nat) {
    && !f.vname.NoName? && !f.dname.NoName?
    && off < |f.vol| && off < |f.dur|
    && f.vol[off] == f.dur[off] == WalByte(c, id, off)
  }

  ghost predicate FullDurable(c: Cfg, id: SegId, f: SegFile) {
    && !f.vname.NoName? && !f.dname.NoName?
    && Holds(c, id, f.vol, c.w) && Holds(c, id, f.dur, c.w)
  }

  /** The segment is in the archive or durable in full. */
  ghost predicate SegSafe(c: Cfg, stored: map<SegId, seq<byte>>, id: SegId, f: SegFile) {
    id in stored || FullDurable(c, id, f)
  }

  ghost predicate ByteSafe(c: Cfg, stored: map<SegId, seq<byte>>, id: SegId, f: SegFile, off: nat) {
    (id in stored && off < c.w) || ByteDurable(c, id, f, off)
  }

  /** All segments from the origin up to seg are safe. */
  ghost predicate SafeBelow(c: Cfg, s: St, seg: nat) {
    forall a: nat :: s.origin <= a < seg ==> SegSafe(c, s.stored, SegId(s.tli, a), At(s.files, SegId(s.tli, a)))
  }

  /** Safe segments stay safe. */
  ghost predicate FullKept(c: Cfg, s: St, s': St) {
    forall a: nat ::
      SegSafe(c, s.stored, SegId(s.tli, a), At(s.files, SegId(s.tli, a)))
      ==> SegSafe(c, s'.stored, SegId(s.tli, a), At(s'.files, SegId(s.tli, a)))
  }

  /** Whatever was safe before the step is safe after it. */
  ghost predicate BytesKept(c: Cfg, s: St, s': St) {
    forall a: nat, off: nat ::
      ByteSafe(c, s.stored, SegId(s.tli, a), At(s.files, SegId(s.tli, a)), off)
      ==> ByteSafe(c, s'.stored, SegId(s.tli, a), At(s'.files, SegId(s.tli, a)), off)
  }

  // ---- the invariant ----

  ghost predicate Contents(c: Cfg, files: Files) {
    forall id :: CleanFile(c, id, At(files, id))
  }

  /** The archive holds what the server has sent, and every segment whose final file has been removed. */
  ghost predicate Archive(c: Cfg, s: St) {
    && (forall id :: id in s.stored ==> s.stored[id] == Slice(c, id, c.w))
    && (forall id :: At(s.files, id).dname.FinalName? && !At(s.files, id).vname.FinalName? ==> id in s.stored)
  }

  /** A segment has an entry only if every earlier one since the origin is safe. */
  ghost predicate Prefix(c: Cfg, s: St) {
    && (forall a: nat :: a < s.origin ==> !Named(At(s.files, SegId(s.tli, a))))
    && (forall b: nat :: Named(At(s.files, SegId(s.tli, b))) ==> SafeBelow(c, s, b))
  }

  ghost predicate Before(c: Cfg, s: St, seg: nat) {
    && s.origin <= s.startSeg <= seg
    && SafeBelow(c, s, seg)
    && (forall b: nat :: b > seg ==> At(s.files, SegId(s.tli, b)).vname.NoName?)
  }

  ghost predicate Open(c: Cfg, s: St, seg: nat, pos: nat) {
    && s.File(seg).vname.PartialName? && |s.File(seg).vol| == c.w
    && Holds(c, s.Id(seg), s.File(seg).vol, pos)
    && s.blockPos == seg * c.w + pos
  }

  /** The segment has been renamed; it may be uploaded and removed at once. */
  ghost predicate Finished(c: Cfg, s: St, seg: nat) {
    SegSafe(c, s.stored, s.Id(seg), s.File(seg)) && (s.File(seg).vname.FinalName? || s.Id(seg) in s.stored)
  }

  ghost predicate Session(c: Cfg, s: St) {
    match s.phase
    case Stopped => true
    case Ended => true
    case Broken(_) => true
    case Idle(seg) => Before(c, s, seg) && !s.File(seg).vname.FinalName? && s.blockPos == seg * c.w
    case Creating(seg) =>
      Before(c, s, seg) && s.File(seg).vname.PartialName? && s.File(seg).vol == [] && s.blockPos == seg * c.w
    case Streaming(seg, pos) => Before(c, s, seg) && pos <= c.w && Open(c, s, seg, pos)
    case Full(seg) => Before(c, s, seg) && Open(c, s, seg, c.w)
    case FullSynced(seg) => Before(c, s, seg) && Open(c, s, seg, c.w) && FullDurable(c, s.Id(seg), s.File(seg))
    case Renamed(seg) =>
      Before(c, s, seg) && Finished(c, s, seg) && s.blockPos == (seg + 1) * c.w
    case FinalSynced(seg) =>
      Before(c, s, seg) && Finished(c, s, seg) && s.blockPos == (seg + 1) * c.w
    case Parking(seg, eot) => eot ==>
      Before(c, s, seg) && seg * c.w < s.blockPos < seg * c.w + c.w && Open(c, s, seg, s.blockPos - seg * c.w)
    case ParkSynced(seg, eot) => eot ==>
      Before(c, s, seg) && seg * c.w < s.blockPos < seg * c.w + c.w && Open(c, s, seg, s.blockPos - seg * c.w)
      && Holds(c, s.Id(seg), s.File(seg).dur, s.blockPos - seg * c.w) && !s.File(seg).dname.NoName?
  }

  /** The disk half of the invariant: it does not speak of flush positions. */
  ghost predicate DiskInv(c: Cfg, s: St) {
    c.w > 0 && Contents(c, s.files) && Archive(c, s) && Prefix(c, s) && Session(c, s)
  }

  // ---- single-file facts ----

  lemma MixedHolds(c: Cfg, id: SegId, m: seq<byte>, a: seq<byte>, b: seq<byte>, n: nat)
    requires Mixed(m, a, b) && Holds(c, id, a, n) && Holds(c, id, b, n)
    ensures Holds(c, id, m, n)
  {
  }

  /** Names may only be made durable, and contents only mixed: what every disk event does to a file. */
  ghost predicate Kept(f: SegFile, g: SegFile) {
    && (g.vname == f.vname || g.vname == g.dname == f.dname)
    && (g.dname == f.dname || g.dname == f.vname)
    && (f.vname.FinalName? && g.dname.FinalName? ==> g.vname.FinalName?)
    && (g.vname.FinalName? ==> f.vname.FinalName? || f.dname.FinalName?)
    && (g.dname.FinalName? && !g.vname.FinalName? ==> f.dname.FinalName? && !f.vname.FinalName?)
    && Mixed(g.vol, f.dur, f.vol)
    && Mixed(g.dur, f.dur, f.vol)
  }

  lemma KeptFile(c: Cfg, id: SegId, f: SegFile, g: SegFile)
    requires CleanFile(c, id, f) && Kept(f, g)
    ensures CleanFile(c, id, g)
    ensures FullDurable(c, id, f) ==> FullDurable(c, id, g)
    ensures Named(g) ==> Named(f)
    ensures forall off: nat :: ByteDurable(c, id, f, off) ==> ByteDurable(c, id, g, off)
  {
  }

  ghost predicate AllKept(files: Files, files': Files) {
    forall id :: Kept(At(files, id), At(files', id))
  }

  lemma KeptAll(c: Cfg, s: St, s': St)
    requires Contents(c, s.files) && Archive(c, s) && Prefix(c, s)
    requires AllKept(s.files, s'.files) && s'.tli == s.tli && s'.origin == s.origin && s'.stored == s.stored
    ensures Contents(c, s'.files) && Archive(c, s') && Prefix(c, s')
    ensures FullKept(c, s, s') && BytesKept(c, s, s')
  {
    forall id ensures CleanFile(c, id, At(s'.files, id)) {
      KeptFile(c, id, At(s.files, id), At(s'.files, id));
    }
    forall a: nat
      ensures var id := SegId(s.tli, a);
        && (FullDurable(c, id, At(s.files, id)) ==> FullDurable(c, id, At(s'.files, id)))
        && (Named(At(s'.files, id)) ==> Named(At(s.files, id)))
        && forall off: nat :: ByteDurable(c, id, At(s.files, id), off) ==> ByteDurable(c, id, At(s'.files, id), off)
    {
      KeptFile(c, SegId(s.tli, a), At(s.files, SegId(s.tli, a)), At(s'.files, SegId(s.tli, a)));
    }
  }

  lemma OneKept(c: Cfg, s: St, seg: nat, g: SegFile)
    requires Contents(c, s.files) && Kept(s.File(seg), g)
    ensures AllKept(s.files, s.With(seg, g).files)
  {
  }

  /** A step that rewrites one file. */
  lemma OneChanged(c: Cfg, s: St, seg: nat, g: SegFile)
    requires Contents(c, s.files) && Archive(c, s) && Prefix(c, s)
    requires CleanFile(c, s.Id(seg), g) && (g.dname.FinalName? ==> g.vname.FinalName?)
    requires FullDurable(c, s.Id(seg), s.File(seg)) ==> FullDurable(c, s.Id(seg), g)
    requires s.origin <= seg && SafeBelow(c, s, seg)
    ensures Contents(c, s.With(seg, g).files) && Archive(c, s.With(seg, g)) && Prefix(c, s.With(seg, g))
  {
  }

  // ---- what a step leaves alone ----

  /** The flush position stays inside the open segment, at or below the received position. */
  ghost predicate Window(c: Cfg, s: St) {
    match s.phase
    case Stopped => true
    case Ended => s.lastFlush == s.blockPos
    case Broken(_) => true
    case Idle(seg) => s.lastFlush == s.blockPos
    case Creating(seg) => s.lastFlush == s.blockPos
    case Streaming(seg, pos) => seg * c.w <= s.lastFlush <= s.blockPos
    case Full(seg) => seg * c.w <= s.lastFlush <= s.blockPos
    case FullSynced(seg) => seg * c.w <= s.lastFlush <= s.blockPos
    case Renamed(seg) => seg * c.w <= s.lastFlush <= s.blockPos
    case FinalSynced(seg) => seg * c.w <= s.lastFlush <= s.blockPos
    case Parking(seg, eot) => eot ==> seg * c.w <= s.lastFlush <= s.blockPos
    case ParkSynced(seg, eot) => eot ==> seg * c.w <= s.lastFlush <= s.blockPos
  }

  /** Without uploads durable renames stay durable; a step names at most the segment it works on. */
  ghost predicate NamesKept(s: St, s': St) {
    && (s.stored == map[] ==> forall a: nat ::
          At(s.files, SegId(s.tli, a)).dname.FinalName? ==> At(s'.files, SegId(s.tli, a)).dname.FinalName?)
    && (forall b: nat :: Named(At(s'.files, SegId(s.tli, b)))
          ==> Named(At(s.files, SegId(s.tli, b))) || (s.phase.Idle? && b == s.phase.seg))
  }

  predicate Steady(s: St, s': St) {
    s'.tli == s.tli && s'.origin == s.origin && s.acked <= s'.acked
  }

  ghost predicate Frame(c: Cfg, s: St, s': St) {
    && Steady(s, s')
    && BytesKept(c, s, s') && NamesKept(s, s')
  }

  /** A session is writing, or orderly closing, the segment named by the phase. */
  predicate Active(p: Phase) {
    !p.Stopped? && !p.Ended? && !p.Broken? && (p.Parking? || p.ParkSynced? ==> p.eot)
  }

  /** What a step does that does not move the flush position. */
  ghost predicate QuietFrame(c: Cfg, s: St, s': St) {
    && Frame(c, s, s') && s'.stored == s.stored
    && s'.lastFlush == s.lastFlush && (s'.acked == s.acked || s'.acked == s.lastFlush)
    && (Active(s'.phase) ==> Active(s.phase) && s'.phase.seg == s.phase.seg)
    && (Window(c, s) ==> Window(c, s'))
  }

  // ---- every step keeps the disk half ----

  lemma CreateKeeps(c: Cfg, s: St, s': St)
    requires DiskInv(c, s) && Create(c, s, s')
    ensures DiskInv(c, s') && QuietFrame(c, s, s')
  {
    var seg := s.phase.seg;
    assert CleanFile(c, s.Id(seg), s.File(seg));
    OneChanged(c, s, seg, s'.File(seg));
  }

  lemma ExtendKeeps(c: Cfg, s: St, s': St)
    requires DiskInv(c, s) && Extend(c, s, s')
    ensures DiskInv(c, s') && QuietFrame(c, s, s')
  {
    var seg := s.phase.seg;
    assert CleanFile(c, s.Id(seg), s.File(seg));
    OneChanged(c, s, seg, s'.File(seg));
  }

  lemma WrittenFile(c: Cfg, id: SegId, f: SegFile, pos: nat, k: nat)
    requires CleanFile(c, id, f) && f.vname.PartialName? && pos + k <= c.w == |f.vol| && Holds(c, id, f.vol, pos)
    ensures var g := Written(c, id, f, pos, k);
      && CleanFile(c, id, g) && Holds(c, id, g.vol, pos + k) && |g.vol| == c.w
      && (FullDurable(c, id, f) ==> FullDurable(c, id, g))
      && forall off: nat :: ByteDurable(c, id, f, off) ==> ByteDurable(c, id, g, off)
  {
  }

  lemma WriteKeeps(c: Cfg, s: St, s': St, k: nat)
    requires DiskInv(c, s) && Write(c, s, s', k)
    ensures DiskInv(c, s') && QuietFrame(c, s, s')
  {
    var seg := s.phase.seg;
    assert CleanFile(c, s.Id(seg), s.File(seg));
    WrittenFile(c, s.Id(seg), s.File(seg), s.phase.pos, k);
    var g := Written(c, s.Id(seg), s.File(seg), s.phase.pos, k);
    OneChanged(c, s, seg, g);
    assert s'.File(seg) == g;
  }

  /** An fsync of the segment at hand, whatever phase it leads to. */
  lemma FsyncKept(c: Cfg, s: St, seg: nat)
    requires Contents(c, s.files) && Archive(c, s) && Prefix(c, s)
    ensures var s' := s.With(seg, Fsynced(s.File(seg)));
      && Contents(c, s'.files) && Archive(c, s') && Prefix(c, s')
      && FullKept(c, s, s') && BytesKept(c, s, s') && NamesKept(s, s')
  {
    assert CleanFile(c, s.Id(seg), s.File(seg));
    OneKept(c, s, seg, Fsynced(s.File(seg)));
    KeptAll(c, s, s.With(seg, Fsynced(s.File(seg))));
  }

  lemma OpenExistingKeeps(c: Cfg, s: St, s': St)
    requires DiskInv(c, s) && OpenExisting(c, s, s')
    ensures DiskInv(c, s') && QuietFrame(c, s, s')
  {
    FsyncKept(c, s, s.phase.seg);
  }

  lemma SyncKeeps(c: Cfg, s: St, s': St)
    requires DiskInv(c, s) && Sync(c, s, s')
    ensures DiskInv(c, s') && Frame(c, s, s')
  {
    FsyncKept(c, s, s.phase.seg);
  }

  lemma SyncFullKeeps(c: Cfg, s: St, s': St)
    requires DiskInv(c, s) && SyncFull(c, s, s')
    ensures DiskInv(c, s') && QuietFrame(c, s, s')
  {
    FsyncKept(c, s, s.phase.seg);
  }

  lemma SyncFinalKeeps(c: Cfg, s: St, s': St)
    requires DiskInv(c, s) && SyncFinal(c, s, s')
    ensures DiskInv(c, s') && QuietFrame(c, s, s')
  {
    FsyncKept(c, s, s.phase.seg);
  }

  lemma SyncParkedKeeps(c: Cfg, s: St, s': St)
    requires DiskInv(c, s) && SyncParked(c, s, s')
    ensures DiskInv(c, s') && QuietFrame(c, s, s')
  {
    FsyncKept(c, s, s.phase.seg);
  }

  lemma RenameKeeps(c: Cfg, s: St, s': St)
    requires DiskInv(c, s) && Rename(c, s, s')
    ensures DiskInv(c, s') && QuietFrame(c, s, s')
  {
    var seg := s.phase.seg;
    assert CleanFile(c, s.Id(seg), s.File(seg));
    assert (seg + 1) * c.w == seg * c.w + c.w;
    OneChanged(c, s, seg, s'.File(seg));
  }

  lemma SyncFailKeeps(c: Cfg, s: St, s': St, g: SegFile)
    requires DiskInv(c, s) && (SyncFails(c, s, s', g) || ClosedSyncFails(c, s, s', g))
    ensures DiskInv(c, s') && QuietFrame(c, s, s')
  {
    var seg := s.phase.seg;
    assert CleanFile(c, s.Id(seg), s.File(seg));
    OneKept(c, s, seg, g);
    KeptAll(c, s, s');
  }

  lemma DirSyncKept(c: Cfg, s: St)
    requires Contents(c, s.files) && Archive(c, s) && Prefix(c, s)
    ensures var s' := s.(files := DirSynced(s.files));
      && Contents(c, s'.files) && Archive(c, s') && Prefix(c, s')
      && FullKept(c, s, s') && BytesKept(c, s, s') && NamesKept(s, s')
  {
  }

  lemma SyncDirKeeps(c: Cfg, s: St, s': St)
    requires DiskInv(c, s) && SyncDir(c, s, s')
    ensures DiskInv(c, s') && Frame(c, s, s')
  {
    DirSyncKept(c, s);
    assert (s.phase.seg + 1) * c.w == s.blockPos;
  }

  lemma SyncDirParkedKeeps(c: Cfg, s: St, s': St)
    requires DiskInv(c, s) && SyncDirParked(c, s, s')
    ensures DiskInv(c, s') && Frame(c, s, s')
  {
  }

  lemma SessionDirSyncKeeps(c: Cfg, s: St, s': St)
    requires DiskInv(c, s) && SessionDirSync(c, s, s')
    ensures DiskInv(c, s') && QuietFrame(c, s, s')
  {
  }

  lemma WritebackKept(c: Cfg, s: St, s': St)
    requires Contents(c, s.files) && Writeback(s.files, s'.files)
    ensures AllKept(s.files, s'.files)
    ensures forall id :: At(s'.files, id).vname == At(s.files, id).vname && At(s'.files, id).vol == At(s.files, id).vol
    ensures forall id ::
      At(s'.files, id).dname == At(s.files, id).dname || At(s'.files, id).dname == At(s.files, id).vname
  {
  }

  lemma BackgroundKeeps(c: Cfg, s: St, s': St)
    requires DiskInv(c, s) && Background(c, s, s')
    ensures DiskInv(c, s') && QuietFrame(c, s, s')
  {
    WritebackKept(c, s, s');
    KeptAll(c, s, s');
    BackgroundOpenFile(c, s, s');
    BackgroundSession(c, s, s');
  }

  /** What a session has made durable of its own segment stays so. */
  lemma BackgroundOpenFile(c: Cfg, s: St, s': St)
    requires DiskInv(c, s) && AllKept(s.files, s'.files) && s' == s.(files := s'.files)
    ensures s.phase.ParkSynced? && s.phase.eot ==>
      s.blockPos >= s.phase.seg * c.w &&
      Holds(c, s.Id(s.phase.seg), s'.File(s.phase.seg).dur, s.blockPos - s.phase.seg * c.w)
    ensures s.phase.FullSynced? ==> FullDurable(c, s.Id(s.phase.seg), s'.File(s.phase.seg))
  {
    if s.phase.FullSynced? || s.phase.ParkSynced? {
      var id := s.Id(s.phase.seg);
      assert CleanFile(c, id, At(s.files, id)) && Kept(At(s.files, id), At(s'.files, id));
      KeptFile(c, id, At(s.files, id), At(s'.files, id));
    }
    if s.phase.ParkSynced? && s.phase.eot {
      var id, n := s.Id(s.phase.seg), s.blockPos - s.phase.seg * c.w;
      MixedHolds(c, id, At(s'.files, id).dur, At(s.files, id).dur, At(s.files, id).vol, n);
    }
  }

  lemma BackgroundSession(c: Cfg, s: St, s': St)
    requires Session(c, s) && s' == s.(files := s'.files)
    requires FullKept(c, s, s')
    requires forall id :: At(s'.files, id).vname == At(s.files, id).vname && At(s'.files, id).vol == At(s.files, id).vol
    requires forall id ::
      At(s'.files, id).dname == At(s.files, id).dname || At(s'.files, id).dname == At(s.files, id).vname
    requires s.phase.ParkSynced? && s.phase.eot ==>
      s.blockPos >= s.phase.seg * c.w &&
      Holds(c, s.Id(s.phase.seg), s'.File(s.phase.seg).dur, s.blockPos - s.phase.seg * c.w)
    requires s.phase.FullSynced? ==> FullDurable(c, s.Id(s.phase.seg), s'.File(s.phase.seg))
    ensures Session(c, s')
  {
  }

  lemma CrashKeeps(c: Cfg, s: St, s': St)
    requires DiskInv(c, s) && Crash(c, s, s')
    ensures DiskInv(c, s') && QuietFrame(c, s, s')
  {
    forall id ensures Kept(At(s.files, id), At(s'.files, id)) {
      assert CleanFile(c, id, At(s.files, id)) && Settled(At(s.files, id), At(s'.files, id));
    }
    KeptAll(c, s, s');
  }

  /** Removing a partial file that nothing depends on. */
  lemma UnlinkKeeps(c: Cfg, s: St, s': St, g: SegFile)
    requires DiskInv(c, s) && UnlinkOnOpen(c, s, s', g) && Unneeded(c, s)
    ensures DiskInv(c, s') && Steady(s, s') && NamesKept(s, s') && SafeBelow(c, s', s.phase.seg)
  {
    var id := s.Id(s.phase.seg);
    assert CleanFile(c, id, At(s.files, id));
    KeptFile(c, id, At(s.files, id), g);
    forall b: SegId ensures CleanFile(c, b, At(s'.files, b)) {
      assert CleanFile(c, b, At(s.files, b));
    }
  }

  // ---- flush positions ----

  /** Every byte from the origin up to position n is safe. */
  ghost predicate DurableTo(c: Cfg, s: St, n: nat) {
    forall a: nat, off: nat :: s.origin <= a && off < c.w && a * c.w + off < n
      ==> ByteSafe(c, s.stored, SegId(s.tli, a), At(s.files, SegId(s.tli, a)), off)
  }

  ghost predicate FlushInv(c: Cfg, s: St) {
    DurableTo(c, s, s.acked) && DurableTo(c, s, s.lastFlush) && Window(c, s)
  }

  lemma LsnOrder(w: nat, a: nat, off: nat, seg: nat, pos: nat)
    requires off < w && pos <= w && a * w + off < seg * w + pos
    ensures a < seg || (a == seg && off < pos)
  {
    if a > seg { MulStep(seg, a, w); }
  }

  lemma DurableUpTo(c: Cfg, s: St, seg: nat, pos: nat)
    requires pos <= c.w
    requires SafeBelow(c, s, seg)
    requires forall off: nat :: off < pos ==>
      ByteSafe(c, s.stored, SegId(s.tli, seg), At(s.files, SegId(s.tli, seg)), off)
    ensures DurableTo(c, s, seg * c.w + pos)
  {
    forall a: nat, off: nat | s.origin <= a && off < c.w && a * c.w + off < seg * c.w + pos
      ensures ByteSafe(c, s.stored, SegId(s.tli, a), At(s.files, SegId(s.tli, a)), off)
    {
      LsnOrder(c.w, a, off, seg, pos);
    }
  }

  lemma DurableKept(c: Cfg, s: St, s': St, n: nat)
    requires DurableTo(c, s, n) && BytesKept(c, s, s') && s'.tli == s.tli && s'.origin == s.origin
    ensures DurableTo(c, s', n)
  {
  }

  lemma AllBytesDurable(c: Cfg, id: SegId, f: SegFile)
    requires c.w > 0 && forall off: nat :: off < c.w ==> ByteDurable(c, id, f, off)
    ensures FullDurable(c, id, f)
  {
    assert ByteDurable(c, id, f, c.w - 1);
    forall i | 0 <= i < c.w ensures f.vol[i] == f.dur[i] == WalByte(c, id, i) {
      assert ByteDurable(c, id, f, i);
    }
  }

  /** Below a flushed position every segment is safe in full. */
  lemma SafeToPosition(c: Cfg, s: St, r: nat)
    requires c.w > 0 && DurableTo(c, s, r * c.w)
    ensures SafeBelow(c, s, r)
  {
    forall a: nat | s.origin <= a < r
      ensures SegSafe(c, s.stored, SegId(s.tli, a), At(s.files, SegId(s.tli, a)))
    {
      MulStep(a, r, c.w);
      var id := SegId(s.tli, a);
      if id !in s.stored {
        forall off: nat | off < c.w ensures ByteDurable(c, id, At(s.files, id), off) {
          assert a * c.w + off < r * c.w;
          assert ByteSafe(c, s.stored, id, At(s.files, id), off);
        }
        AllBytesDurable(c, id, At(s.files, id));
      }
    }
  }

  /** Where a session resumes: everything earlier is safe, nothing later is visible. */
  lemma RestartPlace(c: Cfg, s: St, r: nat)
    requires c.w > 0 && Contents(c, s.files) && Prefix(c, s) && DurableTo(c, s, s.acked) && RestartAt(c, s, r)
    ensures s.origin <= r && !At(s.files, SegId(s.tli, r)).vname.FinalName?
    ensures SafeBelow(c, s, r)
    ensures forall b: nat :: b > r ==> At(s.files, SegId(s.tli, b)).vname.NoName?
  {
    if r * c.w <= s.acked { SafeToPosition(c, s, r); }
  }

  lemma RestartKeeps(c: Cfg, s: St, s': St, r: nat)
    requires DiskInv(c, s) && DurableTo(c, s, s.acked) && Restart(c, s, s', r)
    ensures DiskInv(c, s') && Frame(c, s, s')
  {
    RestartPlace(c, s, r);
  }

  lemma SyncFlushes(c: Cfg, s: St, s': St)
    requires DiskInv(c, s) && FlushInv(c, s) && Sync(c, s, s')
    ensures DiskInv(c, s') && FlushInv(c, s') && Frame(c, s, s')
  {
    SyncKeeps(c, s, s');
    DurableKept(c, s, s', s.acked);
    DurableUpTo(c, s', s.phase.seg, s.phase.pos);
  }

  lemma CloseFlushes(c: Cfg, s: St, s': St)
    requires DiskInv(c, s) && FlushInv(c, s) && SyncDir(c, s, s')
    ensures DiskInv(c, s') && FlushInv(c, s') && Frame(c, s, s')
  {
    SyncDirKeeps(c, s, s');
    DurableKept(c, s, s', s.acked);
    DurableUpTo(c, s', s.phase.seg + 1, 0);
  }

  lemma ParkFlushes(c: Cfg, s: St, s': St)
    requires DiskInv(c, s) && FlushInv(c, s) && SyncDirParked(c, s, s')
    ensures DiskInv(c, s') && FlushInv(c, s') && Frame(c, s, s')
  {
    SyncDirParkedKeeps(c, s, s');
    DurableKept(c, s, s', s.acked);
    DurableKept(c, s, s', s.lastFlush);
    if s.phase.eot {
      DurableUpTo(c, s', s.phase.seg, s.blockPos - s.phase.seg * c.w);
    }
  }

  lemma RestartFlushes(c: Cfg, s: St, s': St, r: nat)
    requires DiskInv(c, s) && FlushInv(c, s) && Restart(c, s, s', r)
    ensures DiskInv(c, s') && FlushInv(c, s') && Frame(c, s, s')
  {
    RestartKeeps(c, s, s', r);
    DurableUpTo(c, s', r, 0);
  }

  lemma UnlinkFlushes(c: Cfg, s: St, s': St, g: SegFile)
    requires DiskInv(c, s) && FlushInv(c, s) && UnlinkOnOpen(c, s, s', g) && Unneeded(c, s)
    ensures FlushInv(c, s')
  {
    UnlinkKeeps(c, s, s', g);
    DurableUpTo(c, s', s.phase.seg, 0);
  }

  /** What an upload or a removal does to segment a, whose file is final. */
  ghost predicate OneUpload(c: Cfg, s: St, s': St, a: nat) {
    var id := s.Id(a);
    && s' == s.(files := s'.files, stored := s'.stored)
    && (forall x :: x != id ==> At(s'.files, x) == At(s.files, x) && (x in s'.stored <==> x in s.stored))
    && (forall x :: x in s'.stored ==> s'.stored[x] == Slice(c, x, c.w))
    && s.File(a).vname.FinalName? && CleanFile(c, id, s'.File(a)) && FullDurable(c, id, s.File(a))
    && (s'.File(a) == s.File(a) || (id in s.stored && id in s'.stored && s'.File(a) == s.File(a).(vname := NoName)))
  }

  lemma UploadSafe(c: Cfg, s: St, s': St, a: nat)
    requires OneUpload(c, s, s', a) && DiskInv(c, s)
    ensures FullKept(c, s, s') && BytesKept(c, s, s') && NamesKept(s, s')
  {
  }

  lemma UploadContents(c: Cfg, s: St, s': St, a: nat)
    requires OneUpload(c, s, s', a) && DiskInv(c, s)
    ensures Contents(c, s'.files) && Archive(c, s')
  {
  }

  lemma UploadPrefix(c: Cfg, s: St, s': St, a: nat)
    requires OneUpload(c, s, s', a) && Prefix(c, s) && FullKept(c, s, s')
    ensures Prefix(c, s')
  {
  }

  lemma UploadSession(c: Cfg, s: St, s': St, a: nat)
    requires OneUpload(c, s, s', a) && Session(c, s) && FullKept(c, s, s')
    ensures Session(c, s')
  {
  }

  lemma OneUploadKeeps(c: Cfg, s: St, s': St, a: nat)
    requires OneUpload(c, s, s', a) && DiskInv(c, s)
    ensures DiskInv(c, s') && UploadFrame(c, s, s')
  {
    UploadSafe(c, s, s', a);
    UploadContents(c, s, s', a);
    UploadPrefix(c, s, s', a);
    UploadSession(c, s, s', a);
  }

  lemma FinalIsSafe(c: Cfg, id: SegId, f: SegFile)
    requires CleanFile(c, id, f) && f.vname.FinalName?
    ensures FullDurable(c, id, f) && f.vol == Slice(c, id, c.w) && CleanFile(c, id, f.(vname := NoName))
  {
    HoldsIsSlice(c, id, f.vol);
  }

  lemma StoreKeeps(c: Cfg, s: St, s': St, a: nat)
    requires DiskInv(c, s) && Store(c, s, s', a)
    ensures DiskInv(c, s') && UploadFrame(c, s, s')
  {
    assert CleanFile(c, s.Id(a), At(s.files, s.Id(a)));
    FinalIsSafe(c, s.Id(a), s.File(a));
    OneUploadKeeps(c, s, s', a);
  }

  /** While the local file is there, a damaged object does no harm. */
  lemma StoreFailsKeeps(c: Cfg, s: St, s': St, a: nat)
    requires DiskInv(c, s) && StoreFails(c, s, s', a)
    ensures DiskInv(c, s') && UploadFrame(c, s, s')
  {
    assert CleanFile(c, s.Id(a), At(s.files, s.Id(a)));
    FinalIsSafe(c, s.Id(a), s.File(a));
    OneUploadKeeps(c, s, s', a);
  }

  /** The file goes only when the archive holds its segment. */
  lemma RemoveKeeps(c: Cfg, s: St, s': St, a: nat)
    requires DiskInv(c, s) && Remove(c, s, s', a)
    ensures DiskInv(c, s') && UploadFrame(c, s, s')
  {
    assert CleanFile(c, s.Id(a), At(s.files, s.Id(a)));
    FinalIsSafe(c, s.Id(a), s.File(a));
    OneUploadKeeps(c, s, s', a);
  }

  ghost predicate UploadFrame(c: Cfg, s: St, s': St) {
    && Frame(c, s, s')
    && s'.lastFlush == s.lastFlush && s'.acked == s.acked && s'.phase == s.phase && s'.blockPos == s.blockPos
  }

  /** Uploads and removals of complete segments lose nothing. */
  lemma UploadKeeps(c: Cfg, s: St, s': St, e: Step)
    requires DiskInv(c, s) && StepBy(c, s, s', e) && Uploading(e)
    ensures DiskInv(c, s') && UploadFrame(c, s, s')
  {
    if e.DoStore? {
      StoreKeeps(c, s, s', e.a);
    } else if e.FailStore? {
      StoreFailsKeeps(c, s, s', e.a);
    } else {
      RemoveKeeps(c, s, s', e.a);
    }
  }

  lemma UploadFlushes(c: Cfg, s: St, s': St, e: Step)
    requires DiskInv(c, s) && FlushInv(c, s) && StepBy(c, s, s', e) && Uploading(e)
    ensures FlushInv(c, s')
  {
    UploadKeeps(c, s, s', e);
    DurableKept(c, s, s', s.acked);
    DurableKept(c, s, s', s.lastFlush);
  }

  lemma NothingUploaded(c: Cfg, s: St, s': St, e: Step)
    requires StepBy(c, s, s', e) && Uploading(e) && s.stored == s'.stored == map[]
    ensures s' == s
  {
    if e.DoStore? { StoreGrows(c, s, s', e.a); }
  }

  lemma StoreGrows(c: Cfg, s: St, s': St, a: nat)
    requires Store(c, s, s', a)
    ensures s'.stored != map[]
  {
    assert s.Id(a) in s'.stored;
  }

  lemma HoldsIsSlice(c: Cfg, id: SegId, s: seq<byte>)
    requires Clean(c, id, s) && Holds(c, id, s, c.w)
    ensures s == Slice(c, id, c.w)
  {
  }

  lemma QuietKeeps(c: Cfg, s: St, s': St, e: Step)
    requires DiskInv(c, s) && StepBy(c, s, s', e) && Quiet(e)
    ensures DiskInv(c, s') && QuietFrame(c, s, s')
  {
    if e.DoOpen? {
      OpenExistingKeeps(c, s, s');
    } else if e.DoCreate? {
      CreateKeeps(c, s, s');
    } else if e.DoExtend? {
      ExtendKeeps(c, s, s');
    } else if e.DoWrite? {
      WriteKeeps(c, s, s', e.k);
    } else if e.DoSyncFull? {
      SyncFullKeeps(c, s, s');
    } else if e.DoRename? {
      RenameKeeps(c, s, s');
    } else if e.DoSyncFinal? {
      SyncFinalKeeps(c, s, s');
    } else if e.DoSyncParked? {
      SyncParkedKeeps(c, s, s');
    } else if e.FailSync? {
      SyncFailKeeps(c, s, s', e.g);
    } else if e.FailClosedSync? {
      SyncFailKeeps(c, s, s', e.g);
    } else if e.FailOther? {
      AbortKeeps(c, s, s', e.pos);
    } else if e.Kernel? {
      BackgroundKeeps(c, s, s');
    } else if e.MachineCrash? {
      CrashKeeps(c, s, s');
    } else if e.LastDirSync? {
      SessionDirSyncKeeps(c, s, s');
    } else if e.DoPark? {
      ParkKeeps(c, s, s');
    } else {
      PhaseKeeps(c, s, s', e);
    }
  }

  lemma ParkKeeps(c: Cfg, s: St, s': St)
    requires DiskInv(c, s) && Park(c, s, s')
    ensures DiskInv(c, s') && QuietFrame(c, s, s')
  {
    SameFilesKeep(c, s, s');
  }

  lemma PhaseKeeps(c: Cfg, s: St, s': St, e: Step)
    requires DiskInv(c, s) && StepBy(c, s, s', e)
    requires e.DoReport? || e.DoCloseFull? || e.DoEnd?
    ensures DiskInv(c, s') && QuietFrame(c, s, s')
  {
    SameFilesKeep(c, s, s');
  }

  lemma SameFilesKeep(c: Cfg, s: St, s': St)
    requires s'.files == s.files && s'.stored == s.stored && s'.tli == s.tli && s'.origin == s.origin
    requires Contents(c, s.files) && Archive(c, s) && Prefix(c, s)
    ensures Contents(c, s'.files) && Archive(c, s') && Prefix(c, s')
    ensures FullKept(c, s, s') && BytesKept(c, s, s') && NamesKept(s, s')
  {
  }

  lemma AbortKeeps(c: Cfg, s: St, s': St, pos: nat)
    requires DiskInv(c, s) && Abort(c, s, s', pos)
    ensures DiskInv(c, s') && QuietFrame(c, s, s')
  {
    SameFilesKeep(c, s, s');
  }

  lemma QuietFlushes(c: Cfg, s: St, s': St, e: Step)
    requires DiskInv(c, s) && FlushInv(c, s) && StepBy(c, s, s', e) && Quiet(e)
    ensures FlushInv(c, s')
  {
    QuietKeeps(c, s, s', e);
    DurableKept(c, s, s', s.acked);
    DurableKept(c, s, s', s.lastFlush);
  }

  /** Every step keeps the disk invariant; all but the removal of an unneeded file keep every safe byte. */
  lemma StepKeeps(c: Cfg, s: St, s': St, e: Step)
    requires DiskInv(c, s) && StepBy(c, s, s', e) && (e.Begin? ==> DurableTo(c, s, s.acked))
    ensures DiskInv(c, s') && Steady(s, s') && NamesKept(s, s')
    ensures !e.FailOpen? ==> BytesKept(c, s, s')
  {
    if e.DoSync? {
      SyncKeeps(c, s, s');
    } else if e.DoSyncDir? {
      SyncDirKeeps(c, s, s');
    } else if e.DoSyncDirParked? {
      SyncDirParkedKeeps(c, s, s');
    } else if e.FailOpen? {
      UnlinkKeeps(c, s, s', e.g);
    } else if e.Begin? {
      RestartKeeps(c, s, s', e.r);
    } else if Uploading(e) {
      UploadKeeps(c, s, s', e);
    } else {
      QuietKeeps(c, s, s', e);
    }
  }

  /** Every step keeps everything below the flush position and below all acknowledged positions durable. */
  lemma StepFlushes(c: Cfg, s: St, s': St, e: Step)
    requires DiskInv(c, s) && FlushInv(c, s) && StepBy(c, s, s', e)
    ensures FlushInv(c, s')
  {
    if e.DoSync? {
      SyncFlushes(c, s, s');
    } else if e.DoSyncDir? {
      CloseFlushes(c, s, s');
    } else if e.DoSyncDirParked? {
      ParkFlushes(c, s, s');
    } else if e.FailOpen? {
      UnlinkFlushes(c, s, s', e.g);
    } else if e.Begin? {
      RestartFlushes(c, s, s', e.r);
    } else if Uploading(e) {
      UploadFlushes(c, s, s', e);
    } else {
      QuietFlushes(c, s, s', e);
    }
  }

  /** Within a session the flush position never goes back. */
  lemma StepAdvances(c: Cfg, s: St, s': St, e: Step)
    requires DiskInv(c, s) && FlushInv(c, s) && StepBy(c, s, s', e) && !e.Begin?
    ensures s.lastFlush <= s'.lastFlush
  {
    if Quiet(e) { QuietKeeps(c, s, s', e); }
  }

  lemma InitHolds(c: Cfg, s: St)
    requires Init(c, s)
    ensures DiskInv(c, s) && FlushInv(c, s)
  {
  }

  // ---- whole runs ----

  lemma {:induction false} RunKeeps(c: Cfg, run: seq<St>, i: nat)
    requires IsRun(c, run) && i < |run|
    ensures DiskInv(c, run[i]) && FlushInv(c, run[i])
    ensures run[i].tli == run[0].tli && run[i].origin == run[0].origin
    ensures i > 0 ==> run[i - 1].acked <= run[i].acked
  {
    if i == 0 {
      InitHolds(c, run[0]);
    } else {
      RunKeeps(c, run, i - 1);
      assert RunStep(c, run, i);
      var e :| StepBy(c, run[i - 1], run[i], e);
      StepKeeps(c, run[i - 1], run[i], e);
      StepFlushes(c, run[i - 1], run[i], e);
    }
  }

  lemma {:induction false} AckedGrows(c: Cfg, run: seq<St>, j: nat, i: nat)
    requires IsRun(c, run) && j <= i < |run|
    ensures run[j].acked <= run[i].acked
    decreases i
  {
    RunKeeps(c, run, i);
    if j < i { AckedGrows(c, run, j, i - 1); }
  }

  ghost predicate Begins(c: Cfg, s: St, s': St) {
    exists r :: Restart(c, s, s', r)
  }

  /** Step i of the run does not begin a session. */
  ghost predicate SameSession(c: Cfg, run: seq<St>, i: nat)
    requires 0 < i < |run|
  {
    !Begins(c, run[i - 1], run[i])
  }

  /** Flush positions reported within one session never decrease: from any moment of the session to any later
    * one the position that a status update would report has not gone back. */
  lemma {:induction false} ReportsAscend(c: Cfg, run: seq<St>, j: nat, i: nat)
    requires IsRun(c, run) && j <= i < |run|
    requires forall k: nat :: j < k <= i ==> SameSession(c, run, k)
    ensures run[j].lastFlush <= run[i].lastFlush
    decreases i
  {
    if j < i {
      ReportsAscend(c, run, j, i - 1);
      RunKeeps(c, run, i - 1);
      assert RunStep(c, run, i) && SameSession(c, run, i);
      var e :| StepBy(c, run[i - 1], run[i], e);
      StepAdvances(c, run[i - 1], run[i], e);
    }
  }

  /** The byte is in a fully stored object, or in the durable copy of its segment file. */
  ghost predicate Recoverable(c: Cfg, stored: map<SegId, seq<byte>>, files: Files, id: SegId, off: nat) {
    || (id in stored && |stored[id]| == c.w && off < c.w && stored[id][off] == WalByte(c, id, off))
    || (var f := At(files, id); !f.dname.NoName? && |f.dur| == c.w && off < c.w && f.dur[off] == WalByte(c, id, off))
  }

  /** No acknowledged byte is lost: once a status update has reported a flush position, every byte
    * from the original start up to it is, at every later moment, in a fully stored object of the archive or in
    * the file of its segment, whatever a machine crash at that moment does. */
  lemma AcknowledgedBytesSurvive(c: Cfg, run: seq<St>, j: nat, i: nat, crashed: Files, seg: nat, off: nat)
    requires IsRun(c, run) && j + 1 <= i < |run|
    requires Report(c, run[j], run[j + 1])
    requires Crashed(run[i].files, crashed)
    requires run[0].origin <= seg && off < c.w && seg * c.w + off < run[j].lastFlush
    ensures Recoverable(c, run[i].stored, crashed, SegId(run[0].tli, seg), off)
  {
    RunKeeps(c, run, i);
    AckedGrows(c, run, j + 1, i);
    ReportAcks(c, run[j], run[j + 1]);
    SurvivesCrash(c, run[i], crashed, seg, off);
  }

  lemma ReportAcks(c: Cfg, s: St, s': St)
    requires Report(c, s, s')
    ensures s.lastFlush <= s'.acked
  {
  }

  lemma SurvivesCrash(c: Cfg, s: St, crashed: Files, seg: nat, off: nat)
    requires DiskInv(c, s) && FlushInv(c, s) && Crashed(s.files, crashed)
    requires s.origin <= seg && off < c.w && seg * c.w + off < s.acked
    ensures Recoverable(c, s.stored, crashed, SegId(s.tli, seg), off)
  {
    var id := SegId(s.tli, seg);
    assert ByteSafe(c, s.stored, id, At(s.files, id), off);
    assert CleanFile(c, id, At(s.files, id));
    assert Settled(At(s.files, id), At(crashed, id));
  }
}
