/** Where a session starts: the newest segment in the receive directory, and the fallbacks. */
module StreamingStart {
  import opened Arith
  import opened Bytes
  import opened Disk
  import opened Sorting
  import opened WalProtocol
  import opened XLog

  /** An entry met while walking the receive directory. */
  datatype DirEntry = DirEntry(base: string, size: nat)

  datatype WalEntry = WalEntry(tli: nat, segno: nat, isPartial: bool)

  datatype Position = Position(lsn: nat, tli: nat)

  datatype StartError = NoWalEntries | CannotReadDirectory

  /** Names of neither form, and complete names of the wrong size, are passed over. */
  predicate Considered(e: DirEntry, w: nat) {
    IsPartialXLogFileName(e.base) || (IsXLogFileName(e.base) && e.size == w)
  }

  function EntryOf(e: DirEntry, w: nat): WalEntry
    requires 0 < w <= WORD && Considered(e, w)
  {
    var p := XLogFromFileName(e.base, w).value;
    WalEntry(p.tli, p.segno, IsPartialXLogFileName(e.base))
  }

  /** Later segment, then later timeline, then complete before partial. */
  predicate Newer(a: WalEntry, b: WalEntry) {
    if a.segno != b.segno then a.segno > b.segno
    else if a.tli != b.tli then a.tli > b.tli
    else !a.isPartial && b.isPartial
  }

  function StartOf(best: WalEntry, w: nat): Position {
    Position(SegNoToRecPtr(if best.isPartial then best.segno else best.segno + 1, w), best.tli)
  }

  predicate IsEntry(dir: seq<DirEntry>, w: nat, x: WalEntry)
    requires 0 < w <= WORD
  {
    exists i :: 0 <= i < |dir| && Considered(dir[i], w) && EntryOf(dir[i], w) == x
  }

  method CollectEntries(dir: seq<DirEntry>, w: nat) returns (entries: seq<WalEntry>)
    requires 0 < w <= WORD
    ensures forall x :: x in entries <==> IsEntry(dir, w, x)
  {
    entries := [];
    for i := 0 to |dir|
      invariant forall x :: x in entries ==> exists j :: 0 <= j < i && Considered(dir[j], w) && EntryOf(dir[j], w) == x
      invariant forall j :: 0 <= j < i && Considered(dir[j], w) ==> EntryOf(dir[j], w) in entries
    {
      var base := dir[i].base;
      var isPartial := MatchPartialXLogFileName(base);
      var isComplete := MatchXLogFileName(base);
      if isPartial || (isComplete && dir[i].size == w) {
        var p := XLogFromFileName(base, w).value;
        entries := entries + [WalEntry(p.tli, p.segno, isPartial)];
      }
    }
  }

  lemma NewerIsOrder()
    ensures StrictWeakOrder(Newer)
  {
  }

  /** No entry that counts is newer than entry k. */
  ghost predicate IsNewest(dir: seq<DirEntry>, w: nat, k: nat)
    requires 0 < w <= WORD
  {
    && k < |dir| && Considered(dir[k], w)
    && forall i :: 0 <= i < |dir| && Considered(dir[i], w) ==> !Newer(EntryOf(dir[i], w), EntryOf(dir[k], w))
  }

  /** Of the entries that count, entry k has the greatest segment number; of those with that number, the greatest
    * timeline; and of those it is a complete one if there is one. */
  ghost predicate IsGreatest(dir: seq<DirEntry>, w: nat, k: nat)
    requires 0 < w <= WORD
  {
    && k < |dir| && Considered(dir[k], w)
    && forall i :: 0 <= i < |dir| && Considered(dir[i], w) ==>
        var a, b := EntryOf(dir[i], w), EntryOf(dir[k], w);
        && a.segno <= b.segno
        && (a.segno == b.segno ==> a.tli <= b.tli)
        && (a.segno == b.segno && a.tli == b.tli && b.isPartial ==> a.isPartial)
  }

  lemma NewestIsGreatest(dir: seq<DirEntry>, w: nat, k: nat)
    requires 0 < w <= WORD
    ensures IsNewest(dir, w, k) <==> IsGreatest(dir, w, k)
  {
  }

  /** Walking and sorting the directory finds an entry than which none is newer. The start is the beginning of a
    * partial segment and the end of a complete one. */
  method FindStreamingStart(dir: seq<DirEntry>, readable: bool, w: nat)
    returns (r: Result<Position, StartError>, ghost newest: nat)
    requires 0 < w <= WORD
    ensures !readable <==> r == Err(CannotReadDirectory)
    ensures r == Err(NoWalEntries) <==> readable && forall i :: 0 <= i < |dir| ==> !Considered(dir[i], w)
    ensures r.Ok? ==> IsNewest(dir, w, newest) && r.value == StartOf(EntryOf(dir[newest], w), w)
    ensures r.Ok? ==> IsGreatest(dir, w, newest)
    ensures r.Ok? ==> var best := EntryOf(dir[newest], w);
      && r.value.tli == best.tli
      && r.value.lsn == (if best.isPartial then best.segno * w else (best.segno + 1) * w) % UINT64
  {
    newest := 0;
    if !readable { return Err(CannotReadDirectory), newest; }
    var entries := CollectEntries(dir, w);
    if entries == [] {
      assert forall i :: 0 <= i < |dir| && Considered(dir[i], w) ==> IsEntry(dir, w, EntryOf(dir[i], w));
      r := Err(NoWalEntries);
      return;
    }
    NewerIsOrder();
    var sorted := Sort(entries, Newer);
    SameMembers(entries, sorted);
    assert sorted[0] in entries;
    r := Ok(StartOf(sorted[0], w));
    newest := FirstIsNewest(dir, w, sorted);
    NewestIsGreatest(dir, w, newest);
  }

  lemma FirstIsNewest(dir: seq<DirEntry>, w: nat, sorted: seq<WalEntry>) returns (newest: nat)
    requires 0 < w <= WORD && sorted != [] && Ordered(sorted, Newer)
    requires forall x :: x in sorted <==> IsEntry(dir, w, x)
    ensures IsNewest(dir, w, newest) && sorted[0] == EntryOf(dir[newest], w)
  {
    assert sorted[0] in sorted && IsEntry(dir, w, sorted[0]);
    newest :| newest < |dir| && Considered(dir[newest], w) && EntryOf(dir[newest], w) == sorted[0];
    forall i | 0 <= i < |dir| && Considered(dir[i], w) ensures !Newer(EntryOf(dir[i], w), sorted[0]) {
      assert IsEntry(dir, w, EntryOf(dir[i], w));
      FirstIsLeast(sorted, EntryOf(dir[i], w));
    }
  }

  lemma FirstIsLeast(sorted: seq<WalEntry>, x: WalEntry)
    requires x in sorted && Ordered(sorted, Newer)
    ensures !Newer(x, sorted[0])
  {
  }

  // ---- the start found is the restart position of the protocol ----

  /** What a walk of the receive directory shows of a file. */
  function Shown(w: nat, id: SegId, f: SegFile): DirEntry
    requires 0 < w <= WORD
  {
    DirEntry(XLogFileName(id.tli, id.seg, w) + if f.vname.PartialName? then PARTIAL_SUFFIX else "", |f.vol|)
  }

  predicate Visible(files: Files, id: SegId) { !At(files, id).vname.NoName? }

  ghost predicate IsShown(w: nat, files: Files, e: DirEntry)
    requires 0 < w <= WORD
  {
    exists id :: Visible(files, id) && e == Shown(w, id, At(files, id))
  }

  /** dir is a walk over these files, among others whose names are not those of segments. */
  ghost predicate Shows(w: nat, files: Files, dir: seq<DirEntry>)
    requires 0 < w <= WORD
  {
    && (forall id :: Visible(files, id) ==> InRange(id.tli, id.seg, w) && Shown(w, id, At(files, id)) in dir)
    && (forall e :: e in dir && Considered(e, w) ==> IsShown(w, files, e))
  }

  lemma ShownEntry(w: nat, id: SegId, f: SegFile)
    requires IsValidWalSegSize(w) && InRange(id.tli, id.seg, w) && !f.vname.NoName?
    ensures var e := Shown(w, id, f);
      && (Considered(e, w) <==> f.vname.PartialName? || |f.vol| == w)
      && (Considered(e, w) ==> EntryOf(e, w) == WalEntry(id.tli, id.seg, f.vname.PartialName?))
  {
    NameRoundTrip(id.tli, id.seg, w, PARTIAL_SUFFIX);
    NameRoundTrip(id.tli, id.seg, w, "");
    var name := XLogFileName(id.tli, id.seg, w);
    assert name + "" == name;
  }

  lemma EntryIsConsidered(c: Cfg, s: St, dir: seq<DirEntry>, a: nat) returns (i: nat)
    requires IsValidWalSegSize(c.w) && Shows(c.w, s.files, dir) && Entry(c, At(s.files, SegId(s.tli, a)))
    ensures i < |dir| && Considered(dir[i], c.w)
    ensures EntryOf(dir[i], c.w) == WalEntry(s.tli, a, At(s.files, SegId(s.tli, a)).vname.PartialName?)
  {
    var id := SegId(s.tli, a);
    assert Visible(s.files, id);
    ShownEntry(c.w, id, At(s.files, id));
    i :| 0 <= i < |dir| && dir[i] == Shown(c.w, id, At(s.files, id));
  }

  /** A directory entry that counts is a segment the protocol sees. */
  lemma ConsideredIsEntry(c: Cfg, s: St, dir: seq<DirEntry>, i: nat) returns (a: nat)
    requires IsValidWalSegSize(c.w) && OnlyTimeline(s) && Shows(c.w, s.files, dir) && i < |dir| &&
      Considered(dir[i], c.w)
    ensures Entry(c, At(s.files, SegId(s.tli, a)))
    ensures EntryOf(dir[i], c.w) == WalEntry(s.tli, a, At(s.files, SegId(s.tli, a)).vname.PartialName?)
  {
    assert dir[i] in dir && IsShown(c.w, s.files, dir[i]);
    var id :| Visible(s.files, id) && dir[i] == Shown(c.w, id, At(s.files, id));
    ShownEntry(c.w, id, At(s.files, id));
    a := id.seg;
  }

  lemma NoneAfterNewest(c: Cfg, s: St, dir: seq<DirEntry>, newest: nat, best: nat, a: nat)
    requires IsValidWalSegSize(c.w) && Shows(c.w, s.files, dir) && IsNewest(dir, c.w, newest)
    requires EntryOf(dir[newest], c.w).segno == best && Entry(c, At(s.files, SegId(s.tli, a)))
    ensures a <= best
  {
    var i := EntryIsConsidered(c, s, dir, a);
    assert !Newer(EntryOf(dir[i], c.w), EntryOf(dir[newest], c.w));
  }

  /** The newest directory entry is the newest segment, and streaming resumes where a restart of the
    * protocol does. */
  lemma NewestIsRestart(c: Cfg, s: St, dir: seq<DirEntry>, newest: nat) returns (r: nat)
    requires IsValidWalSegSize(c.w) && OnlyTimeline(s) && Shows(c.w, s.files, dir) && IsNewest(dir, c.w, newest)
    ensures RestartAt(c, s, r) && StartOf(EntryOf(dir[newest], c.w), c.w) == Position(r * c.w % UINT64, s.tli)
  {
    var best := ConsideredIsEntry(c, s, dir, newest);
    NewestIsBest(c, s, dir, newest, best);
    r := if s.File(best).vname.PartialName? then best else best + 1;
  }

  lemma NewestIsBest(c: Cfg, s: St, dir: seq<DirEntry>, newest: nat, best: nat)
    requires IsValidWalSegSize(c.w) && Shows(c.w, s.files, dir) && IsNewest(dir, c.w, newest)
    requires EntryOf(dir[newest], c.w).segno == best && Entry(c, At(s.files, SegId(s.tli, best)))
    ensures Best(c, s, best)
  {
    forall a: nat | Entry(c, At(s.files, SegId(s.tli, a))) ensures a <= best {
      NoneAfterNewest(c, s, dir, newest, best, a);
    }
  }

  /** No directory entry counts exactly when the protocol sees no segment either. */
  lemma NothingToFind(c: Cfg, s: St, dir: seq<DirEntry>)
    requires IsValidWalSegSize(c.w) && OnlyTimeline(s) && Shows(c.w, s.files, dir)
    ensures (exists i: nat :: i < |dir| && Considered(dir[i], c.w)) <==>
      exists a: nat :: Entry(c, At(s.files, SegId(s.tli, a)))
  {
    if i: nat :| i < |dir| && Considered(dir[i], c.w) { var a := ConsideredIsEntry(c, s, dir, i); }
    if a: nat :| Entry(c, At(s.files, SegId(s.tli, a))) { var i := EntryIsConsidered(c, s, dir, a); }
  }

  // ---- the start position of a session ----

  /** A position of the directory wins over that of the slot, and that over the server's current one;
    * zero means absent. */
  function Chosen(found: Result<Position, StartError>, slot: Position, current: Position): Position {
    var fromDir := if found.Ok? then found.value else Position(0, 0);
    var orSlot := if fromDir.lsn == 0 && slot.lsn != 0 then slot else fromDir;
    if orSlot.lsn == 0 then current else orSlot
  }

  /** The winner is moved back to the beginning of its segment. */
  function SelectStart(found: Result<Position, StartError>, slot: Position, current: Position, w: nat): Option<Position>
    requires w > 0
  {
    var start := Chosen(found, slot, current);
    if start.lsn == 0 || start.tli == 0 then None
    else Some(Position(start.lsn - SegmentOffset(start.lsn, w), start.tli))
  }

  /** The session begins with the segment that holds the position, on its timeline; without a timeline it cannot. */
  predicate Begins(start: Option<Position>, p: Position, w: nat)
    requires w > 0
  {
    && (start == None <==> p.tli == 0)
    && (start.Some? ==> start.value.tli == p.tli && start.value.lsn % w == 0
                        && start.value.lsn <= p.lsn < start.value.lsn + w)
  }

  lemma ChosenBegins(found: Result<Position, StartError>, slot: Position, current: Position, w: nat)
    requires w > 0 && IsValidWalSegSize(w)
    ensures var start, p := SelectStart(found, slot, current, w), Chosen(found, slot, current);
      if p.lsn == 0 then start == None else Begins(start, p, w)
  {
    var p := Chosen(found, slot, current);
    OffsetIsRemainder(p.lsn, w);
    AlignDown(p.lsn, w);
  }

  /** A position found in the directory decides where the session starts; if there is none, that of the slot; if
    * that is missing too, the server's current one; and if there is no position at all it cannot start. */
  lemma FirstPositionDecides(found: Result<Position, StartError>, slot: Position, current: Position, w: nat)
    requires IsValidWalSegSize(w) && w > 0
    ensures var start := SelectStart(found, slot, current, w);
      if found.Ok? && found.value.lsn != 0 then Begins(start, found.value, w)
      else if slot.lsn != 0 then Begins(start, slot, w)
      else if current.lsn != 0 then Begins(start, current, w)
      else start == None
  {
    ChosenBegins(found, slot, current, w);
  }

  /** With no segment in the directory a session starts where the protocol restarts, if the slot is no later than
    * what has been acknowledged. */
  lemma EmptyStartsAtRestart(c: Cfg, s: St, dir: seq<DirEntry>, slot: Position, current: Position)
    requires 0 < c.w <= WORD && OnlyTimeline(s) && Shows(c.w, s.files, dir)
    requires forall i :: 0 <= i < |dir| ==> !Considered(dir[i], c.w)
    requires slot.tli == s.tli > 0 && slot.lsn != 0 && s.origin * c.w <= slot.lsn <= s.acked
    requires IsValidWalSegSize(c.w)
    ensures var start := SelectStart(Err(NoWalEntries), slot, current, c.w);
      && start.Some? && start.value.tli == s.tli && start.value.lsn % c.w == 0
      && RestartAt(c, s, start.value.lsn / c.w)
  {
    NothingToFind(c, s, dir);
    FirstPositionDecides(Err(NoWalEntries), slot, current, c.w);
    var lsn := SelectStart(Err(NoWalEntries), slot, current, c.w).value.lsn;
    DivMod(lsn, c.w);
    var r := lsn / c.w;
    if r < s.origin { MulStep(r, s.origin, c.w); }
  }

  /** With a segment in the directory a session starts where the protocol restarts, unless that is
    * position zero, which counts as nothing found. */
  lemma SessionStartsAtRestart(c: Cfg, s: St, dir: seq<DirEntry>, newest: nat, slot: Position, current: Position)
    returns (r: nat)
    requires IsValidWalSegSize(c.w) && OnlyTimeline(s) && s.tli > 0
    requires Shows(c.w, s.files, dir) && IsNewest(dir, c.w, newest)
    ensures RestartAt(c, s, r)
    ensures 0 < r * c.w < UINT64 ==>
      SelectStart(Ok(StartOf(EntryOf(dir[newest], c.w), c.w)), slot, current, c.w) == Some(Position(r * c.w, s.tli))
  {
    r := NewestIsRestart(c, s, dir, newest);
    if 0 < r * c.w < UINT64 { AlignedIsKept(r * c.w, r, s.tli, slot, current, c.w); }
  }

  lemma AlignedIsKept(lsn: nat, r: nat, tli: nat, slot: Position, current: Position, w: nat)
    requires IsValidWalSegSize(w) && lsn == r * w && 0 < lsn < UINT64 && tli > 0
    ensures SelectStart(Ok(Position(lsn % UINT64, tli)), slot, current, w) == Some(Position(lsn, tli))
  {
    SmallMod(lsn);
    OffsetIsRemainder(lsn, w);
    DivModUnique(w, r, 0, lsn);
  }
}
