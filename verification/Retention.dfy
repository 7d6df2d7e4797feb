/** Recovery-window retention: choosing the oldest backup to keep, deleting older backups, then the WAL
  * that no kept backup needs. */
module Retention {
  import opened Arith
  import opened Bytes
  import opened Faults
  import opened Sorting
  import opened Storage
  import opened Strings
  import opened Variants
  import opened WalNames
  import opened XLog

  /** A successful backup with a readable manifest. */
  datatype Backup = Backup(name: string, startedAt: int, beginWAL: string)

  // ---- the anchor ----

  /** Backups started at t or later. */
  function CountFrom(backups: seq<Backup>, t: int): (n: nat)
    ensures n <= |backups|
  {
    if backups == [] then 0
    else (if backups[0].startedAt >= t then 1 else 0) + CountFrom(backups[1..], t)
  }

  lemma {:induction false} CountAppend(xs: seq<Backup>, ys: seq<Backup>, t: int)
    ensures CountFrom(xs + ys, t) == CountFrom(xs, t) + CountFrom(ys, t)
  {
    if xs == [] {
      assert xs + ys == ys;
    } else {
      assert (xs + ys)[1..] == xs[1..] + ys;
      CountAppend(xs[1..], ys, t);
    }
  }

  lemma Without(ys: seq<Backup>, j: nat, t: int) returns (rest: seq<Backup>)
    requires j < |ys|
    ensures multiset(rest) == multiset(ys) - multiset{ys[j]}
    ensures CountFrom(ys, t) == CountFrom(rest, t) + if ys[j].startedAt >= t then 1 else 0
  {
    rest := ys[..j] + ys[j + 1..];
    var tail := [ys[j]] + ys[j + 1..];
    assert ys == ys[..j] + tail && tail[1..] == ys[j + 1..];
    CountAppend(ys[..j], ys[j + 1..], t);
    CountAppend(ys[..j], tail, t);
  }

  lemma {:induction false} CountPermuted(xs: seq<Backup>, ys: seq<Backup>, t: int)
    requires multiset(xs) == multiset(ys)
    ensures CountFrom(xs, t) == CountFrom(ys, t)
    decreases |xs|
  {
    SameMembers(xs, ys);
    if xs != [] {
      assert xs[0] in xs && xs == [xs[0]] + xs[1..];
      var j :| 0 <= j < |ys| && ys[j] == xs[0];
      var rest := Without(ys, j, t);
      CountPermuted(xs[1..], rest, t);
    }
  }

  ghost predicate DistinctNames(backups: seq<Backup>) {
    forall i, j :: 0 <= i < j < |backups| ==> backups[i].name != backups[j].name
  }

  function Names(backups: seq<Backup>): set<string> {
    set b | b in backups :: b.name
  }

  function NamesFrom(backups: seq<Backup>, t: int): set<string> {
    set b | b in backups && b.startedAt >= t :: b.name
  }

  lemma NamesSplit(b: Backup, rest: seq<Backup>)
    ensures Names([b] + rest) == Names(rest) + {b.name}
  {
    forall x ensures x in [b] + rest <==> x == b || x in rest {}
  }

  lemma NamesFromSplit(b: Backup, rest: seq<Backup>, t: int)
    ensures NamesFrom([b] + rest, t) == NamesFrom(rest, t) + if b.startedAt >= t then {b.name} else {}
    ensures NamesFrom(rest, t) <= Names(rest)
  {
    forall x ensures x in [b] + rest <==> x == b || x in rest {}
  }

  lemma OneMore(names: set<string>, x: string)
    requires x !in names
    ensures |names + {x}| == |names| + 1 && names + {} == names
  {
  }

  lemma {:induction false} CountIsNames(backups: seq<Backup>, t: int)
    requires DistinctNames(backups)
    ensures CountFrom(backups, t) == |NamesFrom(backups, t)| && |backups| == |Names(backups)|
  {
    if backups != [] {
      var b, rest := backups[0], backups[1..];
      assert backups == [b] + rest;
      NotAmong(b, rest);
      CountIsNames(rest, t);
      NamesSplit(b, rest);
      NamesFromSplit(b, rest, t);
      OneMore(Names(rest), b.name);
      OneMore(NamesFrom(rest, t), b.name);
    }
  }

  lemma NotAmong(b: Backup, rest: seq<Backup>)
    requires DistinctNames([b] + rest)
    ensures b.name !in Names(rest) && DistinctNames(rest)
  {
    forall i, j | 0 <= i < j < |rest| ensures rest[i].name != rest[j].name {
      assert ([b] + rest)[i + 1] == rest[i] && ([b] + rest)[j + 1] == rest[j];
    }
    forall x | x in rest ensures x.name != b.name {
      var j :| 0 <= j < |rest| && rest[j] == x;
      assert ([b] + rest)[0] == b && ([b] + rest)[j + 1] == x;
    }
  }

  predicate StartedBefore(a: Backup, b: Backup) { a.startedAt < b.startedAt }

  lemma {:induction false} CountSorted(sorted: seq<Backup>, k: nat, t: int)
    requires Ordered(sorted, StartedBefore) && k <= |sorted|
    requires forall i :: 0 <= i < k ==> sorted[i].startedAt < t
    ensures CountFrom(sorted, t) == CountFrom(sorted[k..], t) <= |sorted| - k
    ensures k < |sorted| && sorted[k].startedAt >= t ==> CountFrom(sorted, t) == |sorted| - k
  {
    var before, after := sorted[..k], sorted[k..];
    assert sorted == before + after;
    CountAppend(before, after, t);
    CountNone(before, t);
    if k < |sorted| && sorted[k].startedAt >= t {
      forall j | 0 <= j < |after| ensures after[j].startedAt >= t { assert after[j] == sorted[k + j]; }
      CountEvery(after, t);
    }
  }

  lemma {:induction false} CountNone(xs: seq<Backup>, t: int)
    requires forall i :: 0 <= i < |xs| ==> xs[i].startedAt < t
    ensures CountFrom(xs, t) == 0
  {
    if xs != [] { CountNone(xs[1..], t); }
  }

  lemma {:induction false} CountEvery(xs: seq<Backup>, t: int)
    requires forall i :: 0 <= i < |xs| ==> xs[i].startedAt >= t
    ensures CountFrom(xs, t) == |xs|
  {
    if xs != [] { CountEvery(xs[1..], t); }
  }

  function Minimum(minimumBackups: int, n: nat): nat {
    var m := if minimumBackups <= 0 then 1 else minimumBackups;
    if m < n then m else n
  }

  /** Keeping everything from a on keeps enough backups, one from before the window if there is one, and all
    * backups of the window. */
  ghost predicate Admissible(backups: seq<Backup>, windowStart: int, minimumBackups: int, a: Backup) {
    && a in backups
    && CountFrom(backups, a.startedAt) >= Minimum(minimumBackups, |backups|)
    && ((exists b :: b in backups && b.startedAt <= windowStart) ==> a.startedAt <= windowStart)
    && (forall b :: b in backups && b.startedAt > windowStart ==> b.startedAt >= a.startedAt)
  }

  lemma CountAtIndex(backups: seq<Backup>, sorted: seq<Backup>, i: nat)
    requires Ordered(sorted, StartedBefore) && multiset(sorted) == multiset(backups) && i < |sorted|
    ensures CountFrom(backups, sorted[i].startedAt) >= |sorted| - i
  {
    CountPermuted(sorted, backups, sorted[i].startedAt);
    assert sorted == sorted[..i] + sorted[i..];
    CountAppend(sorted[..i], sorted[i..], sorted[i].startedAt);
    CountEvery(sorted[i..], sorted[i].startedAt);
  }

  lemma AtSortedIndex(backups: seq<Backup>, sorted: seq<Backup>, i: nat, windowStart: int, minimumBackups: int)
    requires Ordered(sorted, StartedBefore) && multiset(sorted) == multiset(backups) && i < |sorted|
    requires |sorted| - i >= Minimum(minimumBackups, |sorted|)
    requires sorted[i].startedAt <= windowStart || i == 0
    ensures Admissible(backups, windowStart, minimumBackups, sorted[i])
  {
    SameMembers(sorted, backups);
    assert sorted[i] in sorted;
    CountAtIndex(backups, sorted, i);
    if i == 0 { OldestFirst(backups, sorted); }
  }

  lemma OldestFirst(backups: seq<Backup>, sorted: seq<Backup>)
    requires Ordered(sorted, StartedBefore) && multiset(sorted) == multiset(backups) && sorted != []
    ensures forall b :: b in backups ==> b.startedAt >= sorted[0].startedAt
  {
    SameMembers(sorted, backups);
    forall b | b in backups ensures b.startedAt >= sorted[0].startedAt {
      var j :| 0 <= j < |sorted| && sorted[j] == b;
    }
  }

  /** A backup later than sorted[i] leaves fewer than the backups from i on. */
  lemma LaterKeepsFewer(backups: seq<Backup>, sorted: seq<Backup>, i: nat, b: Backup)
    requires Ordered(sorted, StartedBefore) && multiset(sorted) == multiset(backups) && i < |sorted|
    requires b.startedAt > sorted[i].startedAt
    ensures CountFrom(backups, b.startedAt) < |sorted| - i
  {
    CountPermuted(sorted, backups, b.startedAt);
    CountSorted(sorted, i + 1, b.startedAt);
  }

  lemma LaterIsNotAdmissible(backups: seq<Backup>, sorted: seq<Backup>, i: nat, windowStart: int, minimumBackups: int,
                             b: Backup)
    requires Ordered(sorted, StartedBefore) && multiset(sorted) == multiset(backups) && i < |sorted|
    requires Admissible(backups, windowStart, minimumBackups, sorted[i])
    requires (forall j :: i < j < |sorted| ==> sorted[j].startedAt > windowStart)
      || |sorted| - i <= Minimum(minimumBackups, |backups|)
    requires b in backups && b.startedAt > sorted[i].startedAt
    ensures !Admissible(backups, windowStart, minimumBackups, b)
  {
    SameMembers(sorted, backups);
    var j :| 0 <= j < |sorted| && sorted[j] == b;
    LaterKeepsFewer(backups, sorted, i, b);
  }

  lemma StartedBeforeIsOrder()
    ensures StrictWeakOrder(StartedBefore)
  {
  }

  /** The newest backup at or before the window start, or an older one if that keeps too few; if all are
    * newer, the oldest. No later backup would be admissible. */
  method ChooseRecoveryWindowAnchor(backups: seq<Backup>, recoveryWindow: int, minimumBackups: int, now: int)
    returns (anchor: Option<Backup>)
    ensures anchor.None? <==> backups == []
    ensures anchor.Some? ==> Admissible(backups, now - recoveryWindow, minimumBackups, anchor.value)
    ensures anchor.Some? ==> forall b :: b in backups && b.startedAt > anchor.value.startedAt ==>
      !Admissible(backups, now - recoveryWindow, minimumBackups, b)
  {
    if backups == [] { return None; }
    var minimum := if minimumBackups <= 0 then 1 else minimumBackups;
    StartedBeforeIsOrder();
    var sorted := Sort(backups, StartedBefore);
    SameMembers(sorted, backups);
    var windowStart := now - recoveryWindow;
    var anchorIdx := -1;
    for i := 0 to |sorted|
      invariant -1 <= anchorIdx < i
      invariant anchorIdx >= 0 ==> sorted[anchorIdx].startedAt <= windowStart
      invariant forall j :: anchorIdx < j < i ==> sorted[j].startedAt > windowStart
    {
      if sorted[i].startedAt <= windowStart { anchorIdx := i; }
    }
    if anchorIdx == -1 { anchorIdx := 0; }
    var keptCount := |sorted| - anchorIdx;
    if keptCount < minimum {
      anchorIdx := |sorted| - minimum;
      if anchorIdx < 0 { anchorIdx := 0; }
    }
    AtSortedIndex(backups, sorted, anchorIdx, windowStart, minimumBackups);
    forall b | b in backups && b.startedAt > sorted[anchorIdx].startedAt
      ensures !Admissible(backups, windowStart, minimumBackups, b)
    {
      LaterIsNotAdmissible(backups, sorted, anchorIdx, windowStart, minimumBackups, b);
    }
    return Some(sorted[anchorIdx]);
  }

  function OlderNames(backups: seq<Backup>, anchor: Backup): set<string> {
    set b | b in backups && b.startedAt < anchor.startedAt :: b.name
  }

  lemma LessIsOrder()
    ensures StrictWeakOrder(Less)
  {
    forall a: string, b: string | Less(a, b) ensures !Less(b, a) { LessAsymmetric(a, b); }
    forall a: string, b: string, c: string | !Less(b, a) && !Less(c, b) ensures !Less(c, a) {
      LessNotTransitive(c, b, a);
    }
  }

  /** In the order of names. */
  method BackupsOlderThanAnchor(backups: seq<Backup>, anchor: Backup) returns (names: seq<string>)
    ensures forall n :: n in names <==> n in OlderNames(backups, anchor)
    ensures Ordered(names, Less)
  {
    names := [];
    for i := 0 to |backups|
      invariant forall n :: n in names <==> n in OlderNames(backups[..i], anchor)
    {
      var b := backups[i];
      assert backups[..i + 1] == backups[..i] + [b];
      assert OlderNames(backups[..i + 1], anchor) == OlderNames(backups[..i], anchor) + OlderNames([b], anchor);
      if b.startedAt < anchor.startedAt {
        assert b in [b];
        names := names + [b.name];
      }
    }
    assert backups[..|backups|] == backups;
    LessIsOrder();
    var unsorted := names;
    names := Sort(unsorted, Less);
    SameMembers(names, unsorted);
  }

  // ---- the begin WAL of a backup ----

  /** start is None if the text is empty or cannot be parsed. */
  datatype WalRange = WalRange(start: Option<nat>, timeline: int)

  datatype Info = Info(startedAt: Option<int>, startLSN: nat, timelineID: int, ranges: seq<WalRange>)

  predicate Usable(r: WalRange) { r.start.Some? && r.start.value != 0 }

  function BeginWALOf(timelineID: int, startLSN: nat, walSegSz: nat): string
    requires walSegSz <= WORD
  {
    if walSegSz == 0 || timelineID == 0 || startLSN == 0 then ""
    else XLogFileName(if timelineID < 0 then 0 else timelineID, ByteToSeg(startLSN, walSegSz), walSegSz)
  }

  function FirstUsable(ranges: seq<WalRange>): (r: Option<WalRange>)
    ensures r.Some? ==> Usable(r.value)
  {
    if ranges == [] then None else if Usable(ranges[0]) then Some(ranges[0]) else FirstUsable(ranges[1..])
  }

  /** The first usable range of the manifest decides, if there is one. */
  function BeginWAL(info: Info, walSegSz: nat): string
    requires walSegSz <= WORD
  {
    match FirstUsable(info.ranges)
    case None => BeginWALOf(info.timelineID, info.startLSN, walSegSz)
    case Some(r) => BeginWALOf(if r.timeline != 0 then r.timeline else info.timelineID, r.start.value, walSegSz)
  }

  /** A position that a manifest range does not give. */
  predicate Absent(start: Option<nat>) { start == None || start == Some(0) }

  /** Where a backup starts: the first range of its manifest that gives a position, with the timeline of that range
    * if it has one, or else what the server has answered. */
  ghost predicate StartsAt(info: Info, lsn: nat, tli: int) {
    || (exists i :: FirstAt(info, lsn, tli, i))
    || ((forall j :: 0 <= j < |info.ranges| ==> Absent(info.ranges[j].start))
          && lsn == info.startLSN && tli == info.timelineID)
  }

  lemma {:induction false} FirstUsableAt(ranges: seq<WalRange>, i: nat)
    requires i <= |ranges| && forall j :: 0 <= j < i ==> Absent(ranges[j].start)
    requires i < |ranges| ==> !Absent(ranges[i].start)
    ensures FirstUsable(ranges) == if i < |ranges| then Some(ranges[i]) else None
  {
    if i > 0 { FirstUsableAt(ranges[1..], i - 1); }
  }

  ghost predicate FirstAt(info: Info, lsn: nat, tli: int, i: int) {
    && 0 <= i < |info.ranges| && info.ranges[i].start == Some(lsn) && lsn != 0
    && tli == (if info.ranges[i].timeline != 0 then info.ranges[i].timeline else info.timelineID)
    && forall j :: 0 <= j < i ==> Absent(info.ranges[j].start)
  }

  lemma StartDecides(info: Info, lsn: nat, tli: int, w: nat)
    requires w <= WORD && StartsAt(info, lsn, tli)
    ensures BeginWAL(info, w) == BeginWALOf(tli, lsn, w)
  {
    if i :| FirstAt(info, lsn, tli, i) {
      FirstUsableAt(info.ranges, i);
    } else {
      FirstUsableAt(info.ranges, |info.ranges|);
    }
  }

  predicate Covers(segno: nat, w: nat, lsn: nat) { segno * w <= lsn < segno * w + w }

  /** The name is that of the segment which contains the position, on its timeline. */
  predicate Contains(name: string, w: nat, lsn: nat, tli: nat)
    requires 0 < w <= WORD
  {
    && IsXLogFileName(name)
    && var s := XLogFromFileName(name, w);
       s.Some? && s.value.tli == tli && Covers(s.value.segno, w, lsn)
  }

  lemma SegmentOf(lsn: nat, w: nat) returns (n: nat)
    requires w > 0
    ensures n == ByteToSeg(lsn, w) && Covers(n, w, lsn)
  {
    n := ByteToSeg(lsn, w);
    DivMod(lsn, w);
  }

  lemma NameContains(tli: nat, segno: nat, w: nat, lsn: nat)
    requires IsValidWalSegSize(w) && 0 < w <= WORD && InRange(tli, segno, w) && Covers(segno, w, lsn)
    ensures Contains(XLogFileName(tli, segno, w), w, lsn, tli)
  {
    var name := XLogFileName(tli, segno, w);
    NameRoundTrip(tli, segno, w, "");
    assert name + "" == name;
  }

  /** The begin WAL is the segment that contains the start position, on the timeline of the start; it is empty
    * exactly if there is no position or no timeline. */
  lemma BeginContainsStart(info: Info, lsn: nat, tli: int, w: nat)
    requires IsValidWalSegSize(w) && 0 < w <= WORD && StartsAt(info, lsn, tli) && lsn < UINT64 && tli < WORD
    ensures BeginWAL(info, w) == "" <==> lsn == 0 || tli == 0
    ensures BeginWAL(info, w) != "" ==> Contains(BeginWAL(info, w), w, lsn, if tli < 0 then 0 else tli)
  {
    var t: nat := if tli < 0 then 0 else tli;
    StartDecides(info, lsn, tli, w);
    var n := SegmentOf(lsn, w);
    NameContains(t, n, w, lsn);
    NameIsHex(t, n, w);
  }

  method BackupBeginWAL(info: Info, walSegSz: nat) returns (name: string)
    requires walSegSz <= WORD
    ensures name == BeginWAL(info, walSegSz)
  {
    if walSegSz == 0 { return ""; }
    var timelineID, startLSN := info.timelineID, info.startLSN;
    for i := 0 to |info.ranges|
      invariant timelineID == info.timelineID && startLSN == info.startLSN
      invariant FirstUsable(info.ranges[i..]) == FirstUsable(info.ranges)
    {
      var r := info.ranges[i];
      assert info.ranges[i..][1..] == info.ranges[i + 1..];
      if r.start.Some? && r.start.value != 0 {
        startLSN := r.start.value;
        if r.timeline != 0 { timelineID := r.timeline; }
        break;
      }
    }
    return BeginWALOf(timelineID, startLSN, walSegSz);
  }

  // ---- what a pass may do ----

  /** A successful backup: its manifest can be read and has a start time and a begin WAL. */
  predicate IsBackup(manifests: map<string, Info>, walSegSz: nat, b: Backup)
    requires walSegSz <= WORD
  {
    && b.name in manifests && manifests[b.name].startedAt == Some(b.startedAt)
    && b.beginWAL == BeginWAL(manifests[b.name], walSegSz) != ""
  }

  /** An archived object that restoring b needs. */
  predicate Needs(path: string, b: Backup) {
    IsRootStoragePath(path) && Normalized(path).Segment? && !WalBefore(Normalized(path).name, b.beginWAL)
  }

  /** End to end: a segment archived under any suffix is below a begin WAL, as retention reads names, exactly if it
    * is earlier in timeline and segment number, and is needed by the backup exactly otherwise. */
  lemma ArchivedSegment(tli: nat, segno: nat, alg: Algorithms, ext: string, b: Backup, tli0: nat, segno0: nat, w: nat)
    requires IsValidWalSegSize(w) && InRange(tli, segno, w) && InRange(tli0, segno0, w) && IsSupportedExt(alg, ext)
    requires b.beginWAL == XLogFileName(tli0, segno0, w)
    ensures var path := XLogFileName(tli, segno, w) + ext;
      && (Doomed(path, b.beginWAL) <==> Earlier(SegName(tli, segno), SegName(tli0, segno0)))
      && (Needs(path, b) <==> !Earlier(SegName(tli, segno), SegName(tli0, segno0)))
  {
    var name := XLogFileName(tli, segno, w);
    NameRoundTrip(tli, segno, w, "");
    SegmentIsItself(name);
    VariantsAlike(alg, name, ext);
    FileNameOrder(tli, segno, tli0, segno0, w);
  }

  /** Object k is a segment, under any suffix, that holds the position or lies behind it. */
  ghost predicate Behind(k: string, alg: Algorithms, w: nat, tli: nat, segno: nat, ext: string, lsn: nat, start: nat)
    requires 0 < w <= WORD
  {
    && InRange(tli, segno, w) && IsSupportedExt(alg, ext) && k == XLogFileName(tli, segno, w) + ext
    && (tli > start || (tli == start && lsn < segno * w + w))
  }

  /** An archived segment that holds the start of the backup or lies behind it. */
  ghost predicate FromStart(info: Info, w: nat, alg: Algorithms, k: string)
    requires 0 < w <= WORD
  {
    exists lsn: nat, start: nat, tli: nat, segno: nat, ext ::
      StartsAt(info, lsn, start) && 0 < lsn < UINT64 && 0 < start < WORD
      && Behind(k, alg, w, tli, segno, ext, lsn, start)
  }

  lemma BehindIsNeeded(k: string, alg: Algorithms, w: nat, tli: nat, segno: nat, ext: string, lsn: nat, start: nat,
                       b: Backup, begin: nat)
    requires IsValidWalSegSize(w) && 0 < w <= WORD && Behind(k, alg, w, tli, segno, ext, lsn, start)
    requires lsn < UINT64 && start < WORD && Covers(begin, w, lsn) && b.beginWAL == XLogFileName(start, begin, w)
    ensures Needs(k, b)
  {
    if segno < begin { MulStep(segno, begin, w); }
    ArchivedSegment(tli, segno, alg, ext, b, start, begin, w);
  }

  /** Restoring a backup needs every such segment. */
  lemma FromStartIsNeeded(info: Info, w: nat, alg: Algorithms, k: string, b: Backup)
    requires IsValidWalSegSize(w) && 0 < w <= WORD && FromStart(info, w, alg, k) && b.beginWAL == BeginWAL(info, w)
    ensures Needs(k, b)
  {
    var lsn: nat, start: nat, tli: nat, segno: nat, ext :|
      StartsAt(info, lsn, start) && 0 < lsn < UINT64 && 0 < start < WORD
      && Behind(k, alg, w, tli, segno, ext, lsn, start);
    StartDecides(info, lsn, start, w);
    var begin := SegmentOf(lsn, w);
    BehindIsNeeded(k, alg, w, tli, segno, ext, lsn, start, b, begin);
  }

  /** Storage as a crash at this point would leave it. */
  datatype Snapshot = Snapshot(dirs: set<string>, wals: Objects)

  /** Every backup still there has all the WAL it had before. */
  ghost predicate Restorable(backups: seq<Backup>, before: Objects, s: Snapshot) {
    forall b, k :: b in backups && b.name in s.dirs && k in before && Needs(k, b) ==>
      k in s.wals && s.wals[k] == before[k]
  }

  function DoomedKeys(wals: Objects, boundary: string): set<string> {
    set k | k in wals && Doomed(k, boundary)
  }

  predicate Judged(k: string, doomed: set<string>, wals: Objects, boundary: string) {
    k in doomed <==> k in wals && Doomed(k, boundary)
  }

  ghost predicate IsDoomed(doomed: set<string>, wals: Objects, boundary: string) {
    forall k :: Judged(k, doomed, wals, boundary)
  }

  lemma DoomedKeysExact(wals: Objects, boundary: string)
    ensures IsDoomed(DoomedKeys(wals, boundary), wals, boundary)
  {
  }

  /** Only backups older than the anchor are deleted, and WAL only below its begin and only after them. */
  predicate Lawful(older: set<string>, doomed: set<string>, before: Snapshot, s: Snapshot) {
    && s.dirs <= before.dirs && before.dirs - s.dirs <= older
    && s.wals.Keys <= before.wals.Keys && before.wals.Keys - s.wals.Keys <= doomed
    && (forall k :: k in s.wals ==> s.wals[k] == before.wals[k])
    && (s.wals.Keys != before.wals.Keys ==> older !! s.dirs)
  }

  /** A backup that started no earlier begins no earlier in the WAL. */
  ghost predicate Monotone(backups: seq<Backup>) {
    forall a, b :: a in backups && b in backups && a.startedAt <= b.startedAt ==> !WalBefore(b.beginWAL, a.beginWAL)
  }

  ghost predicate Solid(backups: seq<Backup>) {
    forall b :: b in backups ==> ToUpper(TrimSpace(b.beginWAL)) != ""
  }

  lemma HexSolid(name: string)
    requires name != "" && AllHex(name)
    ensures ToUpper(TrimSpace(name)) != ""
  {
  }

  lemma BeginWALOfSolid(timelineID: int, startLSN: nat, walSegSz: nat)
    requires walSegSz <= WORD && BeginWALOf(timelineID, startLSN, walSegSz) != ""
    ensures ToUpper(TrimSpace(BeginWALOf(timelineID, startLSN, walSegSz))) != ""
  {
    NameIsHex(if timelineID < 0 then 0 else timelineID, ByteToSeg(startLSN, walSegSz), walSegSz);
    HexSolid(BeginWALOf(timelineID, startLSN, walSegSz));
  }

  lemma BeginWALSolid(info: Info, walSegSz: nat)
    requires walSegSz <= WORD && BeginWAL(info, walSegSz) != ""
    ensures ToUpper(TrimSpace(BeginWAL(info, walSegSz))) != ""
  {
    var r := FirstUsable(info.ranges);
    BeginWALOfSolid(if r.Some? && r.value.timeline != 0 then r.value.timeline else info.timelineID,
                    if r.None? then info.startLSN else r.value.start.value, walSegSz);
  }

  lemma NameIsHex(tli: nat, segno: nat, w: nat)
    requires 0 < w <= WORD
    ensures XLogFileName(tli, segno, w) != "" && AllHex(XLogFileName(tli, segno, w))
  {
    var log, seg := SplitSegno(tli, segno, SegmentsPerXLogId(w));
    HexValue(tli, 8);
    HexValue(log, 8);
    HexValue(seg, 8);
  }

  lemma SegmentNameSolid(path: string)
    requires Normalized(path).Segment?
    ensures ToUpper(TrimSpace(Normalized(path).name)) != ""
  {
  }

  /** With monotone backups nothing below the anchor's begin WAL is needed by a backup that is kept. */
  lemma DoomedIsNotNeeded(backups: seq<Backup>, anchor: Backup, b: Backup, path: string)
    requires Monotone(backups) && Solid(backups) && anchor in backups && b in backups
    requires b.startedAt >= anchor.startedAt && Doomed(path, anchor.beginWAL)
    ensures !Needs(path, b)
  {
    SegmentNameSolid(path);
    if Needs(path, b) { BoundaryOrder(Normalized(path).name, b.beginWAL, anchor.beginWAL); }
  }

  /** Whatever a lawful pass has done so far, what is left can be restored. */
  lemma LawfulIsRestorable(backups: seq<Backup>, anchor: Backup, before: Snapshot, s: Snapshot)
    requires Monotone(backups) && Solid(backups) && anchor in backups
    requires Lawful(OlderNames(backups, anchor), DoomedKeys(before.wals, anchor.beginWAL), before, s)
    ensures Restorable(backups, before.wals, s)
  {
    forall b, k | b in backups && b.name in s.dirs && k in before.wals && Needs(k, b)
      ensures k in s.wals && s.wals[k] == before.wals[k]
    {
      if k !in s.wals {
        assert k in before.wals.Keys - s.wals.Keys;
        DoomedIsNotNeeded(backups, anchor, b, k);
      }
    }
  }

  /** From its start on, every backup still there has all the WAL that was archived. */
  ghost predicate StartsKept(manifests: map<string, Info>, w: nat, alg: Algorithms, backups: seq<Backup>,
                             before: Objects, s: Snapshot)
    requires 0 < w <= WORD
  {
    forall b, k | b in backups && b.name in s.dirs && b.name in manifests && k in before
                  && FromStart(manifests[b.name], w, alg, k) :: k in s.wals && s.wals[k] == before[k]
  }

  lemma RestorableFromStart(manifests: map<string, Info>, w: nat, alg: Algorithms, backups: seq<Backup>,
                            before: Objects, s: Snapshot)
    requires IsValidWalSegSize(w) && 0 < w <= WORD && Restorable(backups, before, s)
    requires forall b :: b in backups ==> IsBackup(manifests, w, b)
    ensures StartsKept(manifests, w, alg, backups, before, s)
  {
    forall b, k | b in backups && b.name in s.dirs && b.name in manifests && k in before
                  && FromStart(manifests[b.name], w, alg, k)
      ensures k in s.wals && s.wals[k] == before[k]
    {
      FromStartIsNeeded(manifests[b.name], w, alg, k, b);
    }
  }

  /** Both ways of saying that the backups left can be restored. */
  ghost predicate AllRestorable(manifests: map<string, Info>, w: nat, alg: Algorithms, backups: seq<Backup>,
                                before: Objects, s: Snapshot)
    requires w <= WORD
  {
    && Restorable(backups, before, s)
    && (IsValidWalSegSize(w) && 0 < w ==> StartsKept(manifests, w, alg, backups, before, s))
  }

  lemma PassIsRestorable(manifests: map<string, Info>, w: nat, alg: Algorithms, backups: seq<Backup>, anchor: Backup,
                         before: Snapshot, trace: seq<Snapshot>)
    requires w <= WORD && Monotone(backups) && Solid(backups) && anchor in backups
    requires forall b :: b in backups ==> IsBackup(manifests, w, b)
    requires AllLawful(OlderNames(backups, anchor), DoomedKeys(before.wals, anchor.beginWAL), before, trace)
    ensures forall s :: s in trace ==> AllRestorable(manifests, w, alg, backups, before.wals, s)
  {
    TraceIsRestorable(backups, anchor, before, trace);
    forall s | s in trace ensures AllRestorable(manifests, w, alg, backups, before.wals, s) {
      if IsValidWalSegSize(w) {
        ValidSize(w);
        RestorableFromStart(manifests, w, alg, backups, before.wals, s);
      }
    }
  }

  lemma TraceIsRestorable(backups: seq<Backup>, anchor: Backup, before: Snapshot, trace: seq<Snapshot>)
    requires Monotone(backups) && Solid(backups) && anchor in backups
    requires AllLawful(OlderNames(backups, anchor), DoomedKeys(before.wals, anchor.beginWAL), before, trace)
    ensures forall s :: s in trace ==> Restorable(backups, before.wals, s)
  {
    forall s | s in trace ensures Restorable(backups, before.wals, s) {
      LawfulIsRestorable(backups, anchor, before, s);
    }
  }

  /** An archived segment lies between the begin WAL of a backup that will be kept and that of the anchor. */
  ghost predicate Crossed(backups: seq<Backup>, anchor: Backup, before: Objects) {
    exists b, k :: b in backups && b.startedAt >= anchor.startedAt && k in before && Needs(k, b) &&
      Doomed(k, anchor.beginWAL)
  }

  /** Without that assumption, exactly when a complete pass harms a backup it keeps: if before the pass such a
    * segment is archived. */
  lemma HarmExactly(manifests: map<string, Info>, walSegSz: nat, backups: seq<Backup>, anchor: Backup,
                    before: Snapshot, s: Snapshot)
    requires walSegSz <= WORD
    requires forall b :: b in backups ==> b.name in before.dirs && IsBackup(manifests, walSegSz, b)
    requires Lawful(OlderNames(backups, anchor), DoomedKeys(before.wals, anchor.beginWAL), before, s)
    requires OlderNames(backups, anchor) !! s.dirs && s.wals.Keys !! DoomedKeys(before.wals, anchor.beginWAL)
    ensures Restorable(backups, before.wals, s) <==> !Crossed(backups, anchor, before.wals)
  {
    forall k | k in before.wals ensures k in s.wals <==> !Doomed(k, anchor.beginWAL) {
      assert k !in s.wals ==> k in before.wals.Keys - s.wals.Keys;
      assert k in s.wals ==> k in s.wals.Keys;
    }
    KeptBackups(manifests, walSegSz, backups, anchor, DoomedKeys(before.wals, anchor.beginWAL), before, s);
    forall b | b in backups && b.name in s.dirs ensures b.startedAt >= anchor.startedAt {
      assert b.name !in OlderNames(backups, anchor);
    }
  }

  /** Such a segment, by number: not before the begin of the kept backup, and before that of the anchor. */
  lemma CrossedSegment(tli: nat, segno: nat, alg: Algorithms, ext: string, w: nat,
                       b: Backup, tliB: nat, segnoB: nat, anchor: Backup, tliA: nat, segnoA: nat)
    requires IsValidWalSegSize(w) && InRange(tli, segno, w) && IsSupportedExt(alg, ext)
    requires InRange(tliB, segnoB, w) && b.beginWAL == XLogFileName(tliB, segnoB, w)
    requires InRange(tliA, segnoA, w) && anchor.beginWAL == XLogFileName(tliA, segnoA, w)
    ensures var path, p := XLogFileName(tli, segno, w) + ext, SegName(tli, segno);
      Needs(path, b) && Doomed(path, anchor.beginWAL) <==>
        !Earlier(p, SegName(tliB, segnoB)) && Earlier(p, SegName(tliA, segnoA))
  {
    ArchivedSegment(tli, segno, alg, ext, b, tliB, segnoB, w);
    ArchivedSegment(tli, segno, alg, ext, anchor, tliA, segnoA, w);
  }

  lemma BeginOfSegment(segno: nat, startedAt: int, w: nat)
    requires 0 < w <= WORD && segno > 0
    ensures BeginWAL(Info(Some(startedAt), segno * w, 1, []), w) == XLogFileName(1, segno, w) != ""
  {
    var start := segno * w;
    MultipleOf(segno, w);
    assert start != 0 && ByteToSeg(start, w) == segno;
    NameIsHex(1, segno, w);
  }

  lemma ValidSize(w: nat)
    requires IsValidWalSegSize(w)
    ensures 0 < w <= WORD
  {
  }

  /** Two backups of which the later one begins one segment earlier, and the archive holds that segment. */
  lemma LaterBeginsEarlier(w: nat)
    returns (manifests: map<string, Info>, backups: seq<Backup>, anchor: Backup, before: Snapshot)
    requires IsValidWalSegSize(w)
    ensures w <= WORD && DistinctNames(backups) && Admissible(backups, 2, 2, anchor)
    ensures forall b :: b in backups ==> b.name in before.dirs && IsBackup(manifests, w, b)
    ensures Crossed(backups, anchor, before.wals)
  {
    ValidSize(w);
    BeginOfSegment(1, 2, w);
    BeginOfSegment(2, 1, w);
    manifests := map["a" := Info(Some(1), 2 * w, 1, []), "b" := Info(Some(2), 1 * w, 1, [])];
    var one := XLogFileName(1, 1, w);
    var b := Backup("b", 2, one);
    anchor := Backup("a", 1, XLogFileName(1, 2, w));
    backups, before := [anchor, b], Snapshot({"a", "b"}, map[one := []]);
    FirstTwoInRange(w);
    CrossedSegment(1, 1, Algorithms(None, None, None), "", w, b, 1, 1, anchor, 1, 2);
    assert one + "" == one;
    BothAdmissible(anchor, b);
  }

  lemma FirstTwoInRange(w: nat)
    requires IsValidWalSegSize(w)
    ensures InRange(1, 1, w) && InRange(1, 2, w)
  {
  }

  lemma BothAdmissible(a: Backup, b: Backup)
    requires a.startedAt == 1 && b.startedAt == 2
    ensures Admissible([a, b], 2, 2, a)
  {
    assert [a, b][1..] == [b];
    assert [b][1..] == [];
  }

  /** A complete pass over them leaves a backup that can no longer be restored. */
  lemma PassCanHarm(w: nat)
    returns (manifests: map<string, Info>, backups: seq<Backup>, anchor: Backup, before: Snapshot, s: Snapshot)
    requires IsValidWalSegSize(w)
    ensures w <= WORD && DistinctNames(backups) && Admissible(backups, 2, 2, anchor)
    ensures Lawful(OlderNames(backups, anchor), DoomedKeys(before.wals, anchor.beginWAL), before, s)
    ensures OlderNames(backups, anchor) !! s.dirs && s.wals.Keys !! DoomedKeys(before.wals, anchor.beginWAL)
    ensures !Restorable(backups, before.wals, s)
  {
    manifests, backups, anchor, before := LaterBeginsEarlier(w);
    var older, doomed := OlderNames(backups, anchor), DoomedKeys(before.wals, anchor.beginWAL);
    s := Snapshot(before.dirs - older, before.wals - doomed);
    HarmExactly(manifests, w, backups, anchor, before, s);
  }

  /** The anchor and every later backup are still there. */
  lemma KeptBackups(manifests: map<string, Info>, walSegSz: nat, backups: seq<Backup>, anchor: Backup,
                    doomed: set<string>, before: Snapshot, s: Snapshot)
    requires walSegSz <= WORD
    requires forall b :: b in backups ==> b.name in before.dirs && IsBackup(manifests, walSegSz, b)
    requires Lawful(OlderNames(backups, anchor), doomed, before, s)
    ensures forall b :: b in backups && b.startedAt >= anchor.startedAt ==> b.name in s.dirs
  {
    forall b | b in backups && b.startedAt >= anchor.startedAt ensures b.name in s.dirs {
      assert b.name !in OlderNames(backups, anchor);
      assert b.name in s.dirs || b.name in before.dirs - s.dirs;
    }
  }

  /** The promise to the user, about what is in storage: enough backups, one from before the window if there was
    * one, and all backups of the window. */
  ghost predicate EnoughKept(backups: seq<Backup>, windowStart: int, minimumBackups: int, dirs: set<string>) {
    && |set b | b in backups && b.name in dirs :: b.name| >= Minimum(minimumBackups, |Names(backups)|)
    && ((exists b :: b in backups && b.startedAt <= windowStart) ==>
          exists b :: b in backups && b.startedAt <= windowStart && b.name in dirs)
    && (forall b :: b in backups && b.startedAt > windowStart ==> b.name in dirs)
  }

  /** Recovery to any time of the window remains possible: if some successful backup started at or before it,
    * one still in storage did. */
  lemma WindowIsCovered(backups: seq<Backup>, windowStart: int, minimumBackups: int, dirs: set<string>, t: int)
    requires EnoughKept(backups, windowStart, minimumBackups, dirs) && t >= windowStart
    ensures (exists b :: b in backups && b.startedAt <= t) <==>
      exists b :: b in backups && b.startedAt <= t && b.name in dirs
  {
    if b :| b in backups && b.startedAt <= t {
      if b.startedAt <= windowStart {
        var a :| a in backups && a.startedAt <= windowStart && a.name in dirs;
        assert a.startedAt <= t;
      }
    }
  }

  lemma LawfulKeepsEnough(manifests: map<string, Info>, walSegSz: nat, backups: seq<Backup>, anchor: Backup,
                          windowStart: int, minimumBackups: int, doomed: set<string>, before: Snapshot, s: Snapshot)
    requires walSegSz <= WORD && DistinctNames(backups)
    requires forall b :: b in backups ==> b.name in before.dirs && IsBackup(manifests, walSegSz, b)
    requires Admissible(backups, windowStart, minimumBackups, anchor)
    requires Lawful(OlderNames(backups, anchor), doomed, before, s)
    ensures EnoughKept(backups, windowStart, minimumBackups, s.dirs)
  {
    KeptBackups(manifests, walSegSz, backups, anchor, doomed, before, s);
    CountIsNames(backups, anchor.startedAt);
    var kept := set b | b in backups && b.name in s.dirs :: b.name;
    assert NamesFrom(backups, anchor.startedAt) <= kept;
    Smaller(NamesFrom(backups, anchor.startedAt), kept);
  }

  lemma AllKeepEnough(manifests: map<string, Info>, walSegSz: nat, backups: seq<Backup>, anchor: Backup,
                      windowStart: int, minimumBackups: int, before: Snapshot, trace: seq<Snapshot>)
    requires walSegSz <= WORD && DistinctNames(backups)
    requires forall b :: b in backups ==> b.name in before.dirs && IsBackup(manifests, walSegSz, b)
    requires Admissible(backups, windowStart, minimumBackups, anchor)
    requires AllLawful(OlderNames(backups, anchor), DoomedKeys(before.wals, anchor.beginWAL), before, trace)
    ensures forall s :: s in trace ==> EnoughKept(backups, windowStart, minimumBackups, s.dirs)
  {
    forall s | s in trace ensures EnoughKept(backups, windowStart, minimumBackups, s.dirs) {
      LawfulKeepsEnough(manifests, walSegSz, backups, anchor, windowStart, minimumBackups,
                        DoomedKeys(before.wals, anchor.beginWAL), before, s);
    }
  }

  lemma Smaller<T>(a: set<T>, b: set<T>)
    requires a <= b
    ensures |a| <= |b|
  {
    assert b == a + (b - a);
  }

  predicate AllLawful(older: set<string>, doomed: set<string>, before: Snapshot, trace: seq<Snapshot>) {
    forall i :: 0 <= i < |trace| ==> Lawful(older, doomed, before, trace[i])
  }

  /** A complete answer of the backend to a listing, each name once. */
  ghost predicate Lists(listing: seq<string>, names: set<string>) {
    && (forall d :: d in listing <==> d in names)
    && (forall i, j :: 0 <= i < j < |listing| ==> listing[i] != listing[j])
  }

  // ---- a retention pass ----

  /** reliable says that no deletion of a backup fails and that the pass is not canceled. */
  class RecoveryWindowRetention {
    const reliable: bool
    const walSegSz: nat
    const recoveryWindow: int
    const keepLast: Option<int>
    const walStor: VariadicStorage
    var dirs: set<string>
    ghost var trace: seq<Snapshot>

    constructor (reliable: bool, walSegSz: nat, recoveryWindow: int, keepLast: Option<int>,
                 walStor: VariadicStorage, dirs: set<string>)
      requires walSegSz <= WORD
      ensures this.reliable == reliable
      ensures this.walSegSz == walSegSz && this.recoveryWindow == recoveryWindow && this.keepLast == keepLast
      ensures this.walStor == walStor && this.dirs == dirs && trace == []
    {
      this.reliable := reliable;
      this.walSegSz, this.recoveryWindow, this.keepLast := walSegSz, recoveryWindow, keepLast;
      this.walStor, this.dirs := walStor, dirs;
      trace := [];
    }

    ghost function Now(): Snapshot
      reads this, walStor
    {
      Snapshot(dirs, walStor.files)
    }

    /** manifests holds the manifests that could be read. */
    method LoadSuccessfulBackups(listing: seq<string>, manifests: map<string, Info>) returns (successful: seq<Backup>)
      requires walSegSz <= WORD
      requires forall i, j :: 0 <= i < j < |listing| ==> listing[i] != listing[j]
      ensures forall b: Backup :: b in successful <==> b.name in listing && IsBackup(manifests, walSegSz, b)
      ensures Solid(successful) && DistinctNames(successful)
    {
      successful := [];
      for i := 0 to |listing|
        invariant forall b: Backup :: b in successful <==> b.name in listing[..i] && IsBackup(manifests, walSegSz, b)
        invariant DistinctNames(successful)
      {
        var d := listing[i];
        assert listing[..i + 1] == listing[..i] + [d];
        if d in manifests && manifests[d].startedAt.Some? {
          var beginWAL := BackupBeginWAL(manifests[d], walSegSz);
          if beginWAL != "" { successful := successful + [Backup(d, manifests[d].startedAt.value, beginWAL)]; }
        }
      }
      assert listing[..|listing|] == listing;
      forall b | b in successful ensures ToUpper(TrimSpace(b.beginWAL)) != "" {
        BeginWALSolid(manifests[b.name], walSegSz);
      }
    }

    /** All states of the pass so far, and the current one, are lawful. */
    ghost predicate LawfulPass(older: set<string>, doomed: set<string>, start: Snapshot)
      reads this, walStor
    {
      AllLawful(older, doomed, start, trace) && Lawful(older, doomed, start, Now())
    }

    /** A directory whose deletion failed may be gone or not; either way the pass stops. */
    method DeleteBackups(names: seq<string>, listing: Option<seq<string>>, ghost older: set<string>,
                         ghost doomed: set<string>)
      returns (ok: bool)
      requires listing.Some? ==> Lists(listing.value, dirs)
      requires (forall n :: n in names <==> n in older) && trace == []
      modifies this`dirs, this`trace
      ensures LawfulPass(older, doomed, old(Now()))
      ensures ok ==> older !! dirs
      ensures reliable && listing.Some? ==> ok
    {
      if listing.None? { return false; }
      for i := 0 to |listing.value|
        invariant LawfulPass(older, doomed, old(Now()))
        invariant forall d :: d in dirs && d in names ==> d in listing.value[i..]
      {
        var d := listing.value[i];
        if d in names {
          ok := Attempt(reliable);
          var gone: bool := *;
          if ok || gone { dirs := dirs - {d}; }
          trace := trace + [Now()];
          if !ok { return; }
        }
      }
      return true;
    }

    /** One turn of the cleaning loop. */
    method CleanObject(path: string, keepFromWAL: string, ghost older: set<string>, ghost doomed: set<string>,
                       ghost start: Snapshot)
      returns (ok: bool)
      requires IsDoomed(doomed, start.wals, keepFromWAL) && older !! dirs && LawfulPass(older, doomed, start)
      modifies this`trace, walStor
      ensures LawfulPass(older, doomed, start)
      ensures OnlyVariantsGone(old(walStor.files), walStor.files, path, SupportedExts(walStor.alg))
      ensures ok && path in walStor.files ==> path !in doomed
      ensures reliable && walStor.reliable ==> ok
    {
      assert Judged(path, doomed, start.wals, keepFromWAL);
      var name := NormalizeWALFilename(path);
      if !IsRootStoragePath(path) || !name.Segment? || !WalBefore(name.name, keepFromWAL) { return true; }
      ok := Attempt(reliable);
      if !ok { return; }
      ghost var was, n := walStor.files, |walStor.past|;
      ok := walStor.Delete(path);
      ghost var states := walStor.past[n..];
      DeletedStates(dirs, was, states, path, walStor.alg, keepFromWAL, older, doomed, start);
      DeletedState(dirs, was, walStor.files, path, walStor.alg, keepFromWAL, older, doomed, start);
      LawfulJoin(older, doomed, start, trace, Snapshots(dirs, states));
      trace := trace + Snapshots(dirs, states);
      assert path + "" == path && IsSupportedExt(walStor.alg, "");
    }

    /** Only segments below the boundary go, and on success all of them do. */
    method DeleteBefore(keepFromWAL: string, listing: Option<seq<string>>, ghost older: set<string>,
                        ghost doomed: set<string>, ghost start: Snapshot)
      returns (ok: bool)
      requires IsDoomed(doomed, start.wals, keepFromWAL) && older !! dirs && LawfulPass(older, doomed, start)
      requires listing.Some? ==> Lists(listing.value, walStor.files.Keys)
      modifies this`trace, walStor
      ensures LawfulPass(older, doomed, start)
      ensures ok ==> walStor.files.Keys !! doomed
      ensures reliable && walStor.reliable && keepFromWAL != "" && listing.Some? ==> ok
    {
      if keepFromWAL == "" || listing.None? { return false; }
      for i := 0 to |listing.value|
        invariant LawfulPass(older, doomed, start) && walStor.files.Keys <= old(walStor.files.Keys)
        invariant NoneLeft(listing.value, i, walStor.files.Keys, doomed)
      {
        ok := CleanObject(listing.value[i], keepFromWAL, older, doomed, start);
        if !ok { return; }
      }
      AllListed(listing.value, old(walStor.files.Keys), walStor.files.Keys, doomed);
      return true;
    }

    /** The deletions of a pass: backups first. */
    method DeleteOlder(successful: seq<Backup>, anchor: Backup, listing: Option<seq<string>>, wals: Option<seq<string>>)
      returns (ok: bool)
      requires trace == []
      requires (listing.Some? ==> Lists(listing.value, dirs)) && (wals.Some? ==> Lists(wals.value, walStor.files.Keys))
      modifies this`dirs, this`trace, walStor
      ensures var older, doomed := OlderNames(successful, anchor), DoomedKeys(old(walStor.files), anchor.beginWAL);
        LawfulPass(older, doomed, old(Now())) && (ok ==> older !! dirs && walStor.files.Keys !! doomed)
      ensures reliable && walStor.reliable && anchor.beginWAL != "" && listing.Some? && wals.Some? ==> ok
    {
      ghost var older, doomed := OlderNames(successful, anchor), DoomedKeys(walStor.files, anchor.beginWAL);
      DoomedKeysExact(walStor.files, anchor.beginWAL);
      var names := BackupsOlderThanAnchor(successful, anchor);
      if |names| > 0 {
        ok := DeleteBackups(names, listing, older, doomed);
        if !ok { return; }
      }
      ok := DeleteBefore(anchor.beginWAL, wals, older, doomed, old(Now()));
    }

    /** One pass, run before a base backup. The listings and manifests are what the backends answer. At every
      * moment of the pass, and whatever its outcome, storage is in a lawful state and the backups left can be
      * restored; if it succeeds, exactly the backups older than the anchor are gone and no archived segment below
      * its begin WAL is left. */
    method RunBeforeBackup(listing: Option<seq<string>>, manifests: map<string, Info>, now: int,
                           listingAgain: Option<seq<string>>, wals: Option<seq<string>>)
      returns (ok: bool, successful: seq<Backup>, anchor: Option<Backup>)
      requires walSegSz <= WORD
      requires listing.Some? ==> Lists(listing.value, dirs)
      requires listingAgain.Some? ==> Lists(listingAgain.value, dirs)
      requires wals.Some? ==> Lists(wals.value, walStor.files.Keys)
      modifies this`dirs, this`trace, walStor
      ensures forall b: Backup :: b in successful <==>
        listing.Some? && b.name in old(dirs) && IsBackup(manifests, walSegSz, b)
      ensures anchor.None? <==> successful == []
      ensures anchor.None? ==> Now() == old(Now()) && trace == [] && ok == listing.Some?
      ensures anchor.Some? ==>
        var older := OlderNames(successful, anchor.value);
        var doomed := DoomedKeys(old(walStor.files), anchor.value.beginWAL);
        && Admissible(successful, now - recoveryWindow, if keepLast.Some? then keepLast.value else 1, anchor.value)
        && LawfulPass(older, doomed, old(Now()))
        && (ok ==> older !! dirs && walStor.files.Keys !! doomed)
      ensures reliable && walStor.reliable && listing.Some? && listingAgain.Some? && wals.Some? ==> ok
      ensures var minimum := if keepLast.Some? then keepLast.value else 1;
        EnoughKept(successful, now - recoveryWindow, minimum, dirs)
        && forall s :: s in trace ==> EnoughKept(successful, now - recoveryWindow, minimum, s.dirs)
      ensures Monotone(successful) ==>
        && AllRestorable(manifests, walSegSz, walStor.alg, successful, old(walStor.files), Now())
        && forall s :: s in trace ==>
          AllRestorable(manifests, walSegSz, walStor.alg, successful, old(walStor.files), s)
    {
      successful, anchor := [], None;
      trace := [];
      if listing.None? { return false, successful, anchor; }
      successful := LoadSuccessfulBackups(listing.value, manifests);
      if successful == [] { return true, successful, anchor; }
      var minimum := if keepLast.Some? then keepLast.value else 1;
      anchor := ChooseRecoveryWindowAnchor(successful, recoveryWindow, minimum, now);
      ok := DeleteOlder(successful, anchor.value, listingAgain, wals);
      AllKeepEnough(manifests, walSegSz, successful, anchor.value, now - recoveryWindow, minimum, old(Now()),
                    trace + [Now()]);
      if Monotone(successful) {
        PassIsRestorable(manifests, walSegSz, walStor.alg, successful, anchor.value, old(Now()), trace + [Now()]);
      }
    }
  }

  predicate NoneLeft(listing: seq<string>, n: nat, names: set<string>, doomed: set<string>)
    requires n <= |listing|
  {
    forall j :: 0 <= j < n && listing[j] in names ==> listing[j] !in doomed
  }

  lemma AllListed(listing: seq<string>, before: set<string>, after: set<string>, doomed: set<string>)
    requires Lists(listing, before) && after <= before && NoneLeft(listing, |listing|, after, doomed)
    ensures after !! doomed
  {
    forall k | k in after ensures k !in doomed {
      var j :| 0 <= j < |listing| && listing[j] == k;
    }
  }

  lemma LawfulJoin(older: set<string>, doomed: set<string>, start: Snapshot, xs: seq<Snapshot>, ys: seq<Snapshot>)
    requires AllLawful(older, doomed, start, xs) && AllLawful(older, doomed, start, ys)
    ensures AllLawful(older, doomed, start, xs + ys)
  {
  }

  function Snapshots(dirs: set<string>, states: seq<Objects>): (s: seq<Snapshot>)
    ensures |s| == |states| && forall i :: 0 <= i < |s| ==> s[i] == Snapshot(dirs, states[i])
  {
    seq(|states|, i requires 0 <= i < |states| => Snapshot(dirs, states[i]))
  }

  /** Deleting an object below the boundary takes only objects below the boundary with it. */
  lemma DeletedVariants(was: Objects, now: Objects, path: string, alg: Algorithms, boundary: string,
                        doomed: set<string>, wals: Objects)
    requires IsDoomed(doomed, wals, boundary) && was.Keys <= wals.Keys && Doomed(path, boundary)
    requires OnlyVariantsGone(was, now, path, SupportedExts(alg))
    ensures forall k :: k in was && k !in now ==> k in doomed
  {
    forall k | k in was && k !in now ensures k in doomed {
      VariantsAlike(alg, path, k[|path|..]);
      assert path + k[|path|..] == k && k in was.Keys;
      assert Judged(k, doomed, wals, boundary);
    }
  }

  /** ... and so every state in between is lawful. */
  lemma DeletedState(dirs: set<string>, was: Objects, now: Objects, path: string, alg: Algorithms, boundary: string,
                     older: set<string>, doomed: set<string>, start: Snapshot)
    requires IsDoomed(doomed, start.wals, boundary) && Doomed(path, boundary) && older !! dirs
    requires Lawful(older, doomed, start, Snapshot(dirs, was)) && OnlyVariantsGone(was, now, path, SupportedExts(alg))
    ensures Lawful(older, doomed, start, Snapshot(dirs, now))
  {
    DeletedVariants(was, now, path, alg, boundary, doomed, start.wals);
    forall k | k in start.wals && k !in now ensures k in doomed {
      assert k in was || k in start.wals.Keys - was.Keys;
    }
    forall k | k in now ensures k in start.wals && now[k] == start.wals[k] {
      assert k in was.Keys;
    }
  }

  lemma DeletedStates(dirs: set<string>, was: Objects, states: seq<Objects>, path: string, alg: Algorithms,
                      boundary: string, older: set<string>, doomed: set<string>, start: Snapshot)
    requires IsDoomed(doomed, start.wals, boundary) && Doomed(path, boundary) && older !! dirs
    requires Lawful(older, doomed, start, Snapshot(dirs, was))
    requires forall i :: 0 <= i < |states| ==> OnlyVariantsGone(was, states[i], path, SupportedExts(alg))
    ensures AllLawful(older, doomed, start, Snapshots(dirs, states))
  {
    forall i | 0 <= i < |states| ensures Lawful(older, doomed, start, Snapshot(dirs, states[i])) {
      DeletedState(dirs, was, states[i], path, alg, boundary, older, doomed, start);
    }
  }
}
