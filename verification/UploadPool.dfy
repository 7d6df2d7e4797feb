/** The upload workers: goroutines that take files from a channel, store them, and remove them locally. */
module UploadPool {
  import opened Bytes
  import XLog

  type Content = map<string, seq<byte>>

  // ---- the batch ----

  datatype Entry = Entry(name: string, isDir: bool, present: bool)

  /** Everything in the directory but the manifest and the segment that is open right now. */
  method FilterFilesToUpload(entries: seq<Entry>, openName: string) returns (files: seq<string>)
    ensures forall f :: f in files <==>
      exists k :: 0 <= k < |entries| && entries[k].name == f && IsUploaded(entries[k], openName)
    ensures DistinctEntries(entries) ==> Distinct(files)
  {
    files := [];
    for i := 0 to |entries|
      invariant forall f :: f in files <==>
        exists k :: 0 <= k < i && entries[k].name == f && IsUploaded(entries[k], openName)
      invariant DistinctEntries(entries) ==> Distinct(files)
    {
      var e := entries[i];
      assert DistinctEntries(entries) ==> e.name !in files;
      if !e.isDir && e.name != ".manifest.json" && e.name != openName && e.present { files := files + [e.name]; }
    }
  }

  predicate IsUploaded(e: Entry, openName: string) {
    !e.isDir && e.present && e.name != ".manifest.json" && e.name != openName
  }

  /** A partial file is uploaded exactly if it is not the one open right now. */
  lemma PartialIsUploaded(base: string, openName: string)
    ensures IsUploaded(Entry(base + ".partial", false, true), openName) <==> base + ".partial" != openName
  {
    var name := base + ".partial";
    assert name[|name| - 1] == 'l' && ".manifest.json"[13] == 'n';
  }

  /** So is a complete segment; the manifest, a directory and a file that has gone meanwhile never are. */
  lemma CompleteIsUploaded(name: string, openName: string)
    ensures XLog.IsXLogFileName(name) ==> (IsUploaded(Entry(name, false, true), openName) <==> name != openName)
    ensures !IsUploaded(Entry(".manifest.json", false, true), openName)
    ensures !IsUploaded(Entry(name, true, true), openName) && !IsUploaded(Entry(name, false, false), openName)
  {
    assert XLog.IsXLogFileName(name) ==> |name| == 24;
  }

  predicate DistinctEntries(entries: seq<Entry>) {
    forall i, j :: 0 <= i < j < |entries| ==> entries[i].name != entries[j].name
  }

  predicate Distinct(files: seq<string>) {
    forall i, j :: 0 <= i < j < |files| ==> files[i] != files[j]
  }

  // ---- the pool as a transition system ----

  /** A worker goroutine between two operations. */
  datatype Worker = Idle | Received(f: string) | Putting(f: string) | Stored(f: string) | Gone

  /** files is the batch, sent how much of it is in the channel or beyond; taken, tried and failed record what
    * workers have received, started to upload, and returned an error for. */
  datatype Pool = Pool(files: seq<string>, sent: nat, queue: seq<string>, workers: seq<Worker>, canceled: bool,
                       local: Content, store: Content, taken: seq<string>, tried: set<string>, failed: set<string>)
  {
    function With(w: nat, s: Worker): Pool
      requires w < |workers|
    {
      this.(workers := workers[w := s])
    }
  }

  predicate Send(s: Pool, s': Pool) {
    s.sent < |s.files| && s' == s.(sent := s.sent + 1, queue := s.queue + [s.files[s.sent]])
  }

  predicate Take(s: Pool, s': Pool, w: nat) {
    && w < |s.workers| && s.workers[w].Idle? && s.queue != []
    && s' == s.With(w, Received(s.queue[0])).(queue := s.queue[1..], taken := s.taken + [s.queue[0]])
  }

  /** The channel is closed and empty, or the context is canceled; a file just received is then dropped. */
  predicate Leave(s: Pool, s': Pool, w: nat) {
    && w < |s.workers|
    && ((s.workers[w].Idle? && s.queue == [] && s.sent == |s.files|) || (s.workers[w].Received? && s.canceled))
    && s' == s.With(w, Gone)
  }

  predicate Open(s: Pool, s': Pool, w: nat, ok: bool) {
    && w < |s.workers| && s.workers[w].Received? && !s.canceled
    && var f := s.workers[w].f;
    && (ok ==> f in s.local)
    && s' == s.With(w, if ok then Putting(f) else Idle)
              .(tried := s.tried + {f}, failed := if ok then s.failed else s.failed + {f})
  }

  predicate PutSucceeds(s: Pool, s': Pool, w: nat) {
    && w < |s.workers| && s.workers[w].Putting?
    && var f := s.workers[w].f;
    && f in s.local && s' == s.With(w, Stored(f)).(store := s.store[f := s.local[f]])
  }

  /** A failed Put may leave anything under the name. */
  predicate PutFails(s: Pool, s': Pool, w: nat) {
    && w < |s.workers| && s.workers[w].Putting?
    && var f := s.workers[w].f;
    && s'.store - {f} == s.store - {f}
    && s' == s.With(w, Idle).(store := s'.store, failed := s.failed + {f})
  }

  predicate Remove(s: Pool, s': Pool, w: nat) {
    && w < |s.workers| && s.workers[w].Stored?
    && s' == s.With(w, Idle).(local := s.local - {s.workers[w].f})
  }

  /** Closing or removing the local file fails after it has been stored. */
  predicate KeepsLocal(s: Pool, s': Pool, w: nat) {
    && w < |s.workers| && s.workers[w].Stored?
    && s' == s.With(w, Idle).(failed := s.failed + {s.workers[w].f})
  }

  predicate WorkerStep(s: Pool, s': Pool, w: nat) {
    || Take(s, s', w) || Leave(s, s', w) || Open(s, s', w, true) || Open(s, s', w, false)
    || PutSucceeds(s, s', w) || PutFails(s, s', w) || Remove(s, s', w) || KeepsLocal(s, s', w)
  }

  predicate Cancel(s: Pool, s': Pool) {
    s' == s.(canceled := true)
  }

  /** Meanwhile the receiver writes other files. */
  predicate Receive(s: Pool, s': Pool) {
    && s' == s.(local := s'.local)
    && forall f :: f in s.files ==> (f in s'.local <==> f in s.local) && (f in s.local ==> s'.local[f] == s.local[f])
  }

  ghost predicate Next(s: Pool, s': Pool) {
    Send(s, s') || (exists w :: WorkerStep(s, s', w)) || Cancel(s, s') || Receive(s, s')
  }

  /** The workers have just been started; content is what the batch holds. */
  predicate Init(s: Pool, content: Content) {
    && Distinct(s.files) && s.sent == 0 && s.queue == [] && s.taken == [] && s.tried == {} && s.failed == {}
    && |s.workers| > 0 && (forall w :: 0 <= w < |s.workers| ==> s.workers[w].Idle?)
    && forall f :: f in s.files ==> f in content && f in s.local && s.local[f] == content[f]
  }

  ghost predicate IsRun(run: seq<Pool>, content: Content) {
    |run| > 0 && Init(run[0], content) && forall i: nat :: 0 < i < |run| ==> RunStep(run, i)
  }

  // ---- invariant ----

  predicate Holding(w: Worker) { w.Received? || w.Putting? || w.Stored? }

  predicate IsLocal(s: Pool, content: Content, f: string) {
    f in content && f in s.local && s.local[f] == content[f]
  }

  predicate IsStored(s: Pool, content: Content, f: string) {
    f in content && f in s.store && s.store[f] == content[f]
  }

  /** The channel is first in, first out; nobody holds a file that somebody else holds. */
  predicate Order(s: Pool) {
    && Distinct(s.files) && s.sent <= |s.files| && s.taken + s.queue == s.files[..s.sent]
    && (forall v :: 0 <= v < |s.workers| && Holding(s.workers[v]) ==> s.workers[v].f in s.taken)
    && (forall v, w :: 0 <= v < w < |s.workers| && Holding(s.workers[v]) && Holding(s.workers[w]) ==>
          s.workers[v].f != s.workers[w].f)
  }

  predicate Busy(s: Pool, f: string) {
    exists v :: 0 <= v < |s.workers| && Holding(s.workers[v]) && s.workers[v].f == f
  }

  /** Each file is in the receive directory or fully in storage, and nothing is lost on the way. */
  ghost predicate Kept(s: Pool, content: Content) {
    && (forall f :: f in s.files ==> IsLocal(s, content, f) || IsStored(s, content, f))
    && (forall f :: f in s.files && f !in s.taken ==> IsLocal(s, content, f))
    && (forall v :: 0 <= v < |s.workers| && (s.workers[v].Received? || s.workers[v].Putting?) ==>
          IsLocal(s, content, s.workers[v].f))
    && (forall v :: 0 <= v < |s.workers| && s.workers[v].Stored? ==> IsStored(s, content, s.workers[v].f))
  }

  predicate Settled(s: Pool, content: Content, f: string) {
    f in s.failed || Busy(s, f) || (f !in s.local && IsStored(s, content, f))
  }

  /** Without cancellation a file that was taken has been tried or is about to be, and what was tried has
    * failed, is stored and removed, or is being worked on. */
  ghost predicate Progressed(s: Pool, content: Content) {
    && (forall f :: f in s.taken && !s.canceled ==> f in s.tried || Busy(s, f))
    && (forall f :: f in s.tried ==> f in s.taken && Settled(s, content, f))
    && (forall v :: 0 <= v < |s.workers| && Holding(s.workers[v]) ==>
          (s.workers[v].Received? <==> s.workers[v].f !in s.tried))
    && ((exists v :: 0 <= v < |s.workers| && s.workers[v].Gone?) && !s.canceled ==>
          s.queue == [] && s.sent == |s.files|)
    && |s.workers| > 0
  }

  lemma InitHolds(s: Pool, content: Content)
    requires Init(s, content)
    ensures Order(s) && Kept(s, content) && Progressed(s, content)
  {
  }

  // ---- every step keeps the order ----

  lemma PrefixMembers(s: Pool)
    requires Order(s)
    ensures forall f :: f in s.taken ==> f in s.files
    ensures forall f :: f in s.queue ==> f in s.files && f !in s.taken
  {
    var all := s.files[..s.sent];
    forall i | 0 <= i < |s.taken| ensures s.taken[i] == s.files[i] { assert all[i] == s.taken[i]; }
    forall i | 0 <= i < |s.queue| ensures s.queue[i] == s.files[|s.taken| + i] {
      assert all[|s.taken| + i] == s.queue[i];
    }
  }

  lemma SendKeeps(s: Pool, s': Pool, content: Content)
    requires Order(s) && Kept(s, content) && Progressed(s, content) && Send(s, s')
    ensures Order(s') && Kept(s', content) && Progressed(s', content)
  {
  }

  lemma TakeKeeps(s: Pool, s': Pool, content: Content, w: nat)
    requires Order(s) && Kept(s, content) && Progressed(s, content) && Take(s, s', w)
    ensures Order(s') && Kept(s', content) && Progressed(s', content)
  {
    PrefixMembers(s);
    var f := s.queue[0];
    assert f in s.queue && s.queue == [f] + s.queue[1..];
    assert s'.taken + s'.queue == s.taken + s.queue;
    assert s'.workers[w].f == f && f in s'.taken;
    assert Busy(s', f);
    OthersBusy(s, s', w);
  }

  /** A step of worker w leaves the other workers busy with what they hold. */
  lemma OthersBusy(s: Pool, s': Pool, w: nat)
    requires w < |s.workers| && |s'.workers| == |s.workers|
    requires forall v :: 0 <= v < |s.workers| && v != w ==> s'.workers[v] == s.workers[v]
    ensures forall f :: Busy(s, f) && !(Holding(s.workers[w]) && s.workers[w].f == f) ==> Busy(s', f)
    ensures Holding(s.workers[w]) && Holding(s'.workers[w]) && s'.workers[w].f == s.workers[w].f ==>
      forall f :: Busy(s, f) ==> Busy(s', f)
  {
  }

  lemma LeaveKeeps(s: Pool, s': Pool, content: Content, w: nat)
    requires Order(s) && Kept(s, content) && Progressed(s, content) && Leave(s, s', w)
    ensures Order(s') && Kept(s', content) && Progressed(s', content)
  {
    OthersBusy(s, s', w);
  }

  lemma OpenKeeps(s: Pool, s': Pool, content: Content, w: nat, ok: bool)
    requires Order(s) && Kept(s, content) && Progressed(s, content) && Open(s, s', w, ok)
    ensures Order(s') && Kept(s', content) && Progressed(s', content)
  {
    OthersBusy(s, s', w);
  }

  lemma PutSucceedsKeeps(s: Pool, s': Pool, content: Content, w: nat)
    requires Order(s) && Kept(s, content) && Progressed(s, content) && PutSucceeds(s, s', w)
    ensures Order(s') && Kept(s', content) && Progressed(s', content)
  {
    OthersBusy(s, s', w);
  }

  lemma PutFailsKeeps(s: Pool, s': Pool, content: Content, w: nat)
    requires Order(s) && Kept(s, content) && Progressed(s, content) && PutFails(s, s', w)
    ensures Order(s') && Kept(s', content) && Progressed(s', content)
  {
    OthersBusy(s, s', w);
    var f := s.workers[w].f;
    forall g | g != f ensures IsStored(s, content, g) ==> IsStored(s', content, g) {
      if g in s.store {
        assert g in s.store - {f} && (s.store - {f})[g] == s.store[g] && (s'.store - {f})[g] == s'.store[g];
      }
    }
  }

  lemma RemoveKeeps(s: Pool, s': Pool, content: Content, w: nat)
    requires Order(s) && Kept(s, content) && Progressed(s, content) && Remove(s, s', w)
    ensures Order(s') && Kept(s', content) && Progressed(s', content)
  {
    OthersBusy(s, s', w);
  }

  lemma KeepsLocalKeeps(s: Pool, s': Pool, content: Content, w: nat)
    requires Order(s) && Kept(s, content) && Progressed(s, content) && KeepsLocal(s, s', w)
    ensures Order(s') && Kept(s', content) && Progressed(s', content)
  {
    OthersBusy(s, s', w);
  }

  lemma OutsideKeeps(s: Pool, s': Pool, content: Content)
    requires Order(s) && Kept(s, content) && Progressed(s, content) && (Cancel(s, s') || Receive(s, s'))
    ensures Order(s') && Kept(s', content) && Progressed(s', content)
  {
    PrefixMembers(s);
    forall f | Busy(s, f) ensures Busy(s', f) {}
  }

  lemma WorkerKeeps(s: Pool, s': Pool, content: Content, w: nat)
    requires Order(s) && Kept(s, content) && Progressed(s, content) && WorkerStep(s, s', w)
    ensures Order(s') && Kept(s', content) && Progressed(s', content)
  {
    if Take(s, s', w) {
      TakeKeeps(s, s', content, w);
    } else if Leave(s, s', w) {
      LeaveKeeps(s, s', content, w);
    } else if ok :| Open(s, s', w, ok) {
      OpenKeeps(s, s', content, w, ok);
    } else if PutSucceeds(s, s', w) {
      PutSucceedsKeeps(s, s', content, w);
    } else if PutFails(s, s', w) {
      PutFailsKeeps(s, s', content, w);
    } else if Remove(s, s', w) {
      RemoveKeeps(s, s', content, w);
    } else {
      KeepsLocalKeeps(s, s', content, w);
    }
  }

  /** What every moment of a run satisfies. */
  ghost predicate Sound(s: Pool, content: Content) {
    Order(s) && Kept(s, content) && Progressed(s, content)
  }

  lemma StepKeeps(s: Pool, s': Pool, content: Content)
    requires Sound(s, content) && Next(s, s')
    ensures Sound(s', content)
  {
    if Send(s, s') {
      SendKeeps(s, s', content);
    } else if w: nat :| WorkerStep(s, s', w) {
      WorkerKeeps(s, s', content, w);
    } else {
      OutsideKeeps(s, s', content);
    }
  }

  lemma SameBatch(s: Pool, s': Pool)
    requires Next(s, s')
    ensures s'.files == s.files
  {
  }

  ghost predicate RunStep(run: seq<Pool>, i: nat)
    requires 0 < i < |run|
  {
    Next(run[i - 1], run[i])
  }

  // ---- whole runs ----

  lemma {:induction false} RunKeeps(run: seq<Pool>, content: Content, i: nat)
    requires IsRun(run, content) && i < |run|
    ensures Sound(run[i], content) && run[i].files == run[0].files
  {
    if i == 0 {
      InitHolds(run[0], content);
    } else {
      RunKeeps(run, content, i - 1);
      assert RunStep(run, i);
      StepKeeps(run[i - 1], run[i], content);
      SameBatch(run[i - 1], run[i]);
    }
  }

  /** In every interleaving and at every moment each file of the batch is in the receive directory or fully in
    * storage, and no file has been received by two workers. */
  lemma NeverLost(run: seq<Pool>, content: Content, i: nat, f: string)
    requires IsRun(run, content) && i < |run| && f in run[0].files
    ensures IsLocal(run[i], content, f) || IsStored(run[i], content, f)
    ensures Distinct(run[i].taken) && forall g :: g in run[i].taken ==> g in run[0].files
  {
    RunKeeps(run, content, i);
    var s := run[i];
    PrefixMembers(s);
    forall k | 0 <= k < |s.taken| ensures s.taken[k] == s.files[k] {
      assert (s.taken + s.queue)[k] == s.files[..s.sent][k];
    }
  }

  /** Without cancellation, when all workers are gone every file has been tried, and a file for which no error
    * was returned is fully in storage and removed locally. */
  lemma AllAttempted(run: seq<Pool>, content: Content, i: nat, f: string)
    requires IsRun(run, content) && i < |run| && f in run[0].files
    requires !run[i].canceled && forall w :: 0 <= w < |run[i].workers| ==> run[i].workers[w].Gone?
    ensures f in run[i].tried
    ensures f !in run[i].failed ==> f !in run[i].local && IsStored(run[i], content, f)
  {
    RunKeeps(run, content, i);
    var s := run[i];
    assert s.workers[0].Gone?;
    assert s.taken == s.taken + s.queue == s.files;
    assert !Busy(s, f);
  }

  // ---- the pool comes to an end ----

  function Weight(w: Worker): nat {
    match w
    case Gone => 0
    case Idle => 1
    case Stored(_) => 3
    case Putting(_) => 4
    case Received(_) => 5
  }

  function Weights(ws: seq<Worker>): nat {
    if ws == [] then 0 else Weight(ws[0]) + Weights(ws[1..])
  }

  function Measure(s: Pool): int {
    6 * (|s.files| - s.sent) + 5 * |s.queue| + Weights(s.workers)
  }

  lemma {:induction false} WeightsAt(ws: seq<Worker>, w: nat, x: Worker)
    requires w < |ws|
    ensures Weights(ws[w := x]) == Weights(ws) - Weight(ws[w]) + Weight(x)
  {
    if w > 0 {
      assert ws[w := x][1..] == ws[1..][w - 1 := x];
      WeightsAt(ws[1..], w - 1, x);
    }
  }

  /** Every step of the pool itself brings it closer to its end, ... */
  lemma PoolTerminates(s: Pool, s': Pool)
    requires s.sent <= |s.files| && (Send(s, s') || exists w :: WorkerStep(s, s', w))
    ensures 0 <= Measure(s') < Measure(s)
  {
    if !Send(s, s') {
      var w: nat :| WorkerStep(s, s', w);
      WorkerCloser(s, s', w);
    }
  }

  lemma WorkerCloser(s: Pool, s': Pool, w: nat)
    requires s.sent <= |s.files| && WorkerStep(s, s', w)
    ensures 0 <= Measure(s') < Measure(s)
  {
    WeightsAt(s.workers, w, s'.workers[w]);
  }

  /** ... and until all workers are gone some step is possible: the workers cannot block each other. */
  lemma NoDeadlock(s: Pool, content: Content, w: nat) returns (s': Pool)
    requires Order(s) && Kept(s, content) && w < |s.workers| && !s.workers[w].Gone?
    ensures Send(s, s') || WorkerStep(s, s', w)
  {
    match s.workers[w] {
      case Idle =>
        if s.queue != [] {
          s' := s.With(w, Received(s.queue[0])).(queue := s.queue[1..], taken := s.taken + [s.queue[0]]);
        } else if s.sent < |s.files| {
          s' := s.(sent := s.sent + 1, queue := s.queue + [s.files[s.sent]]);
        } else {
          s' := s.With(w, Gone);
        }
      case Received(f) =>
        s' := if s.canceled then s.With(w, Gone)
          else s.With(w, Idle).(tried := s.tried + {f}, failed := s.failed + {f});
      case Putting(f) => s' := s.With(w, Stored(f)).(store := s.store[f := s.local[f]]);
      case Stored(f) => s' := s.With(w, Idle).(local := s.local - {f});
    }
  }
}
