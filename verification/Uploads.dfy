/** The receiver and the upload workers together: the pool does to the receive directory and the archive what
  * the upload steps of the receiver's protocol say. */
module Uploads {
  import opened Disk
  import opened WalProtocol
  import opened WalSafety
  import UploadPool

  type Pool = UploadPool.Pool

  /** The segment that each file of the batch holds. */
  type Batch = map<string, nat>

  datatype Joint = Joint(s: St, p: Pool)

  // ---- one directory and one archive, seen from both sides ----

  predicate Names(p: Pool, batch: Batch) {
    && (forall f :: f in p.files ==> f in batch)
    && (forall f, g :: f in p.files && g in p.files && batch[f] == batch[g] ==> f == g)
  }

  /** A file that the workers see is a complete segment file, and what the protocol takes for stored is. */
  predicate Mirrored(s: St, p: Pool, f: string, a: nat) {
    && (f in p.local ==> s.File(a).vname.FinalName? && p.local[f] == s.File(a).vol)
    && (s.Id(a) in s.stored ==> f in p.store && p.store[f] == s.stored[s.Id(a)])
  }

  ghost predicate Mirrors(s: St, p: Pool, batch: Batch) {
    && Names(p, batch)
    && (forall f :: f in p.files ==> Mirrored(s, p, f, batch[f]))
    && (forall v :: 0 <= v < |p.workers| && p.workers[v].Stored? ==>
          p.workers[v].f in p.files && p.workers[v].f in p.local && s.Id(batch[p.workers[v].f]) in s.stored)
  }

  // ---- joint steps ----

  datatype Move = ByReceiver(e: Step) | BySender | ByCancel | ByWorker(w: nat)

  /** What a step of worker w means for the directory and the archive. */
  predicate Effect(c: Cfg, s: St, s': St, p: Pool, p': Pool, w: nat, batch: Batch)
    requires w < |p.workers|
  {
    if p.workers[w].Putting? && p.workers[w].f in batch then
      var a := batch[p.workers[w].f];
      || (UploadPool.PutSucceeds(p, p', w) && Store(c, s, s', a))
      || (UploadPool.PutFails(p, p', w) && StoreFails(c, s, s', a))
    else if p.workers[w].Stored? && p.workers[w].f in batch && UploadPool.Remove(p, p', w) then
      Remove(c, s, s', batch[p.workers[w].f])
    else
      UploadPool.WorkerStep(p, p', w) && s' == s
  }

  ghost predicate JointBy(c: Cfg, j: Joint, j': Joint, m: Move, batch: Batch) {
    match m
    case ByReceiver(e) =>
      !Uploading(e) && !e.MachineCrash? && StepBy(c, j.s, j'.s, e) && UploadPool.Receive(j.p, j'.p)
    case BySender => UploadPool.Send(j.p, j'.p) && j'.s == j.s
    case ByCancel => UploadPool.Cancel(j.p, j'.p) && j'.s == j.s
    case ByWorker(w) => w < |j.p.workers| && Effect(c, j.s, j'.s, j.p, j'.p, w, batch)
  }

  ghost predicate JointNext(c: Cfg, j: Joint, j': Joint, batch: Batch) {
    exists m :: JointBy(c, j, j', m, batch)
  }

  ghost predicate JointStep(c: Cfg, js: seq<Joint>, i: nat, batch: Batch)
    requires 0 < i < |js|
  {
    JointNext(c, js[i - 1], js[i], batch)
  }

  /** A life of the process from a state that a run of the protocol has reached. */
  ghost predicate IsJointRun(c: Cfg, before: seq<St>, js: seq<Joint>, batch: Batch, content: UploadPool.Content) {
    && IsRun(c, before) && |js| > 0 && js[0].s == before[|before| - 1]
    && UploadPool.Init(js[0].p, content) && Mirrors(js[0].s, js[0].p, batch)
    && forall i: nat :: 0 < i < |js| ==> JointStep(c, js, i, batch)
  }

  // ---- every joint step is a step of both ----

  lemma Stutter(c: Cfg, s: St)
    ensures StepBy(c, s, s, Kernel)
  {
  }

  lemma WorkerStepOf(c: Cfg, s: St, s': St, p: Pool, p': Pool, w: nat, batch: Batch)
    requires w < |p.workers| && Effect(c, s, s', p, p', w, batch)
    ensures UploadPool.WorkerStep(p, p', w) && Next(c, s, s')
  {
    var worker := p.workers[w];
    if (worker.Putting? || worker.Stored?) && worker.f in batch {
      UploadIsStep(c, s, s', batch[worker.f]);
    } else {
      Stutter(c, s);
    }
  }

  lemma UploadIsStep(c: Cfg, s: St, s': St, a: nat)
    requires Store(c, s, s', a) || StoreFails(c, s, s', a) || Remove(c, s, s', a) || s' == s
    ensures Next(c, s, s')
  {
    if Store(c, s, s', a) {
      assert StepBy(c, s, s', DoStore(a));
    } else if StoreFails(c, s, s', a) {
      assert StepBy(c, s, s', FailStore(a));
    } else if Remove(c, s, s', a) {
      assert StepBy(c, s, s', DoRemove(a));
    } else {
      Stutter(c, s);
    }
  }

  lemma JointIsBoth(c: Cfg, j: Joint, j': Joint, m: Move, batch: Batch)
    requires JointBy(c, j, j', m, batch)
    ensures Next(c, j.s, j'.s) && UploadPool.Next(j.p, j'.p)
  {
    if m.ByReceiver? {
      assert StepBy(c, j.s, j'.s, m.e);
    } else if m.ByWorker? {
      WorkerStepOf(c, j.s, j'.s, j.p, j'.p, m.w, batch);
    } else {
      Stutter(c, j.s);
    }
  }

  /** Whatever a worker can do, directory and archive follow. */
  lemma WorkersAreNotBlocked(c: Cfg, s: St, p: Pool, p': Pool, w: nat, batch: Batch, content: UploadPool.Content)
    returns (s': St)
    requires Mirrors(s, p, batch) && UploadPool.Sound(p, content) && UploadPool.WorkerStep(p, p', w)
    ensures w < |p.workers| && Effect(c, s, s', p, p', w, batch)
  {
    var worker := p.workers[w];
    s' := s;
    if worker.Putting? {
      HeldIsInBatch(p, w, content);
      var a := batch[worker.f];
      assert Mirrored(s, p, worker.f, a);
      s' := if UploadPool.PutSucceeds(p, p', w) then s.(stored := s.stored[s.Id(a) := s.File(a).vol])
            else s.(stored := s.stored - {s.Id(a)});
    } else if worker.Stored? && UploadPool.Remove(p, p', w) {
      var a := batch[worker.f];
      assert Mirrored(s, p, worker.f, a);
      s' := s.With(a, s.File(a).(vname := NoName));
    }
  }

  lemma HeldIsInBatch(p: Pool, w: nat, content: UploadPool.Content)
    requires UploadPool.Sound(p, content) && w < |p.workers| && UploadPool.Holding(p.workers[w])
    ensures p.workers[w].f in p.files
    ensures p.workers[w].Putting? ==> p.workers[w].f in p.local
  {
    UploadPool.PrefixMembers(p);
  }

  // ---- what the two sides see stays the same ----

  /** Only uploads and machine crashes touch a complete segment file. */
  lemma FinalsStay(c: Cfg, s: St, s': St, e: Step, a: nat)
    requires DiskInv(c, s) && StepBy(c, s, s', e) && !Uploading(e) && !e.MachineCrash? && s.File(a).vname.FinalName?
    ensures s'.File(a).vname.FinalName? && s'.File(a).vol == s.File(a).vol
  {
    if e.FailClosedSync? && s.phase.seg == a {
      assert CleanFile(c, s.Id(a), At(s.files, s.Id(a)));
      SameContent(c, s.Id(a), s.File(a), e.g);
    } else if e.Kernel? {
      assert WrittenBack(At(s.files, s.Id(a)), At(s'.files, s.Id(a)));
    } else if OnPartial(e) {
      PartialSteps(c, s, s', e, a);
    }
  }

  /** Steps that work on the partial file of the open segment. */
  predicate OnPartial(e: Step) {
    e.DoOpen? || e.DoCreate? || e.DoExtend? || e.DoWrite? || e.DoSync? || e.DoSyncFull? || e.DoRename?
    || e.FailSync? || e.FailOpen?
  }

  lemma PartialSteps(c: Cfg, s: St, s': St, e: Step, a: nat)
    requires Session(c, s) && StepBy(c, s, s', e) && OnPartial(e) && s.File(a).vname.FinalName?
    ensures At(s'.files, s.Id(a)) == At(s.files, s.Id(a)) && s'.tli == s.tli
  {
  }

  lemma SameContent(c: Cfg, id: SegId, f: SegFile, g: SegFile)
    requires CleanFile(c, id, f) && f.vname.FinalName? && FsyncFailed(f, g)
    ensures g.vol == f.vol
  {
  }

  lemma ArchiveStays(c: Cfg, s: St, s': St, e: Step)
    requires StepBy(c, s, s', e) && !Uploading(e)
    ensures s'.stored == s.stored && s'.tli == s.tli
  {
  }

  lemma ReceiverMirrors(c: Cfg, j: Joint, j': Joint, e: Step, batch: Batch)
    requires Mirrors(j.s, j.p, batch) && DiskInv(c, j.s) && JointBy(c, j, j', ByReceiver(e), batch)
    ensures Mirrors(j'.s, j'.p, batch)
  {
    ArchiveStays(c, j.s, j'.s, e);
    forall f | f in j'.p.files ensures Mirrored(j'.s, j'.p, f, batch[f]) {
      assert Mirrored(j.s, j.p, f, batch[f]);
      if f in j.p.local { FinalsStay(c, j.s, j'.s, e, batch[f]); }
    }
  }

  lemma StoreMirrors(c: Cfg, s: St, s': St, p: Pool, p': Pool, w: nat, batch: Batch)
    requires Mirrors(s, p, batch) && UploadPool.PutSucceeds(p, p', w)
    requires p.workers[w].f in p.files && Store(c, s, s', batch[p.workers[w].f])
    ensures Mirrors(s', p', batch)
  {
    forall f | f in p'.files ensures Mirrored(s', p', f, batch[f]) {
      assert Mirrored(s, p, f, batch[f]) && Mirrored(s, p, p.workers[w].f, batch[p.workers[w].f]);
    }
  }

  lemma StoreFailsMirrors(c: Cfg, s: St, s': St, p: Pool, p': Pool, w: nat, batch: Batch)
    requires Mirrors(s, p, batch) && UploadPool.PutFails(p, p', w) && UploadPool.Order(p)
    requires p.workers[w].f in p.files && StoreFails(c, s, s', batch[p.workers[w].f])
    ensures Mirrors(s', p', batch)
  {
    var g := p.workers[w].f;
    forall f | f in p'.files ensures Mirrored(s', p', f, batch[f]) {
      assert Mirrored(s, p, f, batch[f]);
      if f != g && f in p.store {
        assert f in p.store - {g} && (p'.store - {g})[f] == p'.store[f] && (p.store - {g})[f] == p.store[f];
      }
    }
    forall v | 0 <= v < |p'.workers| && p'.workers[v].Stored?
      ensures p'.workers[v].f in p.files && p'.workers[v].f in p.local && s.Id(batch[p'.workers[v].f]) in s'.stored
    {
      assert v != w && p'.workers[v] == p.workers[v];
      assert p.workers[v].f != g;
    }
  }

  lemma RemoveMirrors(c: Cfg, s: St, s': St, p: Pool, p': Pool, w: nat, batch: Batch)
    requires Mirrors(s, p, batch) && UploadPool.Remove(p, p', w) && UploadPool.Order(p)
    requires p.workers[w].f in p.files && Remove(c, s, s', batch[p.workers[w].f])
    ensures Mirrors(s', p', batch)
  {
    forall f | f in p'.files ensures Mirrored(s', p', f, batch[f]) {
      assert Mirrored(s, p, f, batch[f]);
    }
    forall v | 0 <= v < |p'.workers| && p'.workers[v].Stored?
      ensures p'.workers[v].f in p.files && p'.workers[v].f in p'.local && s.Id(batch[p'.workers[v].f]) in s'.stored
    {
      assert v != w && p'.workers[v] == p.workers[v];
      assert p.workers[v].f != p.workers[w].f;
    }
  }

  lemma PlainMirrors(s: St, p: Pool, p': Pool, w: nat, batch: Batch)
    requires Mirrors(s, p, batch) && UploadPool.WorkerStep(p, p', w) && p'.local == p.local && p'.store == p.store
    requires w < |p.workers| && !p.workers[w].Putting?
    ensures Mirrors(s, p', batch)
  {
    forall f | f in p'.files ensures Mirrored(s, p', f, batch[f]) {
      assert Mirrored(s, p, f, batch[f]);
    }
  }

  lemma WorkerMirrors(c: Cfg, j: Joint, j': Joint, w: nat, batch: Batch, content: UploadPool.Content)
    requires Mirrors(j.s, j.p, batch) && UploadPool.Sound(j.p, content) && JointBy(c, j, j', ByWorker(w), batch)
    ensures Mirrors(j'.s, j'.p, batch)
  {
    if UploadPool.Holding(j.p.workers[w]) { HeldIsInBatch(j.p, w, content); }
    if j.p.workers[w].Putting? {
      if UploadPool.PutSucceeds(j.p, j'.p, w) && Store(c, j.s, j'.s, batch[j.p.workers[w].f]) {
        StoreMirrors(c, j.s, j'.s, j.p, j'.p, w, batch);
      } else {
        StoreFailsMirrors(c, j.s, j'.s, j.p, j'.p, w, batch);
      }
    } else if j.p.workers[w].Stored? && UploadPool.Remove(j.p, j'.p, w) {
      RemoveMirrors(c, j.s, j'.s, j.p, j'.p, w, batch);
    } else {
      PlainMirrors(j.s, j.p, j'.p, w, batch);
    }
  }

  lemma MoveMirrors(c: Cfg, j: Joint, j': Joint, batch: Batch, content: UploadPool.Content)
    requires Mirrors(j.s, j.p, batch) && DiskInv(c, j.s) && UploadPool.Sound(j.p, content) && JointNext(c, j, j', batch)
    ensures Mirrors(j'.s, j'.p, batch)
  {
    var m :| JointBy(c, j, j', m, batch);
    if m.ByReceiver? {
      ReceiverMirrors(c, j, j', m.e, batch);
    } else if m.ByWorker? {
      WorkerMirrors(c, j, j', m.w, batch, content);
    } else {
      forall f | f in j'.p.files ensures Mirrored(j'.s, j'.p, f, batch[f]) {
        assert Mirrored(j.s, j.p, f, batch[f]);
      }
    }
  }

  // ---- joint runs ----

  /** A joint run is a run of the receiver's protocol and a run of the pool, and what they see agrees throughout. */
  lemma {:induction false} JointRunIsBoth(c: Cfg, before: seq<St>, js: seq<Joint>, batch: Batch,
                                          content: UploadPool.Content, i: nat)
    returns (run: seq<St>, pool: seq<Pool>)
    requires IsJointRun(c, before, js, batch, content) && i < |js|
    ensures IsRun(c, run) && before <= run && |run| == |before| + i
    ensures forall k :: 0 <= k <= i ==> run[|before| - 1 + k] == js[k].s
    ensures UploadPool.IsRun(pool, content) && |pool| == i + 1 && pool[i] == js[i].p
    ensures Mirrors(js[i].s, js[i].p, batch)
  {
    if i == 0 {
      run, pool := before, [js[0].p];
    } else {
      run, pool := JointRunIsBoth(c, before, js, batch, content, i - 1);
      assert JointStep(c, js, i, batch);
      BothGrow(c, run, pool, js[i - 1], js[i], batch, content);
      run, pool := run + [js[i].s], pool + [js[i].p];
    }
  }

  lemma BothGrow(c: Cfg, run: seq<St>, pool: seq<Pool>, j: Joint, j': Joint, batch: Batch, content: UploadPool.Content)
    requires IsRun(c, run) && run[|run| - 1] == j.s && UploadPool.IsRun(pool, content) && pool[|pool| - 1] == j.p
    requires Mirrors(j.s, j.p, batch) && JointNext(c, j, j', batch)
    ensures IsRun(c, run + [j'.s]) && UploadPool.IsRun(pool + [j'.p], content) && Mirrors(j'.s, j'.p, batch)
  {
    RunKeeps(c, run, |run| - 1);
    UploadPool.RunKeeps(pool, content, |pool| - 1);
    MoveMirrors(c, j, j', batch, content);
    NextIsBoth(c, j, j', batch);
    RunGrows(c, run, j'.s);
    PoolGrows(pool, content, j'.p);
  }

  lemma NextIsBoth(c: Cfg, j: Joint, j': Joint, batch: Batch)
    requires JointNext(c, j, j', batch)
    ensures Next(c, j.s, j'.s) && UploadPool.Next(j.p, j'.p)
  {
    var m :| JointBy(c, j, j', m, batch);
    JointIsBoth(c, j, j', m, batch);
  }

  lemma RunGrows(c: Cfg, run: seq<St>, s: St)
    requires IsRun(c, run) && Next(c, run[|run| - 1], s)
    ensures IsRun(c, run + [s])
  {
    forall i: nat | 0 < i < |run| + 1 ensures RunStep(c, run + [s], i) {
      if i < |run| { assert RunStep(c, run, i); }
    }
  }

  lemma PoolGrows(pool: seq<Pool>, content: UploadPool.Content, p: Pool)
    requires UploadPool.IsRun(pool, content) && UploadPool.Next(pool[|pool| - 1], p)
    ensures UploadPool.IsRun(pool + [p], content)
  {
    forall i: nat | 0 < i < |pool| + 1 ensures UploadPool.RunStep(pool + [p], i) {
      if i < |pool| { assert UploadPool.RunStep(pool, i); }
    }
  }

  /** The byte is in the object that a file of the batch has become, in an object stored before, or in the durable
    * copy of its segment file. */
  ghost predicate HasCopy(c: Cfg, j: Joint, batch: Batch, crashed: Files, seg: nat, off: nat) {
    var id := j.s.Id(seg);
    || (exists f :: f in j.p.files && f in batch && batch[f] == seg && f in j.p.store && |j.p.store[f]| == c.w
                    && off < c.w && j.p.store[f][off] == WalByte(c, id, off))
    || ((forall f :: f in j.p.files && f in batch ==> batch[f] != seg) && Recoverable(c, j.s.stored, map[], id, off))
    || Recoverable(c, map[], crashed, id, off)
  }

  /** End to end: whatever the workers do meanwhile, once a status update has reported a flush position, every byte
    * up to it has a copy in the archive or on stable storage at every later moment, after any machine crash. */
  lemma AcknowledgedBytesHaveCopies(c: Cfg, before: seq<St>, js: seq<Joint>, batch: Batch, content: UploadPool.Content,
                                    k: nat, i: nat, crashed: Files, seg: nat, off: nat)
    requires IsJointRun(c, before, js, batch, content) && k + 1 <= i < |js|
    requires Report(c, js[k].s, js[k + 1].s) && Crashed(js[i].s.files, crashed)
    requires before[0].origin <= seg && off < c.w && seg * c.w + off < js[k].s.lastFlush
    ensures Names(js[i].p, batch) && js[i].s.tli == before[0].tli
    ensures HasCopy(c, js[i], batch, crashed, seg, off)
  {
    var run, pool := JointRunIsBoth(c, before, js, batch, content, i);
    assert run[|before| - 1 + k] == js[k].s && run[|before| + k] == js[k + 1].s;
    AcknowledgedBytesSurvive(c, run, |before| - 1 + k, |before| - 1 + i, crashed, seg, off);
    RunKeeps(c, run, |run| - 1);
    var s, p := js[i].s, js[i].p;
    if f :| f in p.files && batch[f] == seg {
      assert Mirrored(s, p, f, seg);
    }
  }
}
