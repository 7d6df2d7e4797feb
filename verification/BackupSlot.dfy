/** The single backup slot that cron and manual triggers share. */
module BackupSlot {
  import opened Bytes

  datatype RunStatus = IdleStatus | Running | Succeeded | Failed

  /** started and finished are clock readings. */
  datatype RunState = RunState(running: bool, status: RunStatus, source: string,
                               started: Option<int>, finished: Option<int>, lastError: string)

  const FRESH := RunState(false, IdleStatus, "", None, None, "")

  function Begun(source: string, now: int): RunState {
    RunState(true, Running, source, Some(now), None, "")
  }

  function Finished(s: RunState, status: RunStatus, error: string, now: int): RunState {
    s.(running := false, status := status, finished := Some(now), lastError := error)
  }

  /** How a run ends; a recovered panic counts as an error. */
  datatype End = NoError | Error(message: string)

  datatype Work = RetentionPass | BaseBackupRun

  function StatusOf(e: End): RunStatus { if e.NoError? then Succeeded else Failed }

  function MessageOf(e: End): string { if e.NoError? then "" else e.message }

  /** The lock makes each of the three operations a single step. */
  class BackupState {
    var state: RunState
    ghost var begins: nat
    ghost var finishes: nat

    /** Outside of runs the slot is free and every Begin has had its Finish. */
    ghost predicate Balanced()
      reads this
    {
      begins == finishes + (if state.running then 1 else 0)
    }

    constructor ()
      ensures state == FRESH && begins == 0 && finishes == 0
    {
      state, begins, finishes := FRESH, 0, 0;
    }

    method Begin(source: string, now: int) returns (ok: bool)
      modifies this
      ensures ok == !old(state).running && finishes == old(finishes)
      ensures state == (if ok then Begun(source, now) else old(state))
      ensures begins == old(begins) + (if ok then 1 else 0)
      ensures old(Balanced()) ==> Balanced()
    {
      if state.running { return false; }
      state, begins := Begun(source, now), begins + 1;
      return true;
    }

    method Finish(status: RunStatus, error: string, now: int)
      modifies this
      ensures state == Finished(old(state), status, error, now)
      ensures begins == old(begins) && finishes == old(finishes) + 1
      ensures old(state).running && old(Balanced()) ==> Balanced()
    {
      state, finishes := state.(running := false, status := status, finished := Some(now), lastError := error),
        finishes + 1;
    }

    method Snapshot() returns (s: RunState)
      ensures s == state
    {
      s := state;
    }
  }

  class BackupRunner {
    const state: BackupState

    constructor (state: BackupState)
      ensures this.state == state
    {
      this.state := state;
    }

    method Reserve(source: string, canceled: bool, now: int) returns (s: Option<RunState>)
      modifies state
      ensures s.Some? <==> !canceled && !old(state.state).running
      ensures s.None? ==> state.state == old(state.state) && state.begins == old(state.begins)
      ensures s.Some? ==> s.value == state.state == Begun(source, now) && state.begins == old(state.begins) + 1
      ensures state.finishes == old(state.finishes) && (old(state.Balanced()) ==> state.Balanced())
    {
      if canceled { return None; }
      var ok := state.Begin(source, now);
      if !ok { return None; }
      var snapshot := state.Snapshot();
      return Some(snapshot);
    }

    /** retention and backup are how the two phases end, with an error, a panic, or neither; done lists the
      * phases that have been started, in order. */
    method RunReserved(retention: End, canceled: bool, backup: End, now: int) returns (e: End, done: seq<Work>)
      requires state.state.running
      modifies state
      ensures e == if retention.Error? then retention else if canceled then Error("context canceled") else backup
      ensures done == [RetentionPass] + if retention.Error? || canceled then [] else [BaseBackupRun]
      ensures state.finishes == old(state.finishes) + 1 && state.begins == old(state.begins)
      ensures state.state == Finished(old(state.state), StatusOf(e), MessageOf(e), now)
      ensures old(state.Balanced()) ==> state.Balanced()
    {
      done := [RetentionPass];
      if retention.Error? {
        e := retention;
      } else if canceled {
        e := Error("context canceled");
      } else {
        e, done := backup, done + [BaseBackupRun];
      }
      if e.Error? {
        state.Finish(Failed, e.message, now);
      } else {
        state.Finish(Succeeded, "", now);
      }
    }

    /** Every accepted run releases the slot again, exactly once, however it ends; a refused one does nothing. */
    method Run(source: string, canceledBefore: bool, retention: End, canceled: bool, backup: End, now: int, later: int)
      returns (accepted: bool, e: End, done: seq<Work>)
      requires state.Balanced()
      modifies state
      ensures state.Balanced() && accepted == (!canceledBefore && !old(state.state).running)
      ensures !accepted ==>
        state.state == old(state.state) && state.begins == old(state.begins) && state.finishes == old(state.finishes)
      ensures accepted ==>
        !state.state.running && state.begins == old(state.begins) + 1 && state.finishes == old(state.finishes) + 1
      ensures accepted ==>
        e == if retention.Error? then retention else if canceled then Error("context canceled") else backup
      ensures !accepted ==> done == []
      ensures accepted ==> done == [RetentionPass] + if retention.Error? || canceled then [] else [BaseBackupRun]
      ensures accepted ==> state.state == RunState(false, StatusOf(e), source, Some(now), Some(later), MessageOf(e))
    {
      var s := Reserve(source, canceledBefore, now);
      if s.None? { return false, Error("not started"), []; }
      e, done := RunReserved(retention, canceled, backup, later);
      accepted := true;
    }
  }

  // ---- any number of callers at once ----

  /** One caller, or the goroutine that an asynchronous start leaves behind. */
  datatype Caller =
    | Waiting(source: string)
    | Refused
    | HasSlot(source: string)
    | Answered(source: string, snapshot: RunState)
    | InRetention(source: string)
    | Checked(source: string)
    | InBackup(source: string)
    | Ending(source: string, end: End)
    | Over(end: End)

  /** The counters say how often each caller has begun and finished. */
  datatype System = System(slot: RunState, callers: seq<Caller>, begins: seq<nat>, finishes: seq<nat>)
  {
    function With(c: nat, s: Caller): System
      requires c < |callers|
    {
      this.(callers := callers[c := s])
    }
  }

  predicate Active(c: Caller) {
    !c.Waiting? && !c.Refused? && !c.Over?
  }

  predicate Refuse(s: System, s': System, c: nat, canceled: bool) {
    c < |s.callers| && s.callers[c].Waiting? && (canceled || s.slot.running) && s' == s.With(c, Refused)
  }

  predicate BeginStep(s: System, s': System, c: nat, now: int) {
    && c < |s.callers| && c < |s.begins| && s.callers[c].Waiting? && !s.slot.running
    && s' == s.With(c, HasSlot(s.callers[c].source))
              .(slot := Begun(s.callers[c].source, now), begins := s.begins[c := s.begins[c] + 1])
  }

  /** Steps between Begin and Finish; errors, cancellation and panics lead straight to the end. */
  predicate Proceed(s: System, s': System, c: nat, e: End) {
    && c < |s.callers|
    && match s.callers[c] {
         case HasSlot(src) => s' == s.With(c, Answered(src, s.slot))
         case Answered(src, _) => s' == s.With(c, InRetention(src))
         case InRetention(src) => s' == s.With(c, if e.Error? then Ending(src, e) else Checked(src))
         case Checked(src) => s' == s.With(c, if e.Error? then Ending(src, e) else InBackup(src))
         case InBackup(src) => s' == s.With(c, Ending(src, e))
         case _ => false
       }
  }

  predicate FinishStep(s: System, s': System, c: nat, now: int) {
    && c < |s.callers| && c < |s.finishes| && s.callers[c].Ending?
    && var e := s.callers[c].end;
    && s' == s.With(c, Over(e))
              .(slot := Finished(s.slot, StatusOf(e), MessageOf(e), now),
                finishes := s.finishes[c := s.finishes[c] + 1])
  }

  /** A new trigger arrives. */
  predicate Arrive(s: System, s': System, source: string) {
    s' == s.(callers := s.callers + [Waiting(source)], begins := s.begins + [0], finishes := s.finishes + [0])
  }

  ghost predicate Next(s: System, s': System) {
    || (exists c, canceled :: Refuse(s, s', c, canceled)) || (exists c, now :: BeginStep(s, s', c, now))
    || (exists c, e :: Proceed(s, s', c, e)) || (exists c, now :: FinishStep(s, s', c, now))
    || (exists source :: Arrive(s, s', source))
  }

  ghost predicate IsRun(run: seq<System>) {
    |run| > 0 && run[0] == System(FRESH, [], [], []) && forall i :: 0 < i < |run| ==> Next(run[i - 1], run[i])
  }

  ghost predicate Inv(s: System) {
    && |s.begins| == |s.finishes| == |s.callers|
    && (forall c, d :: 0 <= c < d < |s.callers| ==> !(Active(s.callers[c]) && Active(s.callers[d])))
    && (s.slot.running <==> exists c :: 0 <= c < |s.callers| && Active(s.callers[c]))
    && (forall c :: 0 <= c < |s.callers| && Active(s.callers[c]) ==>
          s.slot.status.Running? && s.slot.source == s.callers[c].source)
    && (forall c :: 0 <= c < |s.callers| && s.callers[c].Answered? ==> s.callers[c].snapshot == s.slot)
    && (forall c :: 0 <= c < |s.callers| ==>
         && s.begins[c] == (if Active(s.callers[c]) || s.callers[c].Over? then 1 else 0)
         && s.finishes[c] == (if s.callers[c].Over? then 1 else 0))
  }

  lemma BeginKeeps(s: System, s': System, c: nat, now: int)
    requires Inv(s) && BeginStep(s, s', c, now)
    ensures Inv(s')
  {
    assert Active(s'.callers[c]);
  }

  lemma ProceedKeeps(s: System, s': System, c: nat, e: End)
    requires Inv(s) && Proceed(s, s', c, e)
    ensures Inv(s')
  {
    assert Active(s.callers[c]) && Active(s'.callers[c]);
  }

  lemma FinishKeeps(s: System, s': System, c: nat, now: int)
    requires Inv(s) && FinishStep(s, s', c, now)
    ensures Inv(s')
  {
  }

  lemma OthersKeep(s: System, s': System)
    requires Inv(s) && ((exists c, canceled :: Refuse(s, s', c, canceled)) || (exists source :: Arrive(s, s', source)))
    ensures Inv(s')
  {
    if c, canceled :| Refuse(s, s', c, canceled) {
      forall d | 0 <= d < |s.callers| ensures Active(s'.callers[d]) <==> Active(s.callers[d]) {}
    } else {
      var n := |s.callers|;
      forall d | 0 <= d < n ensures s'.callers[d] == s.callers[d] {}
      assert !Active(s'.callers[n]);
    }
  }

  lemma StepKeeps(s: System, s': System)
    requires Inv(s) && Next(s, s')
    ensures Inv(s')
  {
    if c, now :| BeginStep(s, s', c, now) {
      BeginKeeps(s, s', c, now);
    } else if c, e :| Proceed(s, s', c, e) {
      ProceedKeeps(s, s', c, e);
    } else if c, now :| FinishStep(s, s', c, now) {
      FinishKeeps(s, s', c, now);
    } else {
      OthersKeep(s, s');
    }
  }

  lemma {:induction false} RunKeeps(run: seq<System>, i: nat)
    requires IsRun(run) && i < |run|
    ensures Inv(run[i])
  {
    if i > 0 {
      RunKeeps(run, i - 1);
      StepKeeps(run[i - 1], run[i]);
    }
  }

  /** Changing storage: in the retention pass or in the base backup. */
  predicate Working(c: Caller) { c.InRetention? || c.InBackup? }

  /** In every interleaving: a retention pass or a base backup of one run never overlaps one of another, and the
    * slot is taken exactly while some run holds it. */
  lemma NoOverlap(run: seq<System>, i: nat, c: nat, d: nat)
    requires IsRun(run) && i < |run| && c < |run[i].callers| && d < |run[i].callers|
    ensures Working(run[i].callers[c]) && Working(run[i].callers[d]) ==> c == d
    ensures run[i].slot.running <==> exists o :: 0 <= o < |run[i].callers| && Active(run[i].callers[o])
  {
    RunKeeps(run, i);
  }

  /** Every successful Begin is followed by at most one Finish, by exactly one once the run is over, and a caller
    * that was refused has neither. An asynchronous start is answered with the state of its own run. */
  lemma OneFinishPerBegin(run: seq<System>, i: nat, c: nat)
    requires IsRun(run) && i < |run| && c < |run[i].callers|
    ensures var s := run[i];
      && |s.begins| == |s.finishes| == |s.callers|
      && s.finishes[c] <= s.begins[c] <= 1
      && (s.callers[c].Over? ==> s.begins[c] == s.finishes[c] == 1)
      && (s.callers[c].Waiting? || s.callers[c].Refused? ==> s.begins[c] == s.finishes[c] == 0)
      && (s.callers[c].Answered? ==>
            s.callers[c].snapshot.running && s.callers[c].snapshot.source == s.callers[c].source)
  {
    RunKeeps(run, i);
    if run[i].callers[c].Answered? { assert Active(run[i].callers[c]); }
  }

  /** Nobody waits forever for a run that has the slot: from every state the active run can go on, and a free
    * slot can be taken. */
  lemma SlotMovesOn(s: System, c: nat) returns (s': System)
    requires Inv(s) && c < |s.callers| && (Active(s.callers[c]) || (s.callers[c].Waiting? && !s.slot.running))
    ensures Next(s, s') && s'.callers[c] != s.callers[c]
  {
    match s.callers[c] {
      case Waiting(src) =>
        s' := s.With(c, HasSlot(src)).(slot := Begun(src, 0), begins := s.begins[c := s.begins[c] + 1]);
        assert BeginStep(s, s', c, 0);
      case Ending(src, e) =>
        s' := s.With(c, Over(e)).(slot := Finished(s.slot, StatusOf(e), MessageOf(e), 0),
          finishes := s.finishes[c := s.finishes[c] + 1]);
        assert FinishStep(s, s', c, 0);
      case HasSlot(src) =>
        s' := s.With(c, Answered(src, s.slot));
        assert Proceed(s, s', c, NoError);
      case Answered(src, _) =>
        s' := s.With(c, InRetention(src));
        assert Proceed(s, s', c, NoError);
      case InRetention(src) =>
        s' := s.With(c, Checked(src));
        assert Proceed(s, s', c, NoError);
      case Checked(src) =>
        s' := s.With(c, InBackup(src));
        assert Proceed(s, s', c, NoError);
      case InBackup(src) =>
        s' := s.With(c, Ending(src, NoError));
        assert Proceed(s, s', c, NoError);
    }
  }
}
