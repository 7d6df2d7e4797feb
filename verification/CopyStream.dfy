/** What the server sends over one connection and what the client must answer: which statuses it sends, when the
  * copy stream ends, and which timelines it follows. */
module CopyStream {
  import opened Arith
  import opened Bytes

  /** A standby status update, and the timeline it was sent on. */
  datatype Status = Status(tli: nat, write: nat, flush: nat)

  /** What the server announces when it ends the copy stream. */
  datatype NextTimeline = NextTimeline(tli: nat, start: nat)

  datatype Event =
    | Timeout
    | Disconnected
    | Keepalive(replyRequested: bool)
    | XLogData(start: nat, data: seq<byte>)
    | CopyDone(next: NextTimeline)
    | Ignored
    | Unexpected

  /** Bytes a message delivers. */
  function Payload(ev: Event): nat {
    if ev.XLogData? then |ev.data| else 0
  }

  /** Bytes delivered by the first n messages. */
  function Delivered(input: seq<Event>, n: nat): nat
    requires n <= |input|
  {
    if n == 0 then 0 else Delivered(input, n - 1) + Payload(input[n - 1])
  }

  /** A message that the client does not refuse when it has received everything up to pos. */
  predicate Acceptable(w: nat, ev: Event, pos: nat)
    requires w > 0
  {
    match ev
    case XLogData(start, _) => start % w == pos % w
    case Keepalive(_) => true
    case CopyDone(_) => true
    case Ignored => true
    case _ => false
  }

  /** From message i on, with everything up to pos received, an announcement comes before a message that is
    * refused and before the connection is lost. */
  predicate EndsWell(w: nat, input: seq<Event>, i: nat, pos: nat)
    requires w > 0 && i <= |input|
    decreases |input| - i
  {
    i < |input| && (input[i].Timeout? || Acceptable(w, input[i], pos))
    && (input[i].CopyDone? || EndsWell(w, input, i + 1, pos + Payload(input[i])))
  }

  // ---- one timeline ----

  /** Everything up to pos has been received and everything up to flush is reported as durable. */
  datatype Progress = Progress(pos: nat, flush: nat)

  /** A flush happens only if a file is open and something in it has not been flushed. */
  function Synced(w: nat, s: Progress): Progress
    requires w > 0
  {
    if s.flush < s.pos && s.pos % w != 0 then s.(flush := s.pos) else s
  }

  /** What the top of the receive loop sends: a status after a flush, and another one if it is due. */
  function TopSent(w: nat, tli: nat, s: Progress, due: bool): seq<Status>
    requires w > 0
  {
    (if Synced(w, s) != s then [Status(tli, s.pos, s.pos)] else [])
    + (if due then [Status(tli, s.pos, Synced(w, s).flush)] else [])
  }

  function MsgSent(w: nat, tli: nat, s: Progress, ev: Event): seq<Status>
    requires w > 0
  {
    if ev == Keepalive(true) then [Status(tli, s.pos, Synced(w, s).flush)] else []
  }

  /** The flush position after receiving from pos up to p: closing a segment flushes it. */
  function FlushAfter(w: nat, pos: nat, flush: nat, p: nat): nat
    requires w > 0
  {
    if p / w > pos / w then p / w * w else flush
  }

  function AfterMsg(w: nat, s: Progress, ev: Event): Progress
    requires w > 0
  {
    if ev == Keepalive(true) then Synced(w, s)
    else Progress(s.pos + Payload(ev), FlushAfter(w, s.pos, s.flush, s.pos + Payload(ev)))
  }

  /** How the stream ended, and the flush position after the open file has been closed. */
  datatype Ending = Ending(next: NextTimeline, pos: nat, flush: nat)

  datatype Story = Story(sent: seq<Status>, end: Option<Ending>)

  function Closed(w: nat, s: Progress): nat
    requires w > 0
  {
    if s.pos % w != 0 then s.pos else s.flush
  }

  /** The statuses to be sent from message i on and how the stream ends, at the top of the receive loop or within a
    * turn of it; due tells at which messages a turn finds a periodic status due. */
  function Stream(w: nat, tli: nat, input: seq<Event>, due: nat -> bool, i: nat, s: Progress, top: bool): Story
    requires w > 0 && i <= |input|
    decreases |input| - i, top
  {
    if top then
      var rest := Stream(w, tli, input, due, i, Synced(w, s), false);
      Story(TopSent(w, tli, s, due(i)) + rest.sent, rest.end)
    else if i < |input| && input[i].Timeout? then
      Stream(w, tli, input, due, i + 1, s, true)
    else if i == |input| || !Acceptable(w, input[i], s.pos) then
      Story([], None)
    else if input[i].CopyDone? then
      Story([], Some(Ending(input[i].next, s.pos, Closed(w, s))))
    else
      var rest := Stream(w, tli, input, due, i + 1, AfterMsg(w, s, input[i]), false);
      Story(MsgSent(w, tli, s, input[i]) + rest.sent, rest.end)
  }

  // ---- what that means ----

  lemma FlushAfterBounds(w: nat, pos: nat, flush: nat, p: nat)
    requires w > 0 && flush <= pos <= p
    ensures flush <= FlushAfter(w, pos, flush, p) <= p
    ensures FlushAfter(w, pos, flush, p) == p ==> p % w == 0 || flush == p
  {
    DivMod(p, w);
    DivMod(pos, w);
    if p / w > pos / w { MulStep(pos / w, p / w, w); }
  }

  /** The flush position stays between where it was and what has been received. */
  lemma ProgressGoesOn(w: nat, s: Progress, ev: Event)
    requires w > 0 && s.flush <= s.pos
    ensures var t := AfterMsg(w, s, ev);
      s.flush <= t.flush <= t.pos && t.pos == s.pos + Payload(ev)
  {
    FlushAfterBounds(w, s.pos, s.flush, s.pos + Payload(ev));
  }

  /** The stream ends well exactly if an announcement comes in time, after everything before it. */
  lemma {:induction false} StreamEndsExactly(w: nat, tli: nat, input: seq<Event>, due: nat -> bool, i: nat, s: Progress,
                                             top: bool)
    requires w > 0 && i <= |input|
    ensures var end := Stream(w, tli, input, due, i, s, top).end;
      && (end.Some? <==> EndsWell(w, input, i, s.pos))
      && (end.Some? ==> exists k :: i <= k < |input| && input[k] == CopyDone(end.value.next)
                                    && end.value.pos + Delivered(input, i) == s.pos + Delivered(input, k))
    decreases |input| - i, top
  {
    if top {
      StreamEndsExactly(w, tli, input, due, i, Synced(w, s), false);
    } else if i < |input| && input[i].Timeout? {
      StreamEndsExactly(w, tli, input, due, i + 1, s, true);
    } else if i < |input| && Acceptable(w, input[i], s.pos) && !input[i].CopyDone? {
      StreamEndsExactly(w, tli, input, due, i + 1, AfterMsg(w, s, input[i]), false);
    }
  }

  /** Every message from i up to k is accepted, and then everything up to p has been received. */
  predicate Reaches(w: nat, input: seq<Event>, i: nat, pos: nat, k: nat, p: nat)
    requires w > 0 && i <= k <= |input|
    decreases k - i
  {
    if i == k then pos == p
    else
      (input[i].Timeout? || (Acceptable(w, input[i], pos) && !input[i].CopyDone?))
      && Reaches(w, input, i + 1, pos + Payload(input[i]), k, p)
  }

  lemma {:induction false} ReachesAhead(w: nat, input: seq<Event>, i: nat, pos: nat, k: nat, p: nat)
    requires w > 0 && i <= k <= |input| && Reaches(w, input, i, pos, k, p)
    ensures pos <= p
    decreases k - i
  {
    if i < k { ReachesAhead(w, input, i + 1, pos + Payload(input[i]), k, p); }
  }

  /** Whenever the client has drained its input, it has reported everything it has received as flushed. */
  lemma {:induction false} TimeoutIsReported(w: nat, tli: nat, input: seq<Event>, due: nat -> bool, i: nat, s: Progress,
                                             top: bool, k: nat, p: nat)
    requires w > 0 && i <= k < |input| && input[k].Timeout? && Reaches(w, input, i, s.pos, k, p)
    requires s.flush <= s.pos && s.flush < p && p % w != 0
    ensures Status(tli, p, p) in Stream(w, tli, input, due, i, s, top).sent
    decreases |input| - i, top
  {
    ReachesAhead(w, input, i, s.pos, k, p);
    if top {
      if Synced(w, s).flush < p { TimeoutIsReported(w, tli, input, due, i, Synced(w, s), false, k, p); }
    } else if i == k {
      assert Status(tli, p, p) in TopSent(w, tli, s, due(i + 1));
      TopIsSent(w, tli, input, due, i + 1, s);
    } else if input[i].Timeout? {
      TimeoutIsReported(w, tli, input, due, i + 1, s, true, k, p);
    } else {
      var t := AfterMsg(w, s, input[i]);
      ProgressGoesOn(w, s, input[i]);
      FlushAfterBounds(w, s.pos, s.flush, s.pos + Payload(input[i]));
      ReachesAhead(w, input, i + 1, t.pos, k, p);
      if t.flush < p { TimeoutIsReported(w, tli, input, due, i + 1, t, false, k, p); }
    }
  }

  /** The only occasions for a status: a turn begins, or a reply is requested. */
  predicate Occasion(input: seq<Event>, i: nat, top: bool, k: nat)
    requires i <= k <= |input|
  {
    (if k == i then top else input[k - 1].Timeout?) || (k < |input| && input[k] == Keepalive(true))
  }

  /** A status that has an occasion, names exactly what has been received by then, and flushes no more. */
  ghost predicate Justified(w: nat, tli: nat, input: seq<Event>, i: nat, pos: nat, top: bool, st: Status)
    requires w > 0 && i <= |input|
  {
    && st.tli == tli && st.flush <= st.write
    && exists k | i <= k <= |input| :: Occasion(input, i, top, k) && Reaches(w, input, i, pos, k, st.write)
  }

  lemma JustifiedBefore(w: nat, tli: nat, input: seq<Event>, i: nat, pos: nat, st: Status)
    requires w > 0 && i < |input|
    requires input[i].Timeout? || (Acceptable(w, input[i], pos) && !input[i].CopyDone?)
    requires Justified(w, tli, input, i + 1, pos + Payload(input[i]), input[i].Timeout?, st)
    ensures Justified(w, tli, input, i, pos, false, st)
  {
    var top := input[i].Timeout?;
    var k :| i < k <= |input| && Occasion(input, i + 1, top, k)
             && Reaches(w, input, i + 1, pos + Payload(input[i]), k, st.write);
    assert Occasion(input, i, false, k);
  }

  lemma {:induction false} StatusIsJustified(w: nat, tli: nat, input: seq<Event>, due: nat -> bool, i: nat, s: Progress,
                                             top: bool, n: nat)
    requires w > 0 && i <= |input| && s.flush <= s.pos && n < |Stream(w, tli, input, due, i, s, top).sent|
    ensures Justified(w, tli, input, i, s.pos, top, Stream(w, tli, input, due, i, s, top).sent[n])
    decreases |input| - i, top
  {
    var st := Stream(w, tli, input, due, i, s, top).sent[n];
    if top {
      var before := |TopSent(w, tli, s, due(i))|;
      if n < before {
        assert Occasion(input, i, top, i);
      } else {
        StatusIsJustified(w, tli, input, due, i, Synced(w, s), false, n - before);
        assert forall k :: i <= k <= |input| && Occasion(input, i, false, k) ==> Occasion(input, i, true, k);
      }
    } else if input[i].Timeout? {
      StatusIsJustified(w, tli, input, due, i + 1, s, true, n);
      JustifiedBefore(w, tli, input, i, s.pos, st);
    } else {
      var before := |MsgSent(w, tli, s, input[i])|;
      if n < before {
        assert Occasion(input, i, top, i);
      } else {
        var t := AfterMsg(w, s, input[i]);
        ProgressGoesOn(w, s, input[i]);
        StatusIsJustified(w, tli, input, due, i + 1, t, false, n - before);
        JustifiedBefore(w, tli, input, i, s.pos, st);
      }
    }
  }

  /** If the announcement comes after everything up to p, the stream ends there, and everything received has been
    * flushed; if nothing has been received at a segment boundary, the flush position is the old one. */
  lemma {:induction false} AnnouncementEnds(w: nat, tli: nat, input: seq<Event>, due: nat -> bool, i: nat, s: Progress,
                                            top: bool, k: nat, p: nat)
    requires w > 0 && i <= k < |input| && input[k].CopyDone? && Reaches(w, input, i, s.pos, k, p)
    requires s.flush <= s.pos
    ensures Stream(w, tli, input, due, i, s, top).end ==
      Some(Ending(input[k].next, p, if p % w != 0 || p > s.pos then p else s.flush))
    decreases |input| - i, top
  {
    if top {
      AnnouncementEnds(w, tli, input, due, i, Synced(w, s), false, k, p);
      ReachesAhead(w, input, i, s.pos, k, p);
    } else if i < k && input[i].Timeout? {
      AnnouncementEnds(w, tli, input, due, i + 1, s, true, k, p);
    } else if i < k {
      var t := AfterMsg(w, s, input[i]);
      ProgressGoesOn(w, s, input[i]);
      AnnouncementEnds(w, tli, input, due, i + 1, t, false, k, p);
      ReachesAhead(w, input, i + 1, t.pos, k, p);
      if p == t.pos && p % w == 0 && p > s.pos { AlignedIsFlushed(w, s.pos, s.flush, p); }
    }
  }

  lemma AlignedIsFlushed(w: nat, pos: nat, flush: nat, p: nat)
    requires w > 0 && pos < p && p % w == 0
    ensures FlushAfter(w, pos, flush, p) == p
  {
    DivMod(p, w);
    DivBelow(pos, w, p / w);
  }

  lemma TopIsSent(w: nat, tli: nat, input: seq<Event>, due: nat -> bool, i: nat, s: Progress)
    requires w > 0 && i <= |input|
    ensures TopSent(w, tli, s, due(i)) <= Stream(w, tli, input, due, i, s, true).sent
    ensures forall st :: st in TopSent(w, tli, s, due(i)) ==> st in Stream(w, tli, input, due, i, s, true).sent
  {
  }

  /** Every turn that is begun sends its periodic status if it is due, with everything received so far. */
  lemma {:induction false} DueIsReported(w: nat, tli: nat, input: seq<Event>, due: nat -> bool, i: nat, s: Progress,
                                         top: bool, k: nat, p: nat)
    requires w > 0 && i <= k <= |input| && Reaches(w, input, i, s.pos, k, p)
    requires (if k == i then top else input[k - 1].Timeout?) && due(k)
    requires s.flush <= s.pos
    ensures exists st ::
      && st in Stream(w, tli, input, due, i, s, top).sent && st.tli == tli && st.write == p
      && (p % w != 0 ==> st.flush == p)
    decreases |input| - i, top
  {
    if i == k {
      assert Status(tli, p, Synced(w, s).flush) in TopSent(w, tli, s, due(i));
      TopIsSent(w, tli, input, due, i, s);
    } else if top {
      DueIsReported(w, tli, input, due, i, Synced(w, s), false, k, p);
    } else if input[i].Timeout? {
      DueIsReported(w, tli, input, due, i + 1, s, true, k, p);
    } else {
      ProgressGoesOn(w, s, input[i]);
      DueIsReported(w, tli, input, due, i + 1, AfterMsg(w, s, input[i]), false, k, p);
    }
  }

  /** Every requested reply is sent, and reports everything received as flushed. */
  lemma {:induction false} RequestIsAnswered(w: nat, tli: nat, input: seq<Event>, due: nat -> bool, i: nat, s: Progress,
                                             top: bool, k: nat, p: nat)
    requires w > 0 && i <= k < |input| && input[k] == Keepalive(true) && Reaches(w, input, i, s.pos, k, p)
    requires s.flush <= s.pos
    ensures exists st ::
      && st in Stream(w, tli, input, due, i, s, top).sent && st.tli == tli && st.write == p
      && (p % w != 0 ==> st.flush == p)
    decreases |input| - i, top
  {
    if top {
      RequestIsAnswered(w, tli, input, due, i, Synced(w, s), false, k, p);
    } else if i == k {
      assert Status(tli, p, Synced(w, s).flush) in MsgSent(w, tli, s, input[i]);
    } else if input[i].Timeout? {
      RequestIsAnswered(w, tli, input, due, i + 1, s, true, k, p);
    } else {
      ProgressGoesOn(w, s, input[i]);
      RequestIsAnswered(w, tli, input, due, i + 1, AfterMsg(w, s, input[i]), false, k, p);
    }
  }

  // ---- the order of flush positions ----

  /** Flush positions reported one after the other, none below lo. */
  ghost predicate Rising(xs: seq<Status>, lo: nat) {
    && (forall i :: 0 <= i < |xs| ==> lo <= xs[i].flush)
    && (forall i, j :: 0 <= i < j < |xs| ==> xs[i].flush <= xs[j].flush)
  }

  ghost predicate SentOn(tli: nat, xs: seq<Status>) {
    forall i :: 0 <= i < |xs| ==> xs[i].tli == tli
  }

  lemma RisingJoin(xs: seq<Status>, ys: seq<Status>, lo: nat, mid: nat)
    requires Rising(xs, lo) && Rising(ys, mid) && lo <= mid
    requires forall i :: 0 <= i < |xs| ==> xs[i].flush <= mid
    ensures Rising(xs + ys, lo)
  {
  }

  /** As long as the flush position means something, the reported ones ascend. */
  lemma {:induction false} StreamRises(w: nat, tli: nat, input: seq<Event>, due: nat -> bool, i: nat, s: Progress,
                                       top: bool)
    requires w > 0 && i <= |input| && s.flush <= s.pos
    ensures Rising(Stream(w, tli, input, due, i, s, top).sent, s.flush)
    decreases |input| - i, top
  {
    if top {
      StreamRises(w, tli, input, due, i, Synced(w, s), false);
      RisingJoin(TopSent(w, tli, s, due(i)), Stream(w, tli, input, due, i, Synced(w, s), false).sent, s.flush,
                 Synced(w, s).flush);
    } else if i < |input| && input[i].Timeout? {
      StreamRises(w, tli, input, due, i + 1, s, true);
    } else if i < |input| && Acceptable(w, input[i], s.pos) && !input[i].CopyDone? {
      var t := AfterMsg(w, s, input[i]);
      ProgressGoesOn(w, s, input[i]);
      StreamRises(w, tli, input, due, i + 1, t, false);
      RisingJoin(MsgSent(w, tli, s, input[i]), Stream(w, tli, input, due, i + 1, t, false).sent, s.flush, t.flush);
    }
  }

  lemma {:induction false} StreamSentOn(w: nat, tli: nat, input: seq<Event>, due: nat -> bool, i: nat, s: Progress,
                                        top: bool)
    requires w > 0 && i <= |input|
    ensures SentOn(tli, Stream(w, tli, input, due, i, s, top).sent)
    decreases |input| - i, top
  {
    if top {
      StreamSentOn(w, tli, input, due, i, Synced(w, s), false);
    } else if i < |input| && input[i].Timeout? {
      StreamSentOn(w, tli, input, due, i + 1, s, true);
    } else if i < |input| && Acceptable(w, input[i], s.pos) && !input[i].CopyDone? {
      StreamSentOn(w, tli, input, due, i + 1, AfterMsg(w, s, input[i]), false);
    }
  }

  // ---- step by step ----

  /** One more chunk of at most the rest of the segment. */
  lemma FlushAfterChunk(w: nat, start: nat, flush: nat, pos: nat, n: nat)
    requires w > 0 && start <= pos && 0 < n <= w - pos % w
    ensures FlushAfter(w, start, flush, pos + n) ==
      if (pos + n) % w == 0 then pos + n else FlushAfter(w, start, flush, pos)
  {
    var q, r := pos / w, pos % w;
    DivMod(pos, w);
    DivMod(start, w);
    if r + n == w {
      assert (q + 1) * w == q * w + w;
      DivModUnique(w, q + 1, 0, pos + n);
      if q < start / w { MulStep(q, start / w, w); }
    } else {
      DivModUnique(w, q, r + n, pos + n);
    }
  }

  /** Processing message k takes its part off what is still to be sent. */
  lemma OneMoreMsg(w: nat, tli: nat, input: seq<Event>, due: nat -> bool, k: nat, s: Progress, was: seq<Status>)
    requires w > 0 && k < |input| && !input[k].Timeout?
    ensures var rest, more := Stream(w, tli, input, due, k, s, false), MsgSent(w, tli, s, input[k]);
      if !Acceptable(w, input[k], s.pos) then rest == Story([], None) && was + rest.sent == was
      else if input[k].CopyDone? then
        rest == Story([], Some(Ending(input[k].next, s.pos, Closed(w, s)))) && was + rest.sent == was
      else
        var next := Stream(w, tli, input, due, k + 1, AfterMsg(w, s, input[k]), false);
        rest.end == next.end && was + rest.sent == was + more + next.sent
  {
    if Acceptable(w, input[k], s.pos) && !input[k].CopyDone? {
      var next := Stream(w, tli, input, due, k + 1, AfterMsg(w, s, input[k]), false);
      assert was + (MsgSent(w, tli, s, input[k]) + next.sent) == was + MsgSent(w, tli, s, input[k]) + next.sent;
    }
  }

  lemma TurnBegins(w: nat, tli: nat, input: seq<Event>, due: nat -> bool, i: nat, s: Progress, was: seq<Status>)
    requires w > 0 && i <= |input|
    ensures var rest := Stream(w, tli, input, due, i, s, true);
      var within := Stream(w, tli, input, due, i, Synced(w, s), false);
      rest.end == within.end && was + rest.sent == was + TopSent(w, tli, s, due(i)) + within.sent
  {
    var within := Stream(w, tli, input, due, i, Synced(w, s), false);
    assert was + (TopSent(w, tli, s, due(i)) + within.sent) == was + TopSent(w, tli, s, due(i)) + within.sent;
  }

  // ---- one timeline after the other ----

  const LAST_TIMELINE := 0x7FFF_FFFF

  /** A timeline switch inside one session. */
  datatype Hop = Hop(fromTli: nat, stop: nat, toTli: nat, announced: nat, start: nat)

  /** Only a later timeline that starts no later than where this one stopped is followed. */
  predicate Followed(tli: nat, end: Ending) {
    tli < end.next.tli && end.next.start <= end.pos
  }

  /** The next timeline starts at the beginning of the segment that holds the announced position. */
  function HopOf(w: nat, tli: nat, end: Ending): Hop
    requires w > 0
  {
    Hop(tli, end.pos, end.next.tli, end.next.start, end.next.start - end.next.start % w)
  }

  type Script = (nat, nat) -> seq<Event>

  datatype Saga = Saga(hops: seq<Hop>, sent: seq<Status>)

  function DueOn(due: (nat, nat) -> bool, tli: nat): nat -> bool {
    (i: nat) => due(tli, i)
  }

  function TimelineStory(w: nat, script: Script, due: (nat, nat) -> bool, tli: nat, pos: nat, flush: nat): Story
    requires w > 0
  {
    Stream(w, tli, script(tli, pos), DueOn(due, tli), 0, Progress(pos, flush), true)
  }

  /** All timelines from tli on: script gives what the server sends when asked for a timeline from a position. */
  function SagaOf(w: nat, script: Script, due: (nat, nat) -> bool, tli: nat, pos: nat, flush: nat): Saga
    requires w > 0
    decreases if tli <= LAST_TIMELINE then LAST_TIMELINE + 1 - tli else 0
  {
    if tli > LAST_TIMELINE then Saga([], []) else
    var story := TimelineStory(w, script, due, tli, pos, flush);
    if story.end.None? || !Followed(tli, story.end.value) then Saga([], story.sent) else
    var hop := HopOf(w, tli, story.end.value);
    var rest := SagaOf(w, script, due, hop.toTli, hop.start, story.end.value.flush);
    Saga([hop] + rest.hops, story.sent + rest.sent)
  }

  /** Timelines grow strictly; each starts at the segment that holds the announced position, which is
    * no later than where its predecessor stopped. */
  ghost predicate Hops(w: nat, from: nat, hops: seq<Hop>, to: nat)
    requires w > 0
  {
    && (if hops == [] then from == to else hops[0].fromTli == from && hops[|hops| - 1].toTli == to)
    && (forall i :: 0 <= i < |hops| ==> hops[i].fromTli < hops[i].toTli)
    && (forall i :: 0 < i < |hops| ==> hops[i - 1].toTli == hops[i].fromTli)
    && (forall i :: 0 <= i < |hops| ==>
         hops[i].start <= hops[i].announced <= hops[i].stop && hops[i].start % w == 0
         && hops[i].announced - hops[i].start < w)
  }

  lemma HopsMore(w: nat, from: nat, hops: seq<Hop>, to: nat, hop: Hop)
    requires w > 0 && Hops(w, from, hops, to) && Hops(w, to, [hop], hop.toTli)
    ensures Hops(w, from, hops + [hop], hop.toTli)
  {
  }

  lemma OneHop(w: nat, tli: nat, end: Ending)
    requires w > 0 && Followed(tli, end)
    ensures Hops(w, tli, [HopOf(w, tli, end)], end.next.tli)
  {
    AlignDown(end.next.start, w);
  }

  /** The first timeline of a chain. */
  lemma ChainStep(w: nat, script: Script, due: (nat, nat) -> bool, tli: nat, pos: nat, flush: nat, hops: seq<Hop>,
                  sent: seq<Status>)
    requires w > 0
    ensures var rest, story := SagaOf(w, script, due, tli, pos, flush), TimelineStory(w, script, due, tli, pos, flush);
      if tli > LAST_TIMELINE then hops + rest.hops == hops && sent + rest.sent == sent
      else if story.end.None? || !Followed(tli, story.end.value) then
        hops + rest.hops == hops && sent + rest.sent == sent + story.sent
      else
        var hop := HopOf(w, tli, story.end.value);
        var next := SagaOf(w, script, due, hop.toTli, hop.start, story.end.value.flush);
        && Hops(w, tli, [hop], hop.toTli)
        && hops + rest.hops == hops + [hop] + next.hops && sent + rest.sent == sent + story.sent + next.sent
  {
    var story := TimelineStory(w, script, due, tli, pos, flush);
    if tli <= LAST_TIMELINE && story.end.Some? && Followed(tli, story.end.value) {
      OneHop(w, tli, story.end.value);
      var hop := HopOf(w, tli, story.end.value);
      var next := SagaOf(w, script, due, hop.toTli, hop.start, story.end.value.flush);
      assert hops + ([hop] + next.hops) == hops + [hop] + next.hops;
      assert sent + (story.sent + next.sent) == sent + story.sent + next.sent;
    }
  }

  /** An announcement that comes after everything up to p is followed exactly if it names a later timeline that
    * starts no later than p. */
  lemma AnnouncementIsFollowed(w: nat, script: Script, due: (nat, nat) -> bool, tli: nat, pos: nat, flush: nat, k: nat,
                               p: nat)
    requires w > 0 && tli <= LAST_TIMELINE && flush <= pos
    requires k < |script(tli, pos)| && script(tli, pos)[k].CopyDone? && Reaches(w, script(tli, pos), 0, pos, k, p)
    ensures var next, hops := script(tli, pos)[k].next, SagaOf(w, script, due, tli, pos, flush).hops;
      if next.tli <= tli || next.start > p then hops == [] else
      var start := next.start - next.start % w;
      && start <= next.start < start + w && start % w == 0
      && hops == [Hop(tli, p, next.tli, next.start, start)]
        + SagaOf(w, script, due, next.tli, start, if p % w != 0 || p > pos then p else flush).hops
  {
    AnnouncementEnds(w, tli, script(tli, pos), DueOn(due, tli), 0, Progress(pos, flush), true, k, p);
    AlignDown(script(tli, pos)[k].next.start, w);
  }

  /** Without an announcement in time no timeline is followed. */
  lemma NothingIsFollowed(w: nat, script: Script, due: (nat, nat) -> bool, tli: nat, pos: nat, flush: nat)
    requires w > 0 && (tli > LAST_TIMELINE || !EndsWell(w, script(tli, pos), 0, pos))
    ensures SagaOf(w, script, due, tli, pos, flush).hops == []
  {
    if tli <= LAST_TIMELINE {
      StreamEndsExactly(w, tli, script(tli, pos), DueOn(due, tli), 0, Progress(pos, flush), true);
    }
  }

  /** Among all statuses of a session, the flush positions of its first timeline ascend. */
  ghost predicate RisingOn(tli: nat, xs: seq<Status>) {
    forall i, j :: 0 <= i < j < |xs| && xs[i].tli == tli && xs[j].tli == tli ==> xs[i].flush <= xs[j].flush
  }

  lemma PrefixRises(tli: nat, xs: seq<Status>, ys: seq<Status>)
    requires RisingOn(tli, ys) && xs <= ys
    ensures RisingOn(tli, xs)
  {
  }

  ghost predicate SentAfter(tli: nat, xs: seq<Status>) {
    forall i :: 0 <= i < |xs| ==> xs[i].tli > tli
  }

  lemma {:induction false} ChainSentAfter(w: nat, script: Script, due: (nat, nat) -> bool, tli: nat, pos: nat,
                                          flush: nat, first: nat)
    requires w > 0 && first < tli
    ensures SentAfter(first, SagaOf(w, script, due, tli, pos, flush).sent)
    decreases if tli <= LAST_TIMELINE then LAST_TIMELINE + 1 - tli else 0
  {
    if tli <= LAST_TIMELINE {
      var story := TimelineStory(w, script, due, tli, pos, flush);
      StreamSentOn(w, tli, script(tli, pos), DueOn(due, tli), 0, Progress(pos, flush), true);
      if story.end.Some? && Followed(tli, story.end.value) {
        var hop := HopOf(w, tli, story.end.value);
        ChainSentAfter(w, script, due, hop.toTli, hop.start, story.end.value.flush, first);
      }
    }
  }

  lemma ChainRises(w: nat, script: Script, due: (nat, nat) -> bool, tli: nat, pos: nat, flush: nat)
    requires w > 0 && flush <= pos
    ensures RisingOn(tli, SagaOf(w, script, due, tli, pos, flush).sent)
  {
    if tli <= LAST_TIMELINE {
      var story := TimelineStory(w, script, due, tli, pos, flush);
      StreamRises(w, tli, script(tli, pos), DueOn(due, tli), 0, Progress(pos, flush), true);
      if story.end.Some? && Followed(tli, story.end.value) {
        var hop := HopOf(w, tli, story.end.value);
        ChainSentAfter(w, script, due, hop.toTli, hop.start, story.end.value.flush, tli);
      }
    }
  }
}
