/** What the page sees of a run of the watcher, read off the events: which statuses are delivered, what ends the
    watch, which attempts count as failed, how long it waits, and which text a chunk's frames come from. */
module WatcherRuns {
  import opened SseFrames
  import opened StatusWatcher
  import opened Wrappers

  // ---------------------------------------------------------------- what a chunk's frames say

  predicate IsUpdate(f: Frame) {
    (f.event == "snapshot" || f.event == "status") && f.data != ""
  }

  /** The frame's data cannot be used: it does not parse, or it is null. */
  predicate IsBroken(f: Frame, parse: string -> Parsed) {
    IsUpdate(f) && !parse(f.data).Status?
  }

  predicate IsLast(f: Frame, parse: string -> Parsed) {
    IsUpdate(f) && parse(f.data).Status? && parse(f.data).terminal
  }

  predicate Stops(f: Frame, parse: string -> Parsed) {
    f.event == "expired" || IsBroken(f, parse) || IsLast(f, parse)
  }

  /** The number of frames looked at: up to the first that stops the loop, that one included. */
  function Handled(frames: seq<Frame>, parse: string -> Parsed): (n: nat)
    ensures n <= |frames|
    ensures forall i :: 0 <= i < n - 1 ==> !Stops(frames[i], parse)
    ensures n < |frames| ==> n > 0 && Stops(frames[n - 1], parse)
  {
    if frames == [] then 0 else if Stops(frames[0], parse) then 1 else 1 + Handled(frames[1..], parse)
  }

  /** The frame that stops the loop. */
  function StopFrame(frames: seq<Frame>, parse: string -> Parsed): (f: Option<Frame>)
    ensures f.Some? ==> Handled(frames, parse) > 0 && f.value == frames[Handled(frames, parse) - 1] && Stops(f.value, parse)
    ensures f.None? ==> forall i :: 0 <= i < |frames| ==> !Stops(frames[i], parse)
  {
    if frames == [] then None else if Stops(frames[0], parse) then Some(frames[0]) else StopFrame(frames[1..], parse)
  }

  /** The statuses of these frames, in order; null counts as one. */
  function Updates(frames: seq<Frame>, parse: string -> Parsed): seq<Observation> {
    if frames == [] then []
    else
      (if IsUpdate(frames[0]) && parse(frames[0].data) != Malformed then [OnStatus(parse(frames[0].data), frames[0].event)] else [])
      + Updates(frames[1..], parse)
  }

  /** The last reconnection time that these frames name. */
  function RetryOf(retry: real, frames: seq<Frame>): real
    decreases |frames|
  {
    if frames == [] then retry
    else RetryOf(if frames[0].retry.Some? then frames[0].retry.value else retry, frames[1..])
  }

  /** The page calls the closer from one of its first n callbacks. */
  predicate ClosedBy(closes: seq<bool>, n: nat) {
    exists i :: 0 <= i < n && i < |closes| && closes[i]
  }

  // ---------------------------------------------------------------- projections of the trace

  function StatusesOf(trace: seq<Observation>): seq<Observation> {
    if trace == [] then []
    else StatusesOf(trace[..|trace| - 1]) + if trace[|trace| - 1].OnStatus? then [trace[|trace| - 1]] else []
  }

  function Count(trace: seq<Observation>, o: Observation): nat {
    if trace == [] then 0 else Count(trace[..|trace| - 1], o) + if trace[|trace| - 1] == o then 1 else 0
  }

  lemma OneMoreObservation(trace: seq<Observation>, o: Observation)
    ensures StatusesOf(trace + [o]) == StatusesOf(trace) + if o.OnStatus? then [o] else []
    ensures forall p :: Count(trace + [o], p) == Count(trace, p) + if o == p then 1 else 0
  {
    assert (trace + [o])[..|trace|] == trace;
  }

  // ---------------------------------------------------------------- one chunk

  /** The frames that are looked at. */
  function Looked(frames: seq<Frame>, parse: string -> Parsed): seq<Frame> {
    frames[..Handled(frames, parse)]
  }

  function UpdatesOf(frames: seq<Frame>, parse: string -> Parsed): seq<Observation> {
    Updates(Looked(frames, parse), parse)
  }

  lemma LookedFirst(frames: seq<Frame>, parse: string -> Parsed)
    requires frames != []
    ensures Stops(frames[0], parse) ==> Looked(frames, parse) == [frames[0]] && UpdatesOf(frames, parse) == Updates([frames[0]], parse)
    ensures !Stops(frames[0], parse) ==>
              && Looked(frames, parse) == [frames[0]] + Looked(frames[1..], parse)
              && UpdatesOf(frames, parse) == Updates([frames[0]], parse) + UpdatesOf(frames[1..], parse)
  {
    hide Stops;
    if !Stops(frames[0], parse) {
      assert Looked(frames, parse)[1..] == Looked(frames[1..], parse);
      assert [frames[0]][1..] == [];
    }
  }

  /** What can stand in the trace once, by the way a chunk's frames end. */
  function Added(frames: seq<Frame>, closes: seq<bool>, parse: string -> Parsed): (o: Option<Observation>) {
    if ClosedBy(closes, |UpdatesOf(frames, parse)|) then Some(OnEnd(Closed))
    else
      match StopFrame(frames, parse)
      case None => None
      case Some(f) =>
        Some(if f.event == "expired" then OnEnd(TokenExpired) else if IsBroken(f, parse) then AttemptFailed else OnEnd(Terminal))
  }

  /** Failed attempts since the last delivery, the one that a chunk may add counted. */
  function FailuresAfter(w: Watch, frames: seq<Frame>, parse: string -> Parsed): nat {
    (if UpdatesOf(frames, parse) == [] then FailuresSince(w.trace) else 0) + 1
  }

  /** What a chunk with these frames makes of w. */
  ghost predicate ChunkTurns(w: Watch, frames: seq<Frame>, closes: seq<bool>, parse: string -> Parsed, t: Watch) {
    && StatusesOf(t.trace) == StatusesOf(w.trace) + UpdatesOf(frames, parse)
    && t.retry == RetryOf(w.retry, Looked(frames, parse))
    && (forall o: Observation :: !o.OnStatus? && o != OnEnd(Error) ==>
          Count(t.trace, o) == Count(w.trace, o) + if !w.ended && Added(frames, closes, parse) == Some(o) then 1 else 0)
    && var failed := !w.ended && Added(frames, closes, parse) == Some(AttemptFailed);
    && Count(t.trace, OnEnd(Error)) ==
         Count(w.trace, OnEnd(Error)) + (if failed && FailuresAfter(w, frames, parse) > 5 then 1 else 0)
    && (StopFrame(frames, parse) == None ==> t.phase == w.phase)
    && (StopFrame(frames, parse).Some? ==>
          if failed && FailuresAfter(w, frames, parse) <= 5 then t.phase.Waiting? else t.phase == Stopped)
  }

  lemma ClosedByFirst(closes: seq<bool>, n: nat)
    ensures ClosedBy(closes, n + 1) <==> (closes != [] && closes[0]) || ClosedBy(Later(closes), n)
  {
    if ClosedBy(Later(closes), n) {
      var i :| 0 <= i < n && i < |Later(closes)| && Later(closes)[i];
      assert closes[i + 1];
    }
    if ClosedBy(closes, n + 1) {
      var i :| 0 <= i < n + 1 && i < |closes| && closes[i];
      if i > 0 {
        assert Later(closes)[i - 1];
      }
    }
  }

  lemma EndTurns(w: Watch, reason: Reason)
    ensures StatusesOf(End(w, reason).trace) == StatusesOf(w.trace) && End(w, reason).retry == w.retry && End(w, reason).phase == w.phase
    ensures forall o :: Count(End(w, reason).trace, o) == Count(w.trace, o) + if !w.ended && o == OnEnd(reason) then 1 else 0
  {
    OneMoreObservation(w.trace, OnEnd(reason));
  }

  lemma CaughtTurns(w: Watch)
    requires w.failures == FailuresSince(w.trace)
    ensures StatusesOf(Caught(w).trace) == StatusesOf(w.trace) && Caught(w).retry == w.retry
    ensures forall o :: o != OnEnd(Error) ==>
              Count(Caught(w).trace, o) == Count(w.trace, o) + if !w.ended && o == AttemptFailed then 1 else 0
    ensures Count(Caught(w).trace, OnEnd(Error)) ==
              Count(w.trace, OnEnd(Error)) + if !w.ended && FailuresSince(w.trace) + 1 > 5 then 1 else 0
    ensures if !w.ended && FailuresSince(w.trace) + 1 <= 5 then Caught(w).phase.Waiting? else Caught(w).phase == Stopped
  {
    hide StatusesOf, Count, FailuresSince;
    OneMoreObservation(w.trace, AttemptFailed);
    OneMoreObservation(w.trace + [AttemptFailed], OnEnd(Error));
    TraceOneMore(w.trace, AttemptFailed);
    TraceOneMore(w.trace + [AttemptFailed], OnEnd(Error));
  }

  lemma DeliveredTurns(w: Watch, s: Parsed, kind: string, closes: seq<bool>)
    ensures var d := Delivered(w, s, kind, closes);
            && StatusesOf(d.trace) == StatusesOf(w.trace) + [OnStatus(s, kind)]
            && d.retry == w.retry && d.phase == w.phase
            && (d.ended <==> w.ended || ClosedBy(closes, 1))
            && (forall o: Observation :: !o.OnStatus? ==>
                  Count(d.trace, o) == Count(w.trace, o) + if !w.ended && ClosedBy(closes, 1) && o == OnEnd(Closed) then 1 else 0)
            && d.failures == FailuresSince(d.trace) == 0
  {
    hide StatusesOf, Count, FailuresSince;
    OneMoreObservation(w.trace, OnStatus(s, kind));
    var v := w.(failures := 0, trace := w.trace + [OnStatus(s, kind)]);
    TraceOneMore(w.trace, OnStatus(s, kind));
    TraceOneMore(v.trace, OnEnd(Closed));
    EndTurns(v, Closed);
    ClosedByFirst(closes, 0);
    assert !ClosedBy(Later(closes), 0);
  }

  /** The first frame stops the loop without being delivered. */
  lemma StopsUndelivered(w: Watch, frames: seq<Frame>, closes: seq<bool>, parse: string -> Parsed)
    requires w.failures == FailuresSince(w.trace) && frames != [] && Stops(frames[0], parse)
    requires frames[0].event == "expired" || parse(frames[0].data) == Malformed
    ensures ChunkTurns(w, frames, closes, parse, Consumed(w, frames, closes, parse))
  {
    hide Caught, End, StatusesOf, Count, FailuresSince, ClosedBy;
    var f := frames[0];
    var v := Retried(w, f);
    NoCallbacks(closes);
    LookedFirst(frames, parse);
    assert StatusesOf(w.trace) + [] == StatusesOf(w.trace) && [f][1..] == [];
    assert RetryOf(w.retry, [f]) == v.retry;
    if f.event == "expired" {
      assert f.event[0] == 'e';
      EndTurns(v, TokenExpired);
    } else {
      CaughtTurns(v);
    }
  }

  /** The first frame is delivered and stops the loop. */
  lemma StopsDelivered(w: Watch, frames: seq<Frame>, closes: seq<bool>, parse: string -> Parsed)
    requires frames != [] && Stops(frames[0], parse) && frames[0].event != "expired" && parse(frames[0].data) != Malformed
    ensures ChunkTurns(w, frames, closes, parse, Consumed(w, frames, closes, parse))
  {
    hide Caught, End, Delivered, StatusesOf, Count, FailuresSince, ClosedBy;
    var f := frames[0];
    var v := Retried(w, f);
    var s := parse(f.data);
    LookedFirst(frames, parse);
    assert [f][1..] == [];
    assert RetryOf(w.retry, [f]) == v.retry;
    var d := Delivered(v, s, f.event, closes);
    DeliveredTurns(v, s, f.event, closes);
    CaughtTurns(d);
    EndTurns(d, Terminal);
  }

  /** What is added when the first frame is delivered and the loop goes on. */
  lemma AddedLater(frames: seq<Frame>, closes: seq<bool>, parse: string -> Parsed)
    requires frames != [] && IsUpdate(frames[0]) && !Stops(frames[0], parse)
    ensures UpdatesOf(frames, parse) == [OnStatus(parse(frames[0].data), frames[0].event)] + UpdatesOf(frames[1..], parse)
    ensures StopFrame(frames, parse) == StopFrame(frames[1..], parse)
    ensures Added(frames, closes, parse) ==
              if ClosedBy(closes, 1) then Some(OnEnd(Closed)) else Added(frames[1..], Later(closes), parse)
  {
    hide ClosedBy, StopFrame, UpdatesOf, Stops, IsUpdate, Later;
    UpdatesLater(frames, parse);
    ClosedByFirst(closes, |UpdatesOf(frames[1..], parse)|);
    ClosedByFirst(closes, 0);
    NoCallbacks(Later(closes));
    StopsLater(frames, parse);
  }

  lemma UpdatesLater(frames: seq<Frame>, parse: string -> Parsed)
    requires frames != [] && IsUpdate(frames[0]) && !Stops(frames[0], parse)
    ensures UpdatesOf(frames, parse) == [OnStatus(parse(frames[0].data), frames[0].event)] + UpdatesOf(frames[1..], parse)
  {
    hide UpdatesOf;
    LookedFirst(frames, parse);
    assert [frames[0]][1..] == [];
  }

  lemma StopsLater(frames: seq<Frame>, parse: string -> Parsed)
    requires frames != [] && !Stops(frames[0], parse)
    ensures StopFrame(frames, parse) == StopFrame(frames[1..], parse)
  {
  }

  lemma RetryLater(w: Watch, frames: seq<Frame>, parse: string -> Parsed)
    requires frames != [] && !Stops(frames[0], parse)
    ensures RetryOf(w.retry, Looked(frames, parse)) == RetryOf(Retried(w, frames[0]).retry, Looked(frames[1..], parse))
  {
    LookedFirst(frames, parse);
    assert Looked(frames, parse)[1..] == Looked(frames[1..], parse);
  }

  /** The first frame is delivered and the loop goes on. */
  lemma UpdateTurns(w: Watch, frames: seq<Frame>, closes: seq<bool>, parse: string -> Parsed, d: Watch, t: Watch)
    requires frames != [] && IsUpdate(frames[0]) && !Stops(frames[0], parse)
    requires d == Delivered(Retried(w, frames[0]), parse(frames[0].data), frames[0].event, closes)
    requires ChunkTurns(d, frames[1..], Later(closes), parse, t)
    ensures ChunkTurns(w, frames, closes, parse, t)
  {
    hide Delivered, StatusesOf, Count, FailuresSince, ClosedBy, Added, StopFrame, UpdatesOf, Looked, RetryOf, Stops, IsUpdate, Later;
    var f := frames[0];
    AddedLater(frames, closes, parse);
    RetryLater(w, frames, parse);
    DeliveredTurns(Retried(w, f), parse(f.data), f.event, closes);
  }

  /** The first frame says nothing but perhaps a reconnection time. */
  lemma OtherTurns(w: Watch, frames: seq<Frame>, closes: seq<bool>, parse: string -> Parsed, t: Watch)
    requires frames != [] && !IsUpdate(frames[0]) && frames[0].event != "expired"
    requires ChunkTurns(Retried(w, frames[0]), frames[1..], closes, parse, t)
    ensures ChunkTurns(w, frames, closes, parse, t)
  {
    hide StatusesOf, Count, FailuresSince, ClosedBy;
    var f := frames[0];
    LookedFirst(frames, parse);
    RetryLater(w, frames, parse);
    assert [f][1..] == [];
    assert UpdatesOf(frames, parse) == UpdatesOf(frames[1..], parse);
  }

  /** The loop over a chunk's frames. */
  lemma {:induction false} ConsumedTurns(w: Watch, frames: seq<Frame>, closes: seq<bool>, parse: string -> Parsed)
    requires w.failures == FailuresSince(w.trace)
    ensures ChunkTurns(w, frames, closes, parse, Consumed(w, frames, closes, parse))
    decreases |frames|
  {
    hide Caught, Delivered, EndAndReturn, ChunkTurns;
    if frames == [] {
      NothingTurns(w, closes, parse);
    } else if Stops(frames[0], parse) {
      if frames[0].event == "expired" || parse(frames[0].data) == Malformed {
        StopsUndelivered(w, frames, closes, parse);
      } else {
        StopsDelivered(w, frames, closes, parse);
      }
    } else if IsUpdate(frames[0]) {
      var v := Retried(w, frames[0]);
      var d := Delivered(v, parse(frames[0].data), frames[0].event, closes);
      DeliveredTurns(v, parse(frames[0].data), frames[0].event, closes);
      ConsumedTurns(d, frames[1..], Later(closes), parse);
      UpdateTurns(w, frames, closes, parse, d, Consumed(w, frames, closes, parse));
    } else {
      ConsumedTurns(Retried(w, frames[0]), frames[1..], closes, parse);
      OtherTurns(w, frames, closes, parse, Consumed(w, frames, closes, parse));
    }
  }

  lemma NothingTurns(w: Watch, closes: seq<bool>, parse: string -> Parsed)
    ensures ChunkTurns(w, [], closes, parse, w)
  {
    assert StatusesOf(w.trace) + [] == StatusesOf(w.trace);
  }

  lemma NoCallbacks(closes: seq<bool>)
    ensures !ClosedBy(closes, 0)
  {
  }

  // ---------------------------------------------------------------- one event

  /** The frames that a chunk completes. */
  function FramesIn(w: Watch, text: string, number: string -> Option<real>): seq<Frame> {
    FramesOf(Raws(w.buffer + text), number)
  }

  /** The statuses that an event delivers. */
  function Delivery(w: Watch, e: Event, parse: string -> Parsed, number: string -> Option<real>): seq<Observation> {
    if e.Chunk? && w.phase == Reading then UpdatesOf(FramesIn(w, e.text, number), parse) else []
  }

  /** A refusal that is not worth another attempt. */
  predicate ForGood(status: nat) {
    status < 500 && status != 429
  }

  /** What else an event adds to the trace of a watch, apart from the ending of a sixth failed attempt. */
  function Adds(w: Watch, e: Event, parse: string -> Parsed, number: string -> Option<real>): Option<Observation> {
    if e.StreamDone? && w.phase == Reading then Some(CleanEnd)
    else if w.ended then None
    else
      match e
      case Close => Some(OnEnd(Closed))
      case ErrorBody(code) =>
        if !w.phase.Refused? then None
        else if code == "REALTIME_TOKEN_EXPIRED" then Some(OnEnd(TokenExpired))
        else Some(if ForGood(w.phase.status) then OnEnd(Error) else AttemptFailed)
      case Exception => if w.phase == Fetching || w.phase == Reading then Some(AttemptFailed) else None
      case Chunk(text, closes) => if w.phase == Reading then Added(FramesIn(w, text, number), closes, parse) else None
      case _ => None
  }

  /** The failed attempts since the last delivery, when this event adds one. */
  function Attempt(w: Watch, e: Event, parse: string -> Parsed, number: string -> Option<real>): nat {
    (if Delivery(w, e, parse, number) == [] then FailuresSince(w.trace) else 0) + 1
  }

  /** The sixth attempt since the last delivery fails. */
  predicate SixthFails(w: Watch, e: Event, parse: string -> Parsed, number: string -> Option<real>) {
    Adds(w, e, parse, number) == Some(AttemptFailed) && Attempt(w, e, parse, number) > 5
  }

  /** A failed attempt that leaves others, or a stream that ended cleanly. */
  predicate WaitStarts(w: Watch, e: Event, parse: string -> Parsed, number: string -> Option<real>) {
    || (!w.ended && Adds(w, e, parse, number) == Some(CleanEnd))
    || (Adds(w, e, parse, number) == Some(AttemptFailed) && Attempt(w, e, parse, number) <= 5)
  }

  predicate RefusedWith(w: Watch, e: Event, status: nat) {
    w.phase == Fetching && e.Response? && !(e.ok && e.hasBody) && e.status == status
  }

  predicate Accepted(w: Watch, e: Event) {
    w.phase == Fetching && e.Response? && e.ok && e.hasBody
  }

  predicate GoesOn(w: Watch, e: Event) {
    e == Timer && w.phase.Waiting? && !w.ended
  }

  predicate RefusalRead(e: Event) {
    e.ErrorBody?
  }

  predicate IsTimer(e: Event) {
    e == Timer
  }

  predicate FetchEnds(e: Event) {
    e.Response? || e == Exception
  }

  predicate ReadEnds(w: Watch, e: Event, parse: string -> Parsed, number: string -> Option<real>) {
    e == Exception || e == StreamDone || (e.Chunk? && StopFrame(FramesIn(w, e.text, number), parse).Some?)
  }

  /** What an event makes of w. */
  ghost predicate EventTurns(w: Watch, e: Event, parse: string -> Parsed, number: string -> Option<real>, t: Watch) {
    && StatusesOf(t.trace) == StatusesOf(w.trace) + Delivery(w, e, parse, number)
    && (forall o: Observation :: !o.OnStatus? && o != OnEnd(Error) ==>
          Count(t.trace, o) == Count(w.trace, o) + if Adds(w, e, parse, number) == Some(o) then 1 else 0)
    && Count(t.trace, OnEnd(Error)) ==
         Count(w.trace, OnEnd(Error)) +
         (if Adds(w, e, parse, number) == Some(OnEnd(Error)) || SixthFails(w, e, parse, number) then 1 else 0)
    && t.retry == (if e.Chunk? && w.phase == Reading then RetryOf(w.retry, Looked(FramesIn(w, e.text, number), parse)) else w.retry)
    && (t.phase == Fetching <==> GoesOn(w, e) || (w.phase == Fetching && !FetchEnds(e)))
    && (forall st :: t.phase == Refused(st) <==> RefusedWith(w, e, st) || (w.phase == Refused(st) && !e.ErrorBody?))
    && (t.phase == Reading <==> Accepted(w, e) || (w.phase == Reading && !ReadEnds(w, e, parse, number)))
    && (t.phase.Waiting? <==> WaitStarts(w, e, parse, number) || (w.phase.Waiting? && e != Timer))
  }

  lemma NoStatuses(trace: seq<Observation>)
    ensures StatusesOf(trace) + [] == StatusesOf(trace)
  {
  }

  lemma ChunkEvent(w: Watch, text: string, closes: seq<bool>, parse: string -> Parsed, number: string -> Option<real>)
    requires w.phase == Reading && w.failures == FailuresSince(w.trace)
    ensures EventTurns(w, Chunk(text, closes), parse, number, Step(w, Chunk(text, closes), parse, number))
  {
    hide Consumed, FramesOf, Raws, Rest, StatusesOf, Count, FailuresSince, UpdatesOf, Looked, RetryOf;
    var v := w.(buffer := Rest(w.buffer + text));
    var frames := FramesIn(w, text, number);
    ConsumedTurns(v, frames, closes, parse);
    assert Step(w, Chunk(text, closes), parse, number) == Consumed(v, frames, closes, parse);
  }

  lemma RefusalEvent(w: Watch, code: string, parse: string -> Parsed, number: string -> Option<real>)
    requires w.failures == FailuresSince(w.trace)
    ensures EventTurns(w, ErrorBody(code), parse, number, Step(w, ErrorBody(code), parse, number))
  {
    hide Caught, End, StatusesOf, Count, FailuresSince, UpdatesOf, StopFrame, FramesIn;
    NoStatuses(w.trace);
    CaughtTurns(w);
    EndTurns(w, TokenExpired);
    EndTurns(w, Error);
  }

  lemma StreamEvent(w: Watch, e: Event, parse: string -> Parsed, number: string -> Option<real>)
    requires w.failures == FailuresSince(w.trace) && (e == Exception || e == StreamDone)
    ensures EventTurns(w, e, parse, number, Step(w, e, parse, number))
  {
    hide Caught, StatusesOf, Count, FailuresSince, UpdatesOf, StopFrame, FramesIn;
    NoStatuses(w.trace);
    CaughtTurns(w);
    OneMoreObservation(w.trace, CleanEnd);
  }

  lemma OtherEvent(w: Watch, e: Event, parse: string -> Parsed, number: string -> Option<real>)
    requires !e.ErrorBody? && e != Exception && e != StreamDone && !(e.Chunk? && w.phase == Reading)
    requires w.phase == Stopped ==> w.ended
    ensures EventTurns(w, e, parse, number, Step(w, e, parse, number))
  {
    hide Caught, End, StatusesOf, Count, FailuresSince, UpdatesOf, StopFrame, FramesIn;
    NoStatuses(w.trace);
    EndTurns(w, Closed);
  }

  lemma StepTurns(w: Watch, e: Event, parse: string -> Parsed, number: string -> Option<real>)
    requires Invariant(w)
    ensures EventTurns(w, e, parse, number, Step(w, e, parse, number))
  {
    hide EventTurns, Step;
    if e.Chunk? && w.phase == Reading {
      ChunkEvent(w, e.text, e.closes, parse, number);
    } else if e.ErrorBody? {
      RefusalEvent(w, e.code, parse, number);
    } else if e == Exception || e == StreamDone {
      StreamEvent(w, e, parse, number);
    } else {
      OtherEvent(w, e, parse, number);
    }
  }

  // ---------------------------------------------------------------- whole runs

  /** The state in front of event j. */
  function Before(token: string, events: seq<Event>, j: nat, parse: string -> Parsed, number: string -> Option<real>): Watch
    requires j <= |events|
  {
    Run(token, events[..j], parse, number)
  }

  /** Every step of a run turns the watch as its event says. */
  lemma RunTurns(token: string, events: seq<Event>, parse: string -> Parsed, number: string -> Option<real>)
    requires events != []
    ensures var n := |events| - 1;
            EventTurns(Before(token, events, n, parse, number), events[n], parse, number, Run(token, events, parse, number))
    ensures Invariant(Before(token, events, |events| - 1, parse, number))
  {
    hide EventTurns, Step, Invariant;
    var n := |events| - 1;
    RunsKeep(token, events[..n], parse, number);
    StepTurns(Before(token, events, n, parse, number), events[n], parse, number);
  }

  lemma SameBefore(token: string, events: seq<Event>, j: nat, parse: string -> Parsed, number: string -> Option<real>)
    requires j < |events|
    ensures Before(token, events[..|events| - 1], j, parse, number) == Before(token, events, j, parse, number)
  {
    assert events[..|events| - 1][..j] == events[..j];
  }

  /** All the statuses that the events of a run deliver. */
  function Deliveries(token: string, events: seq<Event>,
                      parse: string -> Parsed, number: string -> Option<real>): seq<Observation> {
    if events == [] then []
    else
      var n := |events| - 1;
      Deliveries(token, events[..n], parse, number) + Delivery(Before(token, events, n, parse, number), events[n], parse, number)
  }

  /** The page is given the statuses of the frames that arrive, all of them, in order, and nothing else. */
  lemma {:induction false} DeliveredInOrder(token: string, events: seq<Event>,
                                            parse: string -> Parsed, number: string -> Option<real>)
    ensures StatusesOf(Run(token, events, parse, number).trace) == Deliveries(token, events, parse, number)
    decreases |events|
  {
    hide Invariant, Adds, Delivery;
    if events != [] {
      DeliveredInOrder(token, events[..|events| - 1], parse, number);
      RunTurns(token, events, parse, number);
    } else {
      NothingDelivered(token);
    }
  }

  lemma NothingDelivered(token: string)
    ensures StatusesOf(Started(token).trace) == []
  {
    assert [OnEnd(Error)][..0] == [];
  }

  /** How many events of a run add the observation. */
  function Times(token: string, events: seq<Event>, o: Observation,
                 parse: string -> Parsed, number: string -> Option<real>): nat {
    if events == [] then 0
    else
      var n := |events| - 1;
      Times(token, events[..n], o, parse, number) +
      if Adds(Before(token, events, n, parse, number), events[n], parse, number) == Some(o) then 1 else 0
  }

  /** Failed attempts, clean ends and every ending but `error` stand in the trace as often as events add them. */
  lemma {:induction false} AddedExactly(token: string, events: seq<Event>, o: Observation,
                                        parse: string -> Parsed, number: string -> Option<real>)
    requires !o.OnStatus? && o != OnEnd(Error)
    ensures Count(Run(token, events, parse, number).trace, o) == Times(token, events, o, parse, number)
    decreases |events|
  {
    hide Invariant, Adds, Delivery;
    if events != [] {
      AddedExactly(token, events[..|events| - 1], o, parse, number);
      RunTurns(token, events, parse, number);
    } else {
      NothingAdded(token, o);
    }
  }

  lemma NothingAdded(token: string, o: Observation)
    ensures Count(Started(token).trace, o) == if !StartsWith(token, "bzst_") && o == OnEnd(Error) then 1 else 0
  {
    assert [OnEnd(Error)][..0] == [];
  }

  /** The answer to fetch i was a refusal, and event j reads its body. */
  predicate ReadsRefusal(token: string, events: seq<Event>, i: nat, j: nat,
                         parse: string -> Parsed, number: string -> Option<real>)
    requires i < j < |events|
  {
    && Before(token, events, i, parse, number).phase == Fetching
    && events[i].Response? && !(events[i].ok && events[i].hasBody)
    && events[j].ErrorBody? && forall l :: i < l < j ==> !events[l].ErrorBody?
  }

  /** The refusal whose body event j reads ends the watch, which has not ended before. */
  predicate RefusedForGood(token: string, events: seq<Event>, j: nat,
                           parse: string -> Parsed, number: string -> Option<real>)
    requires j < |events|
  {
    && Ends(Before(token, events, j, parse, number).trace) == 0
    && events[j].ErrorBody? && events[j].code != "REALTIME_TOKEN_EXPIRED"
    && exists i :: 0 <= i < j && ReadsRefusal(token, events, i, j, parse, number) && events[i].status < 500 && events[i].status != 429
  }

  /** Event j is the sixth failed attempt since the last delivery. */
  predicate SixthAttempt(token: string, events: seq<Event>, j: nat, parse: string -> Parsed, number: string -> Option<real>)
    requires j < |events|
  {
    SixthFails(Before(token, events, j, parse, number), events[j], parse, number)
  }

  /** Step j is one that `begins` accepts, and no later one is one that `ends` accepts. */
  ghost predicate Since(token: string, events: seq<Event>, begins: (Watch, Event) -> bool, ends: (Watch, Event) -> bool, j: nat,
                        parse: string -> Parsed, number: string -> Option<real>)
    requires j < |events|
  {
    && begins(Before(token, events, j, parse, number), events[j])
    && forall l :: j < l < |events| ==> !ends(Before(token, events, l, parse, number), events[l])
  }

  ghost predicate Never(token: string, events: seq<Event>, ends: (Watch, Event) -> bool,
                        parse: string -> Parsed, number: string -> Option<real>) {
    forall l :: 0 <= l < |events| ==> !ends(Before(token, events, l, parse, number), events[l])
  }

  /** A property that events begin and end holds exactly when it began, or was there at the start, and has not ended since. */
  lemma {:induction false} HoldsSince(token: string, events: seq<Event>, holds: Watch -> bool,
                                      begins: (Watch, Event) -> bool, ends: (Watch, Event) -> bool, parse: string -> Parsed, number: string -> Option<real>)
    requires forall w, e :: Invariant(w) ==> (holds(Step(w, e, parse, number)) <==> begins(w, e) || (holds(w) && !ends(w, e)))
    ensures holds(Run(token, events, parse, number)) <==>
              (holds(Started(token)) && Never(token, events, ends, parse, number)) ||
              exists j :: 0 <= j < |events| && Since(token, events, begins, ends, j, parse, number)
    decreases |events|
  {
    hide Invariant, Step, Since, Never, Before, Started;
    if events == [] {
      NeverAtAll(token, ends, parse, number);
    } else {
      var n := |events| - 1;
      HoldsSince(token, events[..n], holds, begins, ends, parse, number);
      RunsKeep(token, events[..n], parse, number);
      LastStep(token, events, parse, number);
      NeverEarlier(token, events, ends, parse, number);
      forall j | 0 <= j < n
        ensures Since(token, events, begins, ends, j, parse, number) <==>
                Since(token, events[..n], begins, ends, j, parse, number) && !ends(Before(token, events, n, parse, number), events[n])
      {
        SinceEarlier(token, events, begins, ends, j, parse, number);
      }
      SinceLast(token, events, begins, ends, parse, number);
    }
  }

  lemma LastStep(token: string, events: seq<Event>, parse: string -> Parsed, number: string -> Option<real>)
    requires events != []
    ensures var n := |events| - 1;
            && Before(token, events, n, parse, number) == Run(token, events[..n], parse, number)
            && Run(token, events, parse, number) == Step(Before(token, events, n, parse, number), events[n], parse, number)
  {
  }

  lemma NeverAtAll(token: string, ends: (Watch, Event) -> bool, parse: string -> Parsed, number: string -> Option<real>)
    ensures Never(token, [], ends, parse, number)
  {
  }

  lemma NeverEarlier(token: string, events: seq<Event>, ends: (Watch, Event) -> bool,
                     parse: string -> Parsed, number: string -> Option<real>)
    requires events != []
    ensures var n := |events| - 1;
            Never(token, events, ends, parse, number) <==> Never(token, events[..n], ends, parse, number) && !ends(Before(token, events, n, parse, number), events[n])
  {
    hide Before;
    var n := |events| - 1;
    forall l | 0 <= l < n ensures Before(token, events[..n], l, parse, number) == Before(token, events, l, parse, number) && events[..n][l] == events[l] {
      SameBefore(token, events, l, parse, number);
    }
  }

  lemma SinceEarlier(token: string, events: seq<Event>, begins: (Watch, Event) -> bool, ends: (Watch, Event) -> bool, j: nat,
                     parse: string -> Parsed, number: string -> Option<real>)
    requires j < |events| - 1
    ensures var n := |events| - 1;
            Since(token, events, begins, ends, j, parse, number) <==>
            Since(token, events[..n], begins, ends, j, parse, number) && !ends(Before(token, events, n, parse, number), events[n])
  {
    hide Before;
    var n := |events| - 1;
    forall l | 0 <= l < n ensures Before(token, events[..n], l, parse, number) == Before(token, events, l, parse, number) && events[..n][l] == events[l] {
      SameBefore(token, events, l, parse, number);
    }
  }

  lemma SinceLast(token: string, events: seq<Event>, begins: (Watch, Event) -> bool, ends: (Watch, Event) -> bool,
                  parse: string -> Parsed, number: string -> Option<real>)
    requires events != []
    ensures Since(token, events, begins, ends, |events| - 1, parse, number) <==>
            begins(Before(token, events, |events| - 1, parse, number), events[|events| - 1])
  {
  }

  lemma StartedAt(token: string)
    ensures if StartsWith(token, "bzst_") then Started(token).phase == Fetching else Started(token).phase == Stopped
  {
  }

  /** A refusal is being read exactly since the response. */
  lemma RefusedExactly(token: string, events: seq<Event>, status: nat,
                       parse: string -> Parsed, number: string -> Option<real>)
    ensures Run(token, events, parse, number).phase == Refused(status) <==>
              exists j :: 0 <= j < |events| && RefusedWith(Before(token, events, j, parse, number), events[j], status) &&
                (forall l :: j < l < |events| ==> !RefusalRead(events[l]))
  {
    hide Step, Invariant, Run, Adds, Delivery, Before, Started;
    forall w, e | Invariant(w)
      ensures Step(w, e, parse, number).phase == Refused(status) <==> RefusedWith(w, e, status) || (w.phase == Refused(status) && !RefusalRead(e))
    {
      StepTurns(w, e, parse, number);
    }
    StartedAt(token);
    var begins, ends := (w, e) => RefusedWith(w, e, status), (w, e) => RefusalRead(e);
    HoldsSince(token, events, (w: Watch) => w.phase == Refused(status), begins, ends, parse, number);
    forall j | 0 <= j < |events|
      ensures Since(token, events, begins, ends, j, parse, number) <==>
              RefusedWith(Before(token, events, j, parse, number), events[j], status) &&
              (forall l :: j < l < |events| ==> !RefusalRead(events[l]))
    {
    }
  }

  /** A stream is being read exactly since a good response, until it ends, breaks, or a frame stops it. */
  lemma ReadingExactly(token: string, events: seq<Event>, parse: string -> Parsed, number: string -> Option<real>)
    ensures Run(token, events, parse, number).phase == Reading <==>
              exists j :: 0 <= j < |events| && Accepted(Before(token, events, j, parse, number), events[j]) &&
                (forall l :: j < l < |events| ==> !ReadEnds(Before(token, events, l, parse, number), events[l], parse, number))
  {
    hide Step, Invariant, Run, Adds, Delivery, Before, Started;
    forall w, e | Invariant(w)
      ensures Step(w, e, parse, number).phase == Reading <==> Accepted(w, e) || (w.phase == Reading && !ReadEnds(w, e, parse, number))
    {
      StepTurns(w, e, parse, number);
    }
    StartedAt(token);
    var begins, ends := (w, e) => Accepted(w, e), (w, e) => ReadEnds(w, e, parse, number);
    HoldsSince(token, events, (w: Watch) => w.phase == Reading, begins, ends, parse, number);
    forall j | 0 <= j < |events|
      ensures Since(token, events, begins, ends, j, parse, number) <==>
              Accepted(Before(token, events, j, parse, number), events[j]) &&
              (forall l :: j < l < |events| ==> !ReadEnds(Before(token, events, l, parse, number), events[l], parse, number))
    {
    }
  }

  /** The watcher waits exactly since a clean end or a failed attempt that leaves others, until the time is over. */
  lemma WaitingExactly(token: string, events: seq<Event>, parse: string -> Parsed, number: string -> Option<real>)
    ensures Run(token, events, parse, number).phase.Waiting? <==>
              exists j :: 0 <= j < |events| && WaitStarts(Before(token, events, j, parse, number), events[j], parse, number) &&
                (forall l :: j < l < |events| ==> !IsTimer(events[l]))
  {
    hide Step, Invariant, Run, Adds, Delivery, Before, Started;
    forall w, e | Invariant(w)
      ensures Step(w, e, parse, number).phase.Waiting? <==> WaitStarts(w, e, parse, number) || (w.phase.Waiting? && !IsTimer(e))
    {
      StepTurns(w, e, parse, number);
    }
    StartedAt(token);
    var begins, ends := (w, e) => WaitStarts(w, e, parse, number), (w, e) => IsTimer(e);
    HoldsSince(token, events, (w: Watch) => w.phase.Waiting?, begins, ends, parse, number);
    forall j | 0 <= j < |events|
      ensures Since(token, events, begins, ends, j, parse, number) <==>
              WaitStarts(Before(token, events, j, parse, number), events[j], parse, number) &&
              (forall l :: j < l < |events| ==> !IsTimer(events[l]))
    {
    }
  }

  /** An answer is waited for exactly since the start or the end of a wait. */
  lemma FetchingExactly(token: string, events: seq<Event>, parse: string -> Parsed, number: string -> Option<real>)
    ensures Run(token, events, parse, number).phase == Fetching <==>
              (StartsWith(token, "bzst_") && forall l :: 0 <= l < |events| ==> !FetchEnds(events[l])) ||
              exists j :: 0 <= j < |events| && GoesOn(Before(token, events, j, parse, number), events[j]) &&
                (forall l :: j < l < |events| ==> !FetchEnds(events[l]))
  {
    hide Step, Invariant, Run, Adds, Delivery, Before, Started;
    forall w, e | Invariant(w)
      ensures Step(w, e, parse, number).phase == Fetching <==> GoesOn(w, e) || (w.phase == Fetching && !FetchEnds(e))
    {
      StepTurns(w, e, parse, number);
    }
    StartedAt(token);
    var begins, ends := (w, e) => GoesOn(w, e), (w, e) => FetchEnds(e);
    HoldsSince(token, events, (w: Watch) => w.phase == Fetching, begins, ends, parse, number);
    forall j | 0 <= j < |events|
      ensures Since(token, events, begins, ends, j, parse, number) <==>
              GoesOn(Before(token, events, j, parse, number), events[j]) &&
              (forall l :: j < l < |events| ==> !FetchEnds(events[l]))
    {
    }
  }

  // ---------------------------------------------------------------- errors, waits and texts

  lemma {:induction false} CountIn(trace: seq<Observation>, o: Observation)
    ensures Count(trace, o) > 0 <==> o in trace
    decreases |trace|
  {
    if trace != [] {
      CountIn(trace[..|trace| - 1], o);
      assert trace == trace[..|trace| - 1] + [trace[|trace| - 1]];
    }
  }

  predicate Errs(w: Watch, e: Event, parse: string -> Parsed, number: string -> Option<real>) {
    Adds(w, e, parse, number) == Some(OnEnd(Error)) || SixthFails(w, e, parse, number)
  }

  lemma ErrsByRefusal(token: string, events: seq<Event>, j: nat, parse: string -> Parsed, number: string -> Option<real>)
    requires j < |events|
    ensures Adds(Before(token, events, j, parse, number), events[j], parse, number) == Some(OnEnd(Error)) <==> RefusedForGood(token, events, j, parse, number)
  {
    hide Run, Invariant, Added;
    var w := Before(token, events, j, parse, number);
    var before := events[..j];
    RunsKeep(token, before, parse, number);
    EndedByTrace(w);
    NoChunkError(w, events[j], parse, number);
    forall i: nat | i < j ensures before[..i] == events[..i] && before[i] == events[i] {
    }
    if RefusedForGood(token, events, j, parse, number) {
      var i :| 0 <= i < j && ReadsRefusal(token, events, i, j, parse, number) && events[i].status < 500 && events[i].status != 429;
      assert RefusedWith(Before(token, before, i, parse, number), before[i], events[i].status);
      RefusedExactly(token, before, events[i].status, parse, number);
    }
    if Adds(w, events[j], parse, number) == Some(OnEnd(Error)) {
      RefusedExactly(token, before, w.phase.status, parse, number);
      var i :| 0 <= i < j && RefusedWith(Before(token, before, i, parse, number), before[i], w.phase.status) &&
               (forall l :: i < l < j ==> !RefusalRead(before[l]));
      forall l | i < l < j ensures !events[l].ErrorBody? {
        assert !RefusalRead(before[l]);
      }
      assert ReadsRefusal(token, events, i, j, parse, number);
    }
  }

  lemma EndedByTrace(w: Watch)
    requires Invariant(w)
    ensures w.ended <==> Ends(w.trace) > 0
  {
  }

  lemma NoChunkError(w: Watch, e: Event, parse: string -> Parsed, number: string -> Option<real>)
    ensures e.Chunk? ==> Adds(w, e, parse, number) != Some(OnEnd(Error))
  {
  }

  /** The watch ends with an error exactly when the token is no status token, when a refusal rules another attempt out,
      or when a sixth attempt since the last delivery fails. */
  lemma ErrorExactly(token: string, events: seq<Event>, parse: string -> Parsed, number: string -> Option<real>)
    ensures OnEnd(Error) in Run(token, events, parse, number).trace <==>
              || !("bzst_" <= token)
              || exists j :: 0 <= j < |events| &&
                   (RefusedForGood(token, events, j, parse, number) || SixthAttempt(token, events, j, parse, number))
  {
    hide Step, Invariant, Run, Adds, Delivery, Before, Started, RefusedForGood, Count;
    forall w, e | Invariant(w)
      ensures Count(Step(w, e, parse, number).trace, OnEnd(Error)) > 0 <==> Errs(w, e, parse, number) || Count(w.trace, OnEnd(Error)) > 0
    {
      StepTurns(w, e, parse, number);
    }
    var begins, never := (w: Watch, e: Event) => Errs(w, e, parse, number), (w: Watch, e: Event) => false;
    HoldsSince(token, events, (w: Watch) => Count(w.trace, OnEnd(Error)) > 0, begins, never, parse, number);
    CountIn(Run(token, events, parse, number).trace, OnEnd(Error));
    NothingAdded(token, OnEnd(Error));
    forall j | 0 <= j < |events|
      ensures Since(token, events, begins, never, j, parse, number) <==>
              RefusedForGood(token, events, j, parse, number) || SixthAttempt(token, events, j, parse, number)
    {
      ErrsByRefusal(token, events, j, parse, number);
    }
  }

  /** An ordinary outage, or too many requests: one failed attempt more, and an end only if it is the sixth. */
  lemma OutageRetried(token: string, events: seq<Event>, status: nat, code: string,
                      parse: string -> Parsed, number: string -> Option<real>)
    requires Run(token, events, parse, number).phase == Refused(status) && Ends(Run(token, events, parse, number).trace) == 0
    requires (status == 429 || status >= 500) && code != "REALTIME_TOKEN_EXPIRED"
    ensures var w, t := Run(token, events, parse, number), Run(token, events + [ErrorBody(code)], parse, number);
            && Count(t.trace, AttemptFailed) == Count(w.trace, AttemptFailed) + 1
            && StatusesOf(t.trace) == StatusesOf(w.trace)
            && (OnEnd(Error) in t.trace <==> FailuresSince(w.trace) == 5)
            && (FailuresSince(w.trace) < 5 ==> t.phase.Waiting?)
  {
    hide Run, Invariant, Count, StatusesOf, FailuresSince;
    var more := events + [ErrorBody(code)];
    assert more[..|events|] == events;
    var w, t := Run(token, events, parse, number), Run(token, more, parse, number);
    RunTurns(token, more, parse, number);
    EndedByTrace(w);
    NoStatuses(w.trace);
    AtMostFive(w);
    CountIn(w.trace, OnEnd(Error));
    CountIn(t.trace, OnEnd(Error));
  }

  lemma AtMostFive(w: Watch)
    requires Invariant(w) && !w.ended
    ensures FailuresSince(w.trace) <= 5 && OnEnd(Error) !in w.trace
  {
    if OnEnd(Error) in w.trace {
      var i :| 0 <= i < |w.trace| && w.trace[i] == OnEnd(Error);
      EndCounted(w.trace, i);
    }
  }

  /** What is waited: the reconnection time in force, once for every attempt that failed since the last delivery. */
  ghost predicate WaitsRight(w: Watch) {
    w.phase.Waiting? ==>
      w.phase.delay == w.retry * (if FailuresSince(w.trace) == 0 then 1.0 else FailuresSince(w.trace) as real)
  }

  lemma PauseWaits(w: Watch)
    requires w.failures == FailuresSince(w.trace)
    ensures WaitsRight(Pause(w))
  {
  }

  lemma CaughtWaits(w: Watch)
    requires w.failures == FailuresSince(w.trace)
    ensures WaitsRight(Caught(w))
  {
    TraceOneMore(w.trace, AttemptFailed);
    if !w.ended {
      PauseWaits(w.(failures := w.failures + 1, trace := w.trace + [AttemptFailed]));
    }
  }

  lemma {:induction false} ConsumedWaits(w: Watch, frames: seq<Frame>, closes: seq<bool>, parse: string -> Parsed)
    requires w.failures == FailuresSince(w.trace) && !w.phase.Waiting?
    ensures WaitsRight(Consumed(w, frames, closes, parse))
    decreases |frames|
  {
    hide Caught, Delivered, WaitsRight;
    if frames == [] {
      NotWaiting(w);
    } else {
      var f := frames[0];
      var v := Retried(w, f);
      var s := parse(f.data);
      var d := Delivered(v, s, f.event, closes);
      DeliveredTurns(v, s, f.event, closes);
      NotWaiting(EndAndReturn(v, TokenExpired));
      NotWaiting(EndAndReturn(d, Terminal));
      CaughtWaits(v);
      CaughtWaits(d);
      ConsumedWaits(d, frames[1..], Later(closes), parse);
      ConsumedWaits(v, frames[1..], closes, parse);
    }
  }

  lemma NotWaiting(w: Watch)
    requires !w.phase.Waiting?
    ensures WaitsRight(w)
  {
  }

  lemma ClosedWaits(w: Watch)
    requires WaitsRight(w)
    ensures WaitsRight(End(w, Closed))
  {
    hide FailuresSince;
    TraceOneMore(w.trace, OnEnd(Closed));
  }

  lemma StepWaits(w: Watch, e: Event, parse: string -> Parsed, number: string -> Option<real>)
    requires Invariant(w) && WaitsRight(w)
    ensures WaitsRight(Step(w, e, parse, number))
  {
    hide Consumed, Caught, Pause, FramesOf, Raws, Rest, WaitsRight, FailuresSince, End;
    var t := Step(w, e, parse, number);
    match e
    case Chunk(text, closes) =>
      if w.phase == Reading {
        ConsumedWaits(w.(buffer := Rest(w.buffer + text)), FramesOf(Raws(w.buffer + text), number), closes, parse);
      }
    case StreamDone =>
      TraceOneMore(w.trace, CleanEnd);
      PauseWaits(w.(trace := w.trace + [CleanEnd]));
    case ErrorBody(code) =>
      CaughtWaits(w);
      NotWaiting(EndAndReturn(w, TokenExpired));
      NotWaiting(EndAndReturn(w, Error));
    case Exception => CaughtWaits(w);
    case Close => ClosedWaits(w);
    case Response(_, _, _) =>
      if w.phase == Fetching {
        NotWaiting(t);
      }
    case Timer =>
      if w.phase.Waiting? {
        NotWaiting(t);
      }
  }

  /** In every run, whenever the watcher waits, it waits that long. */
  lemma {:induction false} RunsWait(token: string, events: seq<Event>,
                                    parse: string -> Parsed, number: string -> Option<real>)
    ensures WaitsRight(Run(token, events, parse, number))
    decreases |events|
  {
    hide Step, Invariant, WaitsRight;
    if events == [] {
      NotWaiting(Started(token));
    } else {
      RunsKeep(token, events[..|events| - 1], parse, number);
      RunsWait(token, events[..|events| - 1], parse, number);
      StepWaits(Run(token, events[..|events| - 1], parse, number), events[|events| - 1], parse, number);
    }
  }

  /** The frames that are looked at in a run, of all its streams. */
  function FramesSeen(token: string, events: seq<Event>,
                      parse: string -> Parsed, number: string -> Option<real>): seq<Frame> {
    if events == [] then []
    else
      var n := |events| - 1;
      var w := Before(token, events, n, parse, number);
      FramesSeen(token, events[..n], parse, number) +
      if events[n].Chunk? && w.phase == Reading then Looked(FramesIn(w, events[n].text, number), parse) else []
  }

  lemma {:induction false} RetryAppend(retry: real, a: seq<Frame>, b: seq<Frame>)
    ensures RetryOf(retry, a + b) == RetryOf(RetryOf(retry, a), b)
    decreases |a|
  {
    if a == [] {
      assert a + b == b;
    } else {
      assert (a + b)[1..] == a[1..] + b;
      RetryAppend(if a[0].retry.Some? then a[0].retry.value else retry, a[1..], b);
    }
  }

  /** The reconnection time is the last one that a frame of the run named, and three seconds before. */
  lemma {:induction false} RunsRetry(token: string, events: seq<Event>,
                                     parse: string -> Parsed, number: string -> Option<real>)
    ensures Run(token, events, parse, number).retry == RetryOf(3000.0, FramesSeen(token, events, parse, number))
    decreases |events|
  {
    hide Invariant, Adds, Delivery, Looked, RetryOf, StatusesOf, Count;
    if events != [] {
      var n := |events| - 1;
      RunsRetry(token, events[..n], parse, number);
      RunTurns(token, events, parse, number);
      var w := Before(token, events, n, parse, number);
      var seen := FramesSeen(token, events[..n], parse, number);
      if events[n].Chunk? && w.phase == Reading {
        RetryAppend(3000.0, seen, Looked(FramesIn(w, events[n].text, number), parse));
      }
      assert seen + [] == seen;
    } else {
      FirstRetry(token);
    }
  }

  lemma FirstRetry(token: string)
    ensures Started(token).retry == RetryOf(3000.0, [])
  {
  }

  /** The text of the stream being read, as far as it has arrived. */
  function Received(token: string, events: seq<Event>, parse: string -> Parsed, number: string -> Option<real>): string {
    if events == [] then ""
    else
      var n := |events| - 1;
      var w := Before(token, events, n, parse, number);
      if Accepted(w, events[n]) then ""
      else if events[n].Chunk? && w.phase == Reading then Received(token, events[..n], parse, number) + events[n].text
      else Received(token, events[..n], parse, number)
  }

  lemma StepBuffer(w: Watch, e: Event, parse: string -> Parsed, number: string -> Option<real>)
    ensures Step(w, e, parse, number).buffer ==
              if Accepted(w, e) then ""
              else if e.Chunk? && w.phase == Reading then Rest(w.buffer + e.text) else w.buffer
  {
    hide FramesOf, Raws, Rest, Consumed;
    if e.Chunk? && w.phase == Reading {
      ConsumedBuffer(w.(buffer := Rest(w.buffer + e.text)), FramesOf(Raws(w.buffer + e.text), number), e.closes, parse);
    }
  }

  lemma {:induction false} ConsumedBuffer(w: Watch, frames: seq<Frame>, closes: seq<bool>, parse: string -> Parsed)
    ensures Consumed(w, frames, closes, parse).buffer == w.buffer
    decreases |frames|
  {
    if frames != [] {
      var v := Retried(w, frames[0]);
      ConsumedBuffer(Delivered(v, parse(frames[0].data), frames[0].event, closes), frames[1..], Later(closes), parse);
      ConsumedBuffer(v, frames[1..], closes, parse);
    }
  }

  /** Nothing of a stream is lost or seen twice: what is carried over is what is left of the whole text received, and a
      chunk completes exactly the frames by which the whole text has more than it had before. */
  lemma {:induction false} StreamKept(token: string, events: seq<Event>, text: string,
                                      parse: string -> Parsed, number: string -> Option<real>)
    ensures var w, all := Run(token, events, parse, number), Received(token, events, parse, number);
            && w.buffer == Rest(all)
            && Raws(all + text) == Raws(all) + Raws(w.buffer + text)
    decreases |events|
  {
    hide Step, Raws, Rest;
    var all := Received(token, events, parse, number);
    TwoChunks(all, text);
    if events == [] {
      EmptyBuffer(token);
    } else {
      var n := |events| - 1;
      StreamKept(token, events[..n], "", parse, number);
      StepBuffer(Before(token, events, n, parse, number), events[n], parse, number);
      LastStep(token, events, parse, number);
      RestOfNothing();
      if events[n].Chunk? {
        TwoChunks(Received(token, events[..n], parse, number), events[n].text);
      }
    }
  }

  lemma EmptyBuffer(token: string)
    ensures Started(token).buffer == "" == Rest("")
  {
  }

  lemma RestOfNothing()
    ensures Rest("") == ""
  {
  }
}
