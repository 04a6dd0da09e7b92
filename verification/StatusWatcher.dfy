/** The reconnecting watcher of a payment session's status. Each method is the code between two awaits;
    the network, the clock, JSON.parse and the page's own calls are arbitrary. */
module StatusWatcher {
  import opened SseFrames
  import opened Wrappers

  /** What JSON.parse makes of a frame's data: it throws, or gives null, or a value. */
  datatype Parsed = Malformed | Null | Status(text: string, terminal: bool)

  datatype Reason = Terminal | TokenExpired | Closed | Error

  /** What can be observed: the two callbacks, attempts that failed, streams that ended cleanly. */
  datatype Observation = OnStatus(status: Parsed, kind: string) | OnEnd(reason: Reason) | AttemptFailed | CleanEnd

  /** The await the watcher is at. */
  datatype Phase = Fetching | Refused(status: nat) | Reading | Waiting(delay: real) | Stopped

  datatype Watch = Watch(ended: bool, failures: nat, retry: real, buffer: string, phase: Phase, trace: seq<Observation>)

  /** What the outside does next. A chunk comes with, for each delivered status in turn, whether the page
      calls the closer from its callback. */
  datatype Event =
    | Response(ok: bool, status: nat, hasBody: bool)
    | ErrorBody(code: string)
    | Chunk(text: string, closes: seq<bool>)
    | StreamDone
    | Exception
    | Timer
    | Close

  const MAX_FAILURES: nat := 5

  // ---------------------------------------------------------------- the specification of each step

  function End(w: Watch, reason: Reason): Watch {
    if w.ended then w else w.(ended := true, trace := w.trace + [OnEnd(reason)])
  }

  /** Ending from inside the loop also returns from it. */
  function EndAndReturn(w: Watch, reason: Reason): Watch {
    End(w, reason).(phase := Stopped)
  }

  function Max1(n: nat): nat {
    if n >= 1 then n else 1
  }

  function Delay(retry: real, failures: nat): real {
    retry * (Max1(failures) as real)
  }

  function Pause(w: Watch): Watch {
    if w.ended then w.(phase := Stopped) else w.(phase := Waiting(Delay(w.retry, w.failures)))
  }

  /** The catch block. */
  function Caught(w: Watch): Watch {
    if w.ended then w.(phase := Stopped)
    else
      var v := w.(failures := w.failures + 1, trace := w.trace + [AttemptFailed]);
      if v.failures > MAX_FAILURES then EndAndReturn(v, Error) else Pause(v)
  }

  predicate IsStatusFrame(f: Frame) {
    (f.event == "snapshot" || f.event == "status") && f.data != ""
  }

  function Retried(w: Watch, f: Frame): Watch {
    if f.retry.Some? then w.(retry := f.retry.value) else w
  }

  function Delivered(w: Watch, s: Parsed, kind: string, closes: seq<bool>): Watch {
    var v := w.(failures := 0, trace := w.trace + [OnStatus(s, kind)]);
    if closes != [] && closes[0] then End(v, Closed) else v
  }

  function Later(closes: seq<bool>): seq<bool> {
    if closes == [] then [] else closes[1..]
  }

  /** The loop over the frames of a chunk. */
  function Consumed(w: Watch, frames: seq<Frame>, closes: seq<bool>, parse: string -> Parsed): Watch
    decreases |frames|
  {
    if frames == [] then w
    else
      var f := frames[0];
      var v := Retried(w, f);
      if f.event == "expired" then EndAndReturn(v, TokenExpired)
      else if IsStatusFrame(f) then
        var s := parse(f.data);
        if s == Malformed then Caught(v)
        else
          var d := Delivered(v, s, f.event, closes);
          if s == Null then Caught(d)
          else if s.terminal then EndAndReturn(d, Terminal)
          else Consumed(d, frames[1..], Later(closes), parse)
      else Consumed(v, frames[1..], closes, parse)
  }

  /** One step. An event that the watcher is not waiting for does nothing. */
  function Step(w: Watch, e: Event, parse: string -> Parsed, number: string -> Option<real>): Watch {
    match e
    case Close => End(w, Closed)
    case Response(ok, status, hasBody) =>
      if w.phase != Fetching then w
      else if ok && hasBody then w.(phase := Reading, buffer := "")
      else w.(phase := Refused(status))
    case ErrorBody(code) =>
      if !w.phase.Refused? then w
      else if code == "REALTIME_TOKEN_EXPIRED" then EndAndReturn(w, TokenExpired)
      else if w.phase.status < 500 && w.phase.status != 429 then EndAndReturn(w, Error)
      else Caught(w)
    case Chunk(text, closes) =>
      if w.phase != Reading then w
      else Consumed(w.(buffer := Rest(w.buffer + text)), FramesOf(Raws(w.buffer + text), number), closes, parse)
    case StreamDone => if w.phase != Reading then w else Pause(w.(trace := w.trace + [CleanEnd]))
    case Exception => if w.phase == Fetching || w.phase == Reading then Caught(w) else w
    case Timer =>
      if !w.phase.Waiting? then w
      else w.(phase := if w.ended then Stopped else Fetching)
  }

  /** The state after the call, which refuses anything that is not a status token. */
  function Started(token: string): Watch {
    if StartsWith(token, "bzst_") then Watch(false, 0, 3000.0, "", Fetching, [])
    else Watch(true, 0, 3000.0, "", Stopped, [OnEnd(Error)])
  }

  function Run(token: string, events: seq<Event>, parse: string -> Parsed, number: string -> Option<real>): Watch {
    if events == [] then Started(token)
    else Step(Run(token, events[..|events| - 1], parse, number), events[|events| - 1], parse, number)
  }

  // ---------------------------------------------------------------- the watcher itself

  class Watcher {
    var ended: bool
    var failures: nat
    var retry: real
    var buffer: string
    var phase: Phase
    var trace: seq<Observation>

    function State(): Watch
      reads this
    {
      Watch(ended, failures, retry, buffer, phase, trace)
    }

    constructor (token: string)
      ensures State() == Started(token)
    {
      retry, failures, buffer := 3000.0, 0, "";
      if StartsWith(token, "bzst_") {
        ended, phase, trace := false, Fetching, [];
      } else {
        ended, phase, trace := true, Stopped, [OnEnd(Error)];
      }
    }

    method DoEnd(reason: Reason)
      modifies this
      ensures State() == End(old(State()), reason)
    {
      if !ended {
        ended := true;
        trace := trace + [OnEnd(reason)];
      }
    }

    /** end(...) followed by a return from the loop. */
    method EndRun(reason: Reason)
      modifies this
      ensures State() == EndAndReturn(old(State()), reason)
    {
      DoEnd(reason);
      phase := Stopped;
    }

    /** The status callback, from which the page may call the closer. */
    method Deliver(s: Parsed, kind: string, closes: seq<bool>)
      modifies this
      ensures State() == Delivered(old(State()), s, kind, closes)
    {
      failures := 0;
      trace := trace + [OnStatus(s, kind)];
      if closes != [] && closes[0] {
        DoEnd(Closed);
      }
    }

    method DoPause()
      modifies this
      ensures State() == Pause(old(State()))
    {
      if ended {
        phase := Stopped;
        return;
      }
      phase := Waiting(Delay(retry, failures));
    }

    method DoCatch()
      modifies this
      ensures State() == Caught(old(State()))
    {
      if ended {
        phase := Stopped;
        return;
      }
      failures := failures + 1;
      trace := trace + [AttemptFailed];
      if failures > MAX_FAILURES {
        EndRun(Error);
        return;
      }
      DoPause();
    }

    method OnResponse(ok: bool, status: nat, hasBody: bool)
      requires phase == Fetching
      modifies this
      ensures forall parse, number :: State() == Step(old(State()), Response(ok, status, hasBody), parse, number)
    {
      if !ok || !hasBody {
        phase := Refused(status);
      } else {
        phase, buffer := Reading, "";
      }
    }

    method OnErrorBody(code: string)
      requires phase.Refused?
      modifies this
      ensures forall parse, number :: State() == Step(old(State()), ErrorBody(code), parse, number)
    {
      var status := phase.status;
      if code == "REALTIME_TOKEN_EXPIRED" {
        EndRun(TokenExpired);
      } else if status < 500 && status != 429 {
        EndRun(Error);
      } else {
        DoCatch();
      }
    }

    method OnChunk(text: string, closes: seq<bool>, parse: string -> Parsed, number: string -> Option<real>)
      requires phase == Reading
      modifies this
      ensures State() == Step(old(State()), Chunk(text, closes), parse, number)
    {
      hide Caught, EndAndReturn, Delivered, FramesOf, Raws, Rest;
      var frames, rest := ParseFrames(buffer + text, number);
      buffer := rest;
      ghost var start := State();
      var calls := closes;
      assert frames[0..] == frames;
      for i := 0 to |frames|
        invariant Consumed(State(), frames[i..], calls, parse) == Consumed(start, frames, closes, parse)
      {
        var f := frames[i];
        assert frames[i..][1..] == frames[i + 1..];
        if f.retry.Some? {
          retry := f.retry.value;
        }
        if f.event == "expired" {
          EndRun(TokenExpired);
          return;
        }
        if (f.event == "snapshot" || f.event == "status") && f.data != "" {
          var s := parse(f.data);
          if s == Malformed {
            DoCatch();
            return;
          }
          Deliver(s, f.event, calls);
          calls := Later(calls);
          if s == Null {
            DoCatch();
            return;
          }
          if s.terminal {
            EndRun(Terminal);
            return;
          }
        }
      }
    }

    method OnStreamDone()
      requires phase == Reading
      modifies this
      ensures forall parse, number :: State() == Step(old(State()), StreamDone, parse, number)
    {
      trace := trace + [CleanEnd];
      DoPause();
    }

    method OnException()
      requires phase == Fetching || phase == Reading
      modifies this
      ensures forall parse, number :: State() == Step(old(State()), Exception, parse, number)
    {
      DoCatch();
    }

    method OnTimer()
      requires phase.Waiting?
      modifies this
      ensures forall parse, number :: State() == Step(old(State()), Timer, parse, number)
    {
      phase := if ended then Stopped else Fetching;
    }

    method OnClose()
      modifies this
      ensures forall parse, number :: State() == Step(old(State()), Close, parse, number)
    {
      DoEnd(Closed);
    }
  }

  // ---------------------------------------------------------------- what every run keeps

  function Ends(trace: seq<Observation>): nat {
    if trace == [] then 0 else Ends(trace[..|trace| - 1]) + if trace[|trace| - 1].OnEnd? then 1 else 0
  }

  /** Failed attempts since the last delivered status. */
  function FailuresSince(trace: seq<Observation>): nat {
    if trace == [] then 0
    else match trace[|trace| - 1]
      case OnStatus(_, _) => 0
      case AttemptFailed => FailuresSince(trace[..|trace| - 1]) + 1
      case _ => FailuresSince(trace[..|trace| - 1])
  }

  /** The ending was the page's own: everything else ends the run for good. */
  ghost predicate OnlyClosedGoesOn(trace: seq<Observation>) {
    forall i :: 0 <= i < |trace| && trace[i].OnEnd? && trace[i].reason != Closed ==> i == |trace| - 1
  }

  ghost predicate Invariant(w: Watch) {
    && Ends(w.trace) == (if w.ended then 1 else 0) && (w.phase == Stopped ==> w.ended)
    && w.failures == FailuresSince(w.trace) <= MAX_FAILURES + 1
    && (w.failures == MAX_FAILURES + 1 ==> w.phase == Stopped && w.trace != [] && w.trace[|w.trace| - 1] == OnEnd(Error))
    && OnlyClosedGoesOn(w.trace)
    && (w.trace != [] && w.trace[|w.trace| - 1].OnEnd? && w.trace[|w.trace| - 1].reason != Closed ==> w.phase == Stopped)
  }

  lemma TraceOneMore(trace: seq<Observation>, o: Observation)
    ensures Ends(trace + [o]) == Ends(trace) + if o.OnEnd? then 1 else 0
    ensures FailuresSince(trace + [o]) ==
              if o.OnStatus? then 0 else if o == AttemptFailed then FailuresSince(trace) + 1 else FailuresSince(trace)
    ensures OnlyClosedGoesOn(trace) && (trace != [] ==> !trace[|trace| - 1].OnEnd? || trace[|trace| - 1].reason == Closed) ==>
              OnlyClosedGoesOn(trace + [o])
  {
    assert (trace + [o])[..|trace|] == trace;
  }

  /** The run has not been ended by anything but the page. */
  ghost predicate Going(w: Watch) {
    Invariant(w) && w.phase != Stopped && w.failures <= MAX_FAILURES
  }

  lemma EndKeeps(w: Watch, reason: Reason)
    requires Going(w)
    ensures Invariant(EndAndReturn(w, reason)) && Going(End(w, Closed))
  {
    TraceOneMore(w.trace, OnEnd(reason));
    TraceOneMore(w.trace, OnEnd(Closed));
  }

  lemma CaughtKeeps(w: Watch)
    requires Going(w)
    ensures Invariant(Caught(w))
  {
    if !w.ended {
      TraceOneMore(w.trace, AttemptFailed);
      TraceOneMore(w.trace + [AttemptFailed], OnEnd(Error));
    }
  }

  lemma DeliveredKeeps(w: Watch, s: Parsed, kind: string, closes: seq<bool>)
    requires Going(w)
    ensures Going(Delivered(w, s, kind, closes))
  {
    TraceOneMore(w.trace, OnStatus(s, kind));
    EndKeeps(w.(failures := 0, trace := w.trace + [OnStatus(s, kind)]), Closed);
  }

  lemma {:induction false} ConsumedKeeps(w: Watch, frames: seq<Frame>, closes: seq<bool>, parse: string -> Parsed)
    requires Going(w)
    ensures Invariant(Consumed(w, frames, closes, parse))
    decreases |frames|
  {
    hide Invariant, Caught, EndAndReturn, End, Delivered;
    if frames != [] {
      var f := frames[0];
      var v := Retried(w, f);
      SameTrace(w, v);
      EndKeeps(v, TokenExpired);
      var s := parse(f.data);
      var d := Delivered(v, s, f.event, closes);
      DeliveredKeeps(v, s, f.event, closes);
      CaughtKeeps(v);
      CaughtKeeps(d);
      EndKeeps(d, Terminal);
      ConsumedKeeps(d, frames[1..], Later(closes), parse);
      ConsumedKeeps(v, frames[1..], closes, parse);
    }
  }

  lemma SameTrace(w: Watch, v: Watch)
    requires Going(w) && v.trace == w.trace && v.ended == w.ended && v.failures == w.failures && v.phase != Stopped
    ensures Going(v)
  {
  }

  lemma StepKeeps(w: Watch, e: Event, parse: string -> Parsed, number: string -> Option<real>)
    requires Invariant(w)
    ensures Invariant(Step(w, e, parse, number))
  {
    if w.phase == Stopped {
      TraceOneMore(w.trace, OnEnd(Closed));
    } else {
      GoingSteps(w, e, parse, number);
    }
  }

  /** Moving to the next await changes nothing else that counts. */
  lemma MoveKeeps(w: Watch, phase: Phase, buffer: string)
    requires Going(w) && (phase == Stopped ==> w.ended)
    ensures Invariant(w.(phase := phase, buffer := buffer)) && (phase != Stopped ==> Going(w.(phase := phase, buffer := buffer)))
  {
  }

  lemma CleanEndKeeps(w: Watch)
    requires Going(w)
    ensures Going(w.(trace := w.trace + [CleanEnd])) && Invariant(Pause(w.(trace := w.trace + [CleanEnd])))
  {
    TraceOneMore(w.trace, CleanEnd);
  }

  lemma GoingSteps(w: Watch, e: Event, parse: string -> Parsed, number: string -> Option<real>)
    requires Going(w)
    ensures Invariant(Step(w, e, parse, number))
  {
    hide Invariant, Consumed, Caught, EndAndReturn, End, Pause, FramesOf, Raws, Rest;
    match e
    case Chunk(text, closes) =>
      if w.phase == Reading {
        var rest := Rest(w.buffer + text);
        MoveKeeps(w, Reading, rest);
        ConsumedKeeps(w.(phase := Reading, buffer := rest), FramesOf(Raws(w.buffer + text), number), closes, parse);
      }
    case ErrorBody(code) =>
      EndKeeps(w, TokenExpired);
      EndKeeps(w, Error);
      CaughtKeeps(w);
    case Exception => CaughtKeeps(w);
    case StreamDone => CleanEndKeeps(w);
    case Response(_, status, _) =>
      MoveKeeps(w, Reading, "");
      MoveKeeps(w, Refused(status), w.buffer);
    case Timer => MoveKeeps(w, if w.ended then Stopped else Fetching, w.buffer);
    case Close => EndKeeps(w, Closed);
  }

  /** Every run, whatever the network and the page do. */
  lemma {:induction false} RunsKeep(token: string, events: seq<Event>, parse: string -> Parsed, number: string -> Option<real>)
    ensures Invariant(Run(token, events, parse, number))
    decreases |events|
  {
    hide Invariant, Step;
    if events == [] {
      StartKeeps(token);
    } else {
      RunsKeep(token, events[..|events| - 1], parse, number);
      StepKeeps(Run(token, events[..|events| - 1], parse, number), events[|events| - 1], parse, number);
    }
  }

  lemma StartKeeps(token: string)
    ensures Invariant(Started(token))
  {
    TraceOneMore([], OnEnd(Error));
    assert [] + [OnEnd(Error)] == [OnEnd(Error)];
  }

  // ---------------------------------------------------------------- after the page has closed

  /** Some status frame of the chunk is delivered: it parses, and no expiry stands before it. */
  predicate Delivers(frames: seq<Frame>, parse: string -> Parsed) {
    frames != [] &&
    if frames[0].event == "expired" then false
    else if IsStatusFrame(frames[0]) then parse(frames[0].data) != Malformed
    else Delivers(frames[1..], parse)
  }

  function Statuses(trace: seq<Observation>): nat {
    if trace == [] then 0 else Statuses(trace[..|trace| - 1]) + if trace[|trace| - 1].OnStatus? then 1 else 0
  }

  lemma StatusesOneMore(trace: seq<Observation>, o: Observation)
    ensures Statuses(trace + [o]) == Statuses(trace) + if o.OnStatus? then 1 else 0
  {
    assert (trace + [o])[..|trace|] == trace;
  }

  lemma {:induction false} ConsumedGrows(w: Watch, frames: seq<Frame>, closes: seq<bool>, parse: string -> Parsed)
    requires w.ended
    ensures Statuses(Consumed(w, frames, closes, parse).trace) >= Statuses(w.trace)
    ensures Statuses(Consumed(w, frames, closes, parse).trace) > Statuses(w.trace) <==> Delivers(frames, parse)
    decreases |frames|
  {
    if frames != [] {
      var f := frames[0];
      var v := Retried(w, f);
      var s := parse(f.data);
      if f.event == "expired" {
      } else if IsStatusFrame(f) {
        StatusesOneMore(v.trace, OnStatus(s, f.event));
        ConsumedGrows(Delivered(v, s, f.event, closes), frames[1..], Later(closes), parse);
      } else {
        ConsumedGrows(v, frames[1..], closes, parse);
      }
    }
  }

  /** A step that starts ended calls back only for a chunk that had already arrived and holds a status. */
  lemma AfterTheEnd(w: Watch, e: Event, parse: string -> Parsed, number: string -> Option<real>)
    requires w.ended
    ensures Statuses(Step(w, e, parse, number).trace) > Statuses(w.trace) <==>
              e.Chunk? && w.phase == Reading && Delivers(FramesOf(Raws(w.buffer + e.text), number), parse)
  {
    match e
    case Chunk(text, closes) =>
      if w.phase == Reading {
        ConsumedGrows(w.(buffer := Rest(w.buffer + text)), FramesOf(Raws(w.buffer + text), number), closes, parse);
      }
    case StreamDone => StatusesOneMore(w.trace, CleanEnd);
    case _ =>
  }

  /** The page closes from the callback of a status in the chunk, and a later frame of the same chunk is delivered. */
  predicate DeliversPastClose(frames: seq<Frame>, closes: seq<bool>, parse: string -> Parsed) {
    frames != [] &&
    if frames[0].event == "expired" then false
    else if IsStatusFrame(frames[0]) then
      var s := parse(frames[0].data);
      s.Status? && !s.terminal &&
      if closes != [] && closes[0] then Delivers(frames[1..], parse) else DeliversPastClose(frames[1..], Later(closes), parse)
    else DeliversPastClose(frames[1..], closes, parse)
  }

  /** A step that delivers a status to a page that has closed: a chunk being read that holds a status for a watcher
      already ended, or that is closed from one of its statuses and holds another behind it. */
  predicate DeliversLate(w: Watch, e: Event, parse: string -> Parsed, number: string -> Option<real>) {
    e.Chunk? && w.phase == Reading &&
    var frames := FramesOf(Raws(w.buffer + e.text), number);
    if w.ended then Delivers(frames, parse) else DeliversPastClose(frames, e.closes, parse)
  }

  /** A status stands behind the page's own ending. */
  predicate StatusAfterClosed(trace: seq<Observation>) {
    exists i, j :: 0 <= i < j < |trace| && trace[i] == OnEnd(Closed) && trace[j].OnStatus?
  }

  predicate HasClosed(trace: seq<Observation>) {
    OnEnd(Closed) in trace
  }

  lemma LateOneMore(trace: seq<Observation>, o: Observation)
    ensures HasClosed(trace + [o]) <==> HasClosed(trace) || o == OnEnd(Closed)
    ensures StatusAfterClosed(trace + [o]) <==> StatusAfterClosed(trace) || (HasClosed(trace) && o.OnStatus?)
  {
    var more := trace + [o];
    if StatusAfterClosed(trace) {
      var i, j :| 0 <= i < j < |trace| && trace[i] == OnEnd(Closed) && trace[j].OnStatus?;
      assert more[i] == OnEnd(Closed) && more[j].OnStatus?;
    }
    if HasClosed(trace) && o.OnStatus? {
      var i :| 0 <= i < |trace| && trace[i] == OnEnd(Closed);
      assert more[i] == OnEnd(Closed) && more[|trace|].OnStatus?;
    }
  }

  /** Ending adds no status, and the page's own ending is what HasClosed looks for. */
  lemma EndLate(w: Watch, reason: Reason)
    ensures StatusAfterClosed(End(w, reason).trace) <==> StatusAfterClosed(w.trace)
    ensures HasClosed(End(w, Closed).trace) <==> HasClosed(w.trace) || !w.ended
  {
    LateOneMore(w.trace, OnEnd(reason));
    LateOneMore(w.trace, OnEnd(Closed));
  }

  lemma CaughtLate(w: Watch)
    ensures StatusAfterClosed(Caught(w).trace) <==> StatusAfterClosed(w.trace)
  {
    hide StatusAfterClosed;
    LateOneMore(w.trace, AttemptFailed);
    LateOneMore(w.trace + [AttemptFailed], OnEnd(Error));
  }

  /** A delivery is late exactly when the page had closed before. */
  lemma DeliveredLate(w: Watch, s: Parsed, kind: string, closes: seq<bool>)
    requires w.ended <==> HasClosed(w.trace)
    ensures var d := Delivered(w, s, kind, closes);
            && (d.ended <==> HasClosed(d.trace))
            && (d.ended <==> w.ended || (closes != [] && closes[0]))
            && (StatusAfterClosed(d.trace) <==> StatusAfterClosed(w.trace) || w.ended)
  {
    hide StatusAfterClosed, HasClosed;
    LateOneMore(w.trace, OnStatus(s, kind));
    EndLate(w.(failures := 0, trace := w.trace + [OnStatus(s, kind)]), Closed);
  }

  lemma {:induction false} ConsumedLate(w: Watch, frames: seq<Frame>, closes: seq<bool>, parse: string -> Parsed)
    requires w.ended <==> HasClosed(w.trace)
    ensures StatusAfterClosed(Consumed(w, frames, closes, parse).trace) <==>
              StatusAfterClosed(w.trace) || if w.ended then Delivers(frames, parse) else DeliversPastClose(frames, closes, parse)
    decreases |frames|
  {
    hide StatusAfterClosed, HasClosed, Caught, End, Delivered;
    if frames != [] {
      var f := frames[0];
      var v := Retried(w, f);
      if f.event == "expired" {
        EndLate(v, TokenExpired);
      } else if IsStatusFrame(f) {
        var s := parse(f.data);
        var d := Delivered(v, s, f.event, closes);
        CaughtLate(v);
        DeliveredLate(v, s, f.event, closes);
        CaughtLate(d);
        EndLate(d, Terminal);
        ConsumedLate(d, frames[1..], Later(closes), parse);
      } else {
        ConsumedLate(v, frames[1..], closes, parse);
      }
    }
  }

  lemma {:induction false} SomeEnd(trace: seq<Observation>) returns (i: nat)
    requires Ends(trace) > 0
    ensures i < |trace| && trace[i].OnEnd?
    decreases |trace|
  {
    if trace[|trace| - 1].OnEnd? {
      i := |trace| - 1;
    } else {
      i := SomeEnd(trace[..|trace| - 1]);
    }
  }

  lemma {:induction false} EndCounted(trace: seq<Observation>, i: nat)
    requires i < |trace| && trace[i].OnEnd?
    ensures Ends(trace) > 0
    decreases |trace|
  {
    if i < |trace| - 1 {
      EndCounted(trace[..|trace| - 1], i);
    }
  }

  /** A run that goes on after its ending was closed by the page. */
  lemma GoingClosed(w: Watch)
    requires Going(w)
    ensures w.ended <==> HasClosed(w.trace)
  {
    if w.ended {
      var i := SomeEnd(w.trace);
      assert w.trace[i].reason == Closed;
    }
    if HasClosed(w.trace) {
      var i :| 0 <= i < |w.trace| && w.trace[i] == OnEnd(Closed);
      EndCounted(w.trace, i);
    }
  }

  /** One step puts a status behind the page's ending if and only if it delivers late. */
  lemma StepLate(w: Watch, e: Event, parse: string -> Parsed, number: string -> Option<real>)
    requires Invariant(w)
    ensures StatusAfterClosed(Step(w, e, parse, number).trace) <==> StatusAfterClosed(w.trace) || DeliversLate(w, e, parse, number)
  {
    hide StatusAfterClosed, HasClosed, FramesOf, Raws, Rest, Consumed, Caught, End;
    match e
    case Chunk(text, closes) =>
      if w.phase == Reading {
        ReadingGoes(w);
        GoingClosed(w);
        ConsumedLate(w.(buffer := Rest(w.buffer + text)), FramesOf(Raws(w.buffer + text), number), closes, parse);
      }
    case ErrorBody(_) =>
      EndLate(w, TokenExpired);
      EndLate(w, Error);
      CaughtLate(w);
    case Exception => CaughtLate(w);
    case StreamDone => LateOneMore(w.trace, CleanEnd);
    case Close => EndLate(w, Closed);
    case _ =>
  }

  lemma ReadingGoes(w: Watch)
    requires Invariant(w) && w.phase == Reading
    ensures Going(w)
  {
  }

  /** Step k of the run delivers late. */
  predicate LateAt(token: string, events: seq<Event>, k: nat, parse: string -> Parsed, number: string -> Option<real>)
    requires k < |events|
  {
    DeliversLate(Run(token, events[..k], parse, number), events[k], parse, number)
  }

  lemma LateAtPrefix(token: string, events: seq<Event>, k: nat, parse: string -> Parsed, number: string -> Option<real>)
    requires k < |events| - 1
    ensures LateAt(token, events[..|events| - 1], k, parse, number) == LateAt(token, events, k, parse, number)
  {
    assert events[..|events| - 1][..k] == events[..k];
  }

  /** Over whole runs: the trace has a status behind `closed` if and only if some step delivered late. */
  lemma {:induction false} RunsLate(token: string, events: seq<Event>, parse: string -> Parsed, number: string -> Option<real>)
    ensures StatusAfterClosed(Run(token, events, parse, number).trace) <==>
              exists k :: 0 <= k < |events| && LateAt(token, events, k, parse, number)
    decreases |events|
  {
    hide StatusAfterClosed, LateAt, Invariant;
    if events == [] {
      NothingLate(token);
    } else {
      var n := |events| - 1;
      var before := events[..n];
      RunsLate(token, before, parse, number);
      LastStepLate(token, events, parse, number);
      forall k | 0 <= k < n ensures LateAt(token, before, k, parse, number) == LateAt(token, events, k, parse, number) {
        LateAtPrefix(token, events, k, parse, number);
      }
    }
  }

  lemma LastStepLate(token: string, events: seq<Event>, parse: string -> Parsed, number: string -> Option<real>)
    requires events != []
    ensures StatusAfterClosed(Run(token, events, parse, number).trace) <==>
              StatusAfterClosed(Run(token, events[..|events| - 1], parse, number).trace) ||
              LateAt(token, events, |events| - 1, parse, number)
  {
    hide StatusAfterClosed, DeliversLate, Step, Invariant;
    RunsKeep(token, events[..|events| - 1], parse, number);
    StepLate(Run(token, events[..|events| - 1], parse, number), events[|events| - 1], parse, number);
  }

  lemma NothingLate(token: string)
    ensures !StatusAfterClosed(Started(token).trace)
  {
  }

  /** It does happen: the page closes from the first status of a chunk, and the second is delivered all the same. */
  lemma DeliveredAfterClosed(parse: string -> Parsed, number: string -> Option<real>)
    requires parse("{}") == Status("{}", false)
    ensures var raw := Rendered("status", "{}");
            var events := [Response(true, 200, true), Chunk(raw + BREAK + raw + BREAK, [true])];
            var status := OnStatus(Status("{}", false), "status");
            Run("bzst_", events, parse, number).trace == [status, OnEnd(Closed), status]
  {
    hide Step, Consumed, Rendered, FrameOf, Raws, Rest, IsRaw, NoBreak;
    var raw := Rendered("status", "{}");
    var text := raw + BREAK + raw + BREAK;
    RawStatus();
    WrittenTwice(raw);
    SplitUnique([raw, raw], "");
    assert Written([raw, raw]) + "" == text && "" + text == text;
    var e1, e2 := Response(true, 200, true), Chunk(text, [true]);
    RunTwo("bzst_", e1, e2, parse, number);
    var frames := FramesOf([raw, raw], number);
    assert frames == [Frame("status", "{}", None), Frame("status", "{}", None)];
    var w := Watch(false, 0, 3000.0, "", Reading, []);
    FirstResponse(parse, number);
    ChunkStep(w, text, [true], parse, number);
    TwoFrames(w.(buffer := Rest(text)), frames[0], parse);
    assert frames == [frames[0], frames[0]];
  }

  lemma WrittenTwice(raw: string)
    ensures Written([raw, raw]) == raw + BREAK + raw + BREAK
  {
    assert [raw, raw][1..] == [raw] && [raw][1..] == [];
    assert Written([raw]) == raw + BREAK + "";
    assert raw + BREAK + (raw + BREAK + "") == raw + BREAK + raw + BREAK;
  }

  lemma FirstResponse(parse: string -> Parsed, number: string -> Option<real>)
    ensures Step(Started("bzst_"), Response(true, 200, true), parse, number) == Watch(false, 0, 3000.0, "", Reading, [])
  {
  }

  lemma TwoFrames(w: Watch, f: Frame, parse: string -> Parsed)
    requires !w.ended && w.trace == [] && f == Frame("status", "{}", None) && parse("{}") == Status("{}", false)
    ensures var status := OnStatus(Status("{}", false), "status");
            Consumed(w, [f, f], [true], parse).trace == [status, OnEnd(Closed), status]
  {
    var status := OnStatus(Status("{}", false), "status");
    assert [f, f][1..] == [f] && [f][1..] == [] && [true][1..] == [];
    var d := Delivered(w, Status("{}", false), "status", [true]);
    assert d.ended && d.trace == [status, OnEnd(Closed)];
    OneFrame(d, f, parse);
    assert Consumed(w, [f, f], [true], parse) == Consumed(d, [f], [], parse);
  }

  lemma RunTwo(token: string, e1: Event, e2: Event, parse: string -> Parsed, number: string -> Option<real>)
    ensures Run(token, [e1, e2], parse, number) == Step(Step(Started(token), e1, parse, number), e2, parse, number)
  {
    hide Step;
    assert [e1][..0] == [];
    assert Run(token, [e1], parse, number) == Step(Started(token), e1, parse, number);
    assert [e1, e2][..1] == [e1];
  }

  /** The page can also close while a read has already resolved: that chunk is still delivered. */
  lemma DeliveredFromResolvedRead(parse: string -> Parsed, number: string -> Option<real>)
    requires parse("{}") == Status("{}", false)
    ensures var events := [Response(true, 200, true), Close, Chunk(Rendered("status", "{}") + BREAK, [])];
            Run("bzst_", events, parse, number).trace == [OnEnd(Closed), OnStatus(Status("{}", false), "status")]
  {
    hide Step, Consumed, Rendered, FrameOf, Raws, Rest, IsRaw, NoBreak;
    var raw := Rendered("status", "{}");
    var text := raw + BREAK;
    RawStatus();
    assert Written([raw]) + "" == text;
    SplitUnique([raw], "");
    var e1, e2, e3 := Response(true, 200, true), Close, Chunk(text, []);
    RunThree("bzst_", e1, e2, e3, parse, number);
    assert "" + text == text;
    var frames := FramesOf([raw], number);
    assert frames == [Frame("status", "{}", None)];
    var w := Watch(true, 0, 3000.0, "", Reading, [OnEnd(Closed)]);
    ClosedWhileReading(parse, number);
    ChunkStep(w, text, [], parse, number);
    OneFrame(w.(buffer := Rest(text)), frames[0], parse);
    assert frames == [frames[0]];
  }

  lemma ClosedWhileReading(parse: string -> Parsed, number: string -> Option<real>)
    ensures Step(Step(Started("bzst_"), Response(true, 200, true), parse, number), Close, parse, number) ==
            Watch(true, 0, 3000.0, "", Reading, [OnEnd(Closed)])
  {
  }

  lemma ChunkStep(w: Watch, text: string, closes: seq<bool>, parse: string -> Parsed, number: string -> Option<real>)
    requires w.phase == Reading
    ensures Step(w, Chunk(text, closes), parse, number) ==
            Consumed(w.(buffer := Rest(w.buffer + text)), FramesOf(Raws(w.buffer + text), number), closes, parse)
  {
  }

  lemma OneFrame(w: Watch, f: Frame, parse: string -> Parsed)
    requires w.ended && f == Frame("status", "{}", None) && parse("{}") == Status("{}", false)
    ensures Consumed(w, [f], [], parse).trace == w.trace + [OnStatus(Status("{}", false), "status")]
  {
    assert [f][1..] == [];
  }

  lemma RunThree(token: string, e1: Event, e2: Event, e3: Event, parse: string -> Parsed, number: string -> Option<real>)
    ensures Run(token, [e1, e2, e3], parse, number) ==
            Step(Step(Step(Started(token), e1, parse, number), e2, parse, number), e3, parse, number)
  {
    hide Step;
    assert [e1][..0] == [];
    assert Run(token, [e1], parse, number) == Step(Started(token), e1, parse, number);
    assert [e1, e2][..1] == [e1];
    assert Run(token, [e1, e2], parse, number) == Step(Run(token, [e1], parse, number), e2, parse, number);
    assert [e1, e2, e3][..2] == [e1, e2];
  }

  lemma RawStatus()
    ensures IsRaw(Rendered("status", "{}")) && NoBreak("")
    ensures forall number :: FrameOf(Rendered("status", "{}"), number) == Frame("status", "{}", None)
  {
    hide FrameOf, Lines, IsRaw;
    OneDataLine();
    RenderedStatus();
    NoBreakInside("event: status\ndata: {}");
    forall number ensures FrameOf(Rendered("status", "{}"), number) == Frame("status", "{}", None) {
      FrameRoundTrip("status", "{}", number);
    }
  }

  lemma OneDataLine()
    ensures Lines("{}") == ["{}"]
  {
    JoinedLines(["{}"]);
  }

  lemma RenderedStatus()
    ensures Rendered("status", "{}") == "event: status\ndata: {}"
  {
    hide Lines;
    OneDataLine();
    assert "event: " + "status" == "event: status" && "data: " + "{}" == "data: {}";
    assert DataLines(["{}"]) == ["data: {}"];
    var lines := ["event: status", "data: {}"];
    assert ["event: status"] + ["data: {}"] == lines;
    assert lines[..1] == ["event: status"];
    assert Joined(lines) == "event: status" + "\n" + "data: {}";
  }

  lemma NoBreakInside(raw: string)
    requires raw == "event: status\ndata: {}"
    ensures IsRaw(raw)
  {
    assert forall i :: 0 <= i < |raw + "\n"| && i != 13 && i != 22 ==> (raw + "\n")[i] != '\n';
  }
}
