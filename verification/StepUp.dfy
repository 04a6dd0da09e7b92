/** The operator console's request protocol: step-up prompts shared by concurrent requests, one retry, and a
    session that ends only on the session check's own refusal. Each step is the code between two awaits, and
    steps of different requests interleave freely. */
module StepUp {
  import opened Wrappers

  const ME: string := "/admin/v1/auth/me"
  const STEP_UP_PATH: string := "/admin/v1/auth/step-up"
  const STEP_UP_REQUIRED: string := "STEP_UP_REQUIRED"
  const MFA_CODE_REJECTED: string := "MFA_CODE_REJECTED"

  datatype Outcome = Granted | Cancelled | Threw

  /** How a request's promise settles: with a value, with the API's refusal, or with another exception. */
  datatype Settled = Resolved | Refused(status: nat, code: string) | Failed

  /** The await a request is at. */
  datatype Phase =
    | Sending
    | ReadingBody
    | CheckingSession(status: nat)
    | ReadingError(status: nat)
    | AwaitingStepUp(status: nat, code: string)
    | Done(result: Settled)

  /** One logical request: how often it was sent and which prompt loop it joined. */
  datatype Request = Request(path: string, noStepUp: bool, sends: nat, joined: Option<nat>, phase: Phase)

  /** The await a prompt loop is at. */
  datatype LoopPhase = Prompting(error: bool) | Submitting(request: nat) | Finished(outcome: Outcome)

  /** A prompt loop; `cleared` once its finally handler has run. */
  datatype Flight = Flight(phase: LoopPhase, cleared: bool)

  /** The module variables, the requests and prompt loops so far, and whether the local session is gone. */
  datatype State = State(browser: bool, prompt: bool, inFlight: Option<nat>, requests: seq<Request>, flights: seq<Flight>,
                         destroyed: bool)

  datatype Event =
    | SetPrompt(registered: bool)
    | NewRequest(path: string)
    | Answered(request: nat, ok: bool, status: nat)
    | SendFailed(request: nat)
    | BodyRead(request: nat, good: bool)
    | SessionChecked(request: nat, answer: Option<nat>)
    | ErrorRead(request: nat, code: string)
    | Typed(flight: nat, typed: Option<string>)
    | PromptFailed(flight: nat)
    | Submitted(flight: nat)
    | Finally(flight: nat)
    | Released(request: nat)

  // ---------------------------------------------------------------- the specification of each step

  predicate IsMe(path: string) {
    |ME| <= |path| && path[..|ME|] == ME
  }

  function Moved(s: State, i: nat, phase: Phase): State
    requires i < |s.requests|
  {
    s.(requests := s.requests[i := s.requests[i].(phase := phase)])
  }

  function Fresh(path: string, noStepUp: bool): Request {
    Request(path, noStepUp, 1, None, Sending)
  }

  function AnsweredStep(s: State, i: nat, ok: bool, status: nat): State
    requires i < |s.requests|
  {
    if ok then Moved(s, i, if status == 204 then Done(Resolved) else ReadingBody)
    else if status != 401 then Moved(s, i, ReadingError(status))
    else if IsMe(s.requests[i].path) then
      Moved(s, i, ReadingError(status)).(destroyed := s.destroyed || s.browser)
    else Moved(s, i, if s.browser then CheckingSession(status) else ReadingError(status))
  }

  function SessionCheckedStep(s: State, i: nat, status: Option<nat>): State
    requires i < |s.requests| && s.requests[i].phase.CheckingSession?
  {
    var t := Moved(s, i, ReadingError(s.requests[i].phase.status));
    if status == Some(401) then t.(destroyed := true) else t
  }

  /** Joins the prompt loop in flight, or starts one; without a prompt the answer is no. */
  function ErrorReadStep(s: State, i: nat, code: string): State
    requires i < |s.requests| && s.requests[i].phase.ReadingError?
  {
    var r := s.requests[i];
    var status := r.phase.status;
    if !(status == 403 && code == STEP_UP_REQUIRED && !r.noStepUp) || !s.prompt then Moved(s, i, Done(Refused(status, code)))
    else
      var k := if s.inFlight.Some? then s.inFlight.value else |s.flights|;
      var waiting := r.(joined := Some(k), phase := AwaitingStepUp(status, code));
      s.(requests := s.requests[i := waiting], inFlight := Some(k),
         flights := if s.inFlight.Some? then s.flights else s.flights + [Flight(Prompting(false), false)])
  }

  function LoopMoved(s: State, k: nat, phase: LoopPhase): State
    requires k < |s.flights|
  {
    s.(flights := s.flights[k := s.flights[k].(phase := phase)])
  }

  function TypedStep(s: State, k: nat, code: Option<string>): State
    requires k < |s.flights|
  {
    if code == None then LoopMoved(s, k, Finished(Cancelled))
    else LoopMoved(s, k, Submitting(|s.requests|)).(requests := s.requests + [Fresh(STEP_UP_PATH, true)])
  }

  function SubmittedStep(s: State, k: nat, result: Settled): State
    requires k < |s.flights|
  {
    LoopMoved(s, k,
      if result == Resolved then Finished(Granted)
      else if result.Refused? && result.code == MFA_CODE_REJECTED then Prompting(true)
      else Finished(Threw))
  }

  function ReleasedStep(s: State, i: nat, outcome: Outcome): State
    requires i < |s.requests| && s.requests[i].phase.AwaitingStepUp?
  {
    var r := s.requests[i];
    match outcome
    case Granted => s.(requests := s.requests[i := r.(noStepUp := true, sends := r.sends + 1, phase := Sending)])
    case Cancelled => Moved(s, i, Done(Refused(r.phase.status, r.phase.code)))
    case Threw => Moved(s, i, Done(Failed))
  }

  /** The submitted code's request has settled. */
  predicate CanSubmit(s: State, k: nat) {
    k < |s.flights| && s.flights[k].phase.Submitting? &&
    s.flights[k].phase.request < |s.requests| && s.requests[s.flights[k].phase.request].phase.Done?
  }

  /** The joined loop's promise has settled. */
  predicate CanRelease(s: State, i: nat) {
    i < |s.requests| && s.requests[i].phase.AwaitingStepUp? && s.requests[i].joined.Some? &&
    s.requests[i].joined.value < |s.flights| && s.flights[s.requests[i].joined.value].cleared &&
    s.flights[s.requests[i].joined.value].phase.Finished?
  }

  /** What each event waits for. */
  predicate Enabled(s: State, e: Event) {
    match e
    case SetPrompt(_) => true
    case NewRequest(_) => true
    case Answered(i, _, _) => i < |s.requests| && s.requests[i].phase == Sending
    case SendFailed(i) => i < |s.requests| && s.requests[i].phase == Sending
    case BodyRead(i, _) => i < |s.requests| && s.requests[i].phase == ReadingBody
    case SessionChecked(i, _) => i < |s.requests| && s.requests[i].phase.CheckingSession?
    case ErrorRead(i, _) => i < |s.requests| && s.requests[i].phase.ReadingError?
    case Typed(k, _) => k < |s.flights| && s.flights[k].phase.Prompting?
    case PromptFailed(k) => k < |s.flights| && s.flights[k].phase.Prompting?
    case Submitted(k) => CanSubmit(s, k)
    case Finally(k) => k < |s.flights| && s.flights[k].phase.Finished? && !s.flights[k].cleared
    case Released(i) => CanRelease(s, i)
  }

  function Step(s: State, e: Event): State {
    if !Enabled(s, e) then s
    else
      match e
      case SetPrompt(registered) => s.(prompt := registered)
      case NewRequest(path) => s.(requests := s.requests + [Fresh(path, false)])
      case Answered(i, ok, status) => AnsweredStep(s, i, ok, status)
      case SendFailed(i) => Moved(s, i, Done(Failed))
      case BodyRead(i, good) => Moved(s, i, Done(if good then Resolved else Failed))
      case SessionChecked(i, status) => SessionCheckedStep(s, i, status)
      case ErrorRead(i, code) => ErrorReadStep(s, i, code)
      case Typed(k, code) => TypedStep(s, k, code)
      case PromptFailed(k) => LoopMoved(s, k, Finished(Threw))
      case Submitted(k) => SubmittedStep(s, k, s.requests[s.flights[k].phase.request].phase.result)
      case Finally(k) => s.(inFlight := None, flights := s.flights[k := s.flights[k].(cleared := true)])
      case Released(i) => ReleasedStep(s, i, s.flights[s.requests[i].joined.value].phase.outcome)
  }

  function Run(browser: bool, events: seq<Event>): State {
    if events == [] then State(browser, false, None, [], [], false)
    else Step(Run(browser, events[..|events| - 1]), events[|events| - 1])
  }

  // ---------------------------------------------------------------- what every interleaving keeps

  /** A request is sent at most twice, and a second time only after the loop it joined was granted; every request
      that joined a loop and went on went the way that loop's one outcome says. */
  predicate RequestOk(r: Request, flights: seq<Flight>) {
    && 1 <= r.sends <= 2
    && (r.joined.Some? ==> r.joined.value < |flights|)
    && (r.phase.AwaitingStepUp? ==> r.joined.Some? && r.sends == 1)
    && (r.joined == None ==> r.sends == 1)
    && (r.joined.Some? && !r.phase.AwaitingStepUp? ==>
          var f := flights[r.joined.value];
          && f.cleared && f.phase.Finished?
          && (f.phase.outcome == Granted <==> r.sends == 2)
          && (r.sends == 2 ==> r.noStepUp)
          && (f.phase.outcome == Cancelled ==> r.phase == Done(Refused(403, STEP_UP_REQUIRED)))
          && (f.phase.outcome == Threw ==> r.phase == Done(Failed)))
    && (r.phase.AwaitingStepUp? ==> r.phase.status == 403 && r.phase.code == STEP_UP_REQUIRED)
  }

  /** Only the loop in flight is not cleared; a cleared loop is finished; a submitted code is a step-up request of
      its own that can wait for no prompt. */
  predicate FlightOk(k: nat, f: Flight, inFlight: Option<nat>, requests: seq<Request>) {
    && (f.cleared ==> f.phase.Finished?)
    && (!f.cleared <==> inFlight == Some(k))
    && (f.phase.Submitting? ==> f.phase.request < |requests| && requests[f.phase.request].noStepUp &&
                                requests[f.phase.request].joined == None && requests[f.phase.request].path == STEP_UP_PATH)
  }

  ghost predicate Invariant(s: State) {
    && (s.inFlight.Some? ==> s.inFlight.value < |s.flights|)
    && (forall i :: 0 <= i < |s.requests| ==> RequestOk(s.requests[i], s.flights))
    && (forall k :: 0 <= k < |s.flights| ==> FlightOk(k, s.flights[k], s.inFlight, s.requests))
    && (forall i :: 0 <= i < |s.requests| && s.requests[i].phase.CheckingSession? ==> s.browser)
  }

  lemma MovedKeeps(s: State, i: nat, phase: Phase)
    requires Invariant(s) && i < |s.requests| && !s.requests[i].phase.AwaitingStepUp? && !phase.AwaitingStepUp?
    requires !s.requests[i].phase.Done? && (phase.CheckingSession? ==> s.browser)
    ensures Invariant(Moved(s, i, phase))
  {
    StillGoing(s, i);
    SameLoops(s, Moved(s, i, phase));
  }

  /** A request that joined a loop and is not waiting or done has been granted. */
  lemma StillGoing(s: State, i: nat)
    requires Invariant(s) && i < |s.requests| && !s.requests[i].phase.AwaitingStepUp? && !s.requests[i].phase.Done?
    ensures s.requests[i].joined.Some? ==> s.flights[s.requests[i].joined.value].phase == Finished(Granted)
  {
    var r := s.requests[i];
    assert RequestOk(r, s.flights);
    if r.joined.Some? {
      assert FlightOk(r.joined.value, s.flights[r.joined.value], s.inFlight, s.requests);
    }
  }

  /** Requests changed without touching what the loops look at. */
  lemma SameLoops(s: State, t: State)
    requires Invariant(s) && |s.requests| <= |t.requests| && s.flights == t.flights && s.inFlight == t.inFlight
    requires forall i :: 0 <= i < |s.requests| && s.requests[i].noStepUp && s.requests[i].joined == None ==>
               t.requests[i].noStepUp && t.requests[i].joined == None && t.requests[i].path == s.requests[i].path
    ensures forall k :: 0 <= k < |t.flights| ==> FlightOk(k, t.flights[k], t.inFlight, t.requests)
  {
    forall k | 0 <= k < |t.flights| ensures FlightOk(k, t.flights[k], t.inFlight, t.requests) {
      assert FlightOk(k, s.flights[k], s.inFlight, s.requests);
    }
  }

  /** A loop moved without being cleared: no request has gone on from it yet. */
  lemma LoopMovedKeeps(s: State, k: nat, phase: LoopPhase)
    requires Invariant(s) && k < |s.flights| && !s.flights[k].cleared
    requires phase.Submitting? ==>
               && phase.request < |s.requests| && s.requests[phase.request].noStepUp
               && s.requests[phase.request].joined == None && s.requests[phase.request].path == STEP_UP_PATH
    ensures Invariant(LoopMoved(s, k, phase))
  {
    var t := LoopMoved(s, k, phase);
    assert FlightOk(k, s.flights[k], s.inFlight, s.requests);
    forall i | 0 <= i < |t.requests| ensures RequestOk(t.requests[i], t.flights) {
      assert RequestOk(s.requests[i], s.flights);
    }
    forall j | 0 <= j < |t.flights| ensures FlightOk(j, t.flights[j], t.inFlight, t.requests) {
      assert FlightOk(j, s.flights[j], s.inFlight, s.requests);
    }
  }

  lemma NewRequestKeeps(s: State, path: string, noStepUp: bool)
    requires Invariant(s)
    ensures Invariant(s.(requests := s.requests + [Fresh(path, noStepUp)]))
  {
    SameLoops(s, s.(requests := s.requests + [Fresh(path, noStepUp)]));
  }

  lemma ErrorReadKeeps(s: State, i: nat, code: string)
    requires Invariant(s) && i < |s.requests| && s.requests[i].phase.ReadingError?
    ensures Invariant(ErrorReadStep(s, i, code))
  {
    var r, t := s.requests[i], ErrorReadStep(s, i, code);
    if s.requests[i].joined.Some? {
      StillGoing(s, i);
      assert RequestOk(r, s.flights);
    }
    if t.requests[i].phase.Done? {
      MovedKeeps(s, i, t.requests[i].phase);
    } else {
      assert RequestOk(r, s.flights);
      forall j | 0 <= j < |t.requests| ensures RequestOk(t.requests[j], t.flights) {
        assert RequestOk(s.requests[j], s.flights);
      }
      forall k | 0 <= k < |t.flights| ensures FlightOk(k, t.flights[k], t.inFlight, t.requests) {
        if k < |s.flights| {
          assert FlightOk(k, s.flights[k], s.inFlight, s.requests);
        }
      }
    }
  }

  lemma FinallyKeeps(s: State, k: nat)
    requires Invariant(s) && k < |s.flights| && s.flights[k].phase.Finished? && !s.flights[k].cleared
    ensures Invariant(Step(s, Finally(k)))
  {
    var t := Step(s, Finally(k));
    assert FlightOk(k, s.flights[k], s.inFlight, s.requests);
    forall i | 0 <= i < |t.requests| ensures RequestOk(t.requests[i], t.flights) {
      assert RequestOk(s.requests[i], s.flights);
    }
    forall j | 0 <= j < |t.flights| ensures FlightOk(j, t.flights[j], t.inFlight, t.requests) {
      assert FlightOk(j, s.flights[j], s.inFlight, s.requests);
    }
  }

  lemma ReleasedKeeps(s: State, i: nat)
    requires Invariant(s) && CanRelease(s, i)
    ensures Invariant(Step(s, Released(i)))
  {
    hide FlightOk, IsMe;
    var r, t := s.requests[i], ReleasedStep(s, i, s.flights[s.requests[i].joined.value].phase.outcome);
    assert RequestOk(r, s.flights);
    assert RequestOk(t.requests[i], t.flights);
    SameLoops(s, t);
  }

  lemma TypedKeeps(s: State, k: nat, typed: Option<string>)
    requires Invariant(s) && k < |s.flights| && s.flights[k].phase.Prompting?
    ensures Invariant(TypedStep(s, k, typed))
  {
    assert FlightOk(k, s.flights[k], s.inFlight, s.requests);
    if typed == None {
      LoopMovedKeeps(s, k, Finished(Cancelled));
    } else {
      var t := s.(requests := s.requests + [Fresh(STEP_UP_PATH, true)]);
      NewRequestKeeps(s, STEP_UP_PATH, true);
      LoopMovedKeeps(t, k, Submitting(|s.requests|));
      assert TypedStep(s, k, typed) == LoopMoved(t, k, Submitting(|s.requests|));
    }
  }

  lemma StepKeeps(s: State, e: Event)
    requires Invariant(s)
    ensures Invariant(Step(s, e))
  {
    hide Invariant, Moved, LoopMoved, RequestOk, FlightOk;
    if Enabled(s, e) {
      match e
      case SetPrompt(registered) => PromptKeeps(s, registered);
      case NewRequest(path) => NewRequestKeeps(s, path, false);
      case Answered(i, ok, status) => AnsweredKeeps(s, i, ok, status);
      case SendFailed(i) => MovedKeeps(s, i, Done(Failed));
      case BodyRead(i, good) => MovedKeeps(s, i, Done(if good then Resolved else Failed));
      case SessionChecked(i, answer) => SessionCheckedKeeps(s, i, answer);
      case ErrorRead(i, code) => ErrorReadKeeps(s, i, code);
      case Typed(k, typed) => TypedKeeps(s, k, typed);
      case PromptFailed(k) =>
        UnfinishedUncleared(s, k);
        LoopMovedKeeps(s, k, Finished(Threw));
      case Submitted(k) =>
        UnfinishedUncleared(s, k);
        SubmittedKeeps(s, k, s.requests[s.flights[k].phase.request].phase.result);
      case Finally(k) => FinallyKeeps(s, k);
      case Released(i) => ReleasedKeeps(s, i);
    }
  }

  lemma UnfinishedUncleared(s: State, k: nat)
    requires Invariant(s) && k < |s.flights| && !s.flights[k].phase.Finished?
    ensures !s.flights[k].cleared
  {
    assert FlightOk(k, s.flights[k], s.inFlight, s.requests);
  }

  lemma SubmittedKeeps(s: State, k: nat, result: Settled)
    requires Invariant(s) && k < |s.flights| && !s.flights[k].cleared
    ensures Invariant(SubmittedStep(s, k, result))
  {
    LoopMovedKeeps(s, k, Finished(Granted));
    LoopMovedKeeps(s, k, Prompting(true));
    LoopMovedKeeps(s, k, Finished(Threw));
  }

  lemma PromptKeeps(s: State, registered: bool)
    requires Invariant(s)
    ensures Invariant(s.(prompt := registered))
  {
  }

  lemma AnsweredKeeps(s: State, i: nat, ok: bool, status: nat)
    requires Invariant(s) && i < |s.requests| && s.requests[i].phase == Sending
    ensures Invariant(AnsweredStep(s, i, ok, status))
  {
    hide Invariant, IsMe;
    var t := AnsweredStep(s, i, ok, status);
    MovedKeeps(s, i, t.requests[i].phase);
    SessionKeeps(Moved(s, i, t.requests[i].phase), t.destroyed);
  }

  lemma SessionCheckedKeeps(s: State, i: nat, answer: Option<nat>)
    requires Invariant(s) && i < |s.requests| && s.requests[i].phase.CheckingSession?
    ensures Invariant(SessionCheckedStep(s, i, answer))
  {
    MovedKeeps(s, i, ReadingError(s.requests[i].phase.status));
    SessionKeeps(Moved(s, i, ReadingError(s.requests[i].phase.status)), true);
  }

  lemma SessionKeeps(s: State, destroyed: bool)
    requires Invariant(s)
    ensures Invariant(s.(destroyed := destroyed))
  {
  }

  /** Every interleaving of requests, answers, prompts and codes. */
  lemma {:induction false} RunsKeep(browser: bool, events: seq<Event>)
    ensures Invariant(Run(browser, events)) && Run(browser, events).browser == browser
    decreases |events|
  {
    hide Invariant, Step;
    if events == [] {
      StartKeeps(browser);
    } else {
      RunsKeep(browser, events[..|events| - 1]);
      StepKeeps(Run(browser, events[..|events| - 1]), events[|events| - 1]);
      SameBrowser(Run(browser, events[..|events| - 1]), events[|events| - 1]);
    }
  }

  lemma StartKeeps(browser: bool)
    ensures Invariant(State(browser, false, None, [], [], false))
  {
  }

  lemma SameBrowser(s: State, e: Event)
    ensures Step(s, e).browser == s.browser
  {
  }

  // ---------------------------------------------------------------- what that means

  /** Never two prompt loops at once: one whose promise has not settled for its waiters is the one in flight. */
  lemma OneLoop(browser: bool, events: seq<Event>, k: nat, l: nat)
    requires k < |Run(browser, events).flights| && !Run(browser, events).flights[k].cleared
    requires l < |Run(browser, events).flights| && !Run(browser, events).flights[l].cleared
    ensures k == l && Run(browser, events).inFlight == Some(k)
  {
    hide Run;
    RunsKeep(browser, events);
    var s := Run(browser, events);
    assert FlightOk(k, s.flights[k], s.inFlight, s.requests) && FlightOk(l, s.flights[l], s.inFlight, s.requests);
  }

  /** Two requests that joined the same loop and have both gone on went the same way. */
  lemma SharedOutcome(browser: bool, events: seq<Event>, i: nat, j: nat)
    requires i < |Run(browser, events).requests| && j < |Run(browser, events).requests|
    requires var r, q := Run(browser, events).requests[i], Run(browser, events).requests[j];
             r.joined.Some? && r.joined == q.joined && !r.phase.AwaitingStepUp? && !q.phase.AwaitingStepUp?
    ensures var r, q := Run(browser, events).requests[i], Run(browser, events).requests[j];
            && r.sends == q.sends
            && (r.sends == 1 ==> r.phase == q.phase && (r.phase == Done(Failed) || r.phase == Done(Refused(403, STEP_UP_REQUIRED))))
  {
    hide Run;
    RunsKeep(browser, events);
    var s := Run(browser, events);
    assert RequestOk(s.requests[i], s.flights) && RequestOk(s.requests[j], s.flights);
  }

  /** The outcome of a loop never changes once it is there. */
  lemma OutcomeFixed(s: State, e: Event, k: nat)
    requires k < |s.flights| && s.flights[k].phase.Finished?
    ensures k < |Step(s, e).flights| && Step(s, e).flights[k].phase == s.flights[k].phase
  {
    hide IsMe;
  }

  /** The session check itself answers 401, to a request of its own or to a check after another request's 401. */
  predicate RefusesMe(s: State, e: Event) {
    Enabled(s, e) &&
    match e
    case Answered(i, ok, status) => !ok && status == 401 && IsMe(s.requests[i].path)
    case SessionChecked(_, answer) => answer == Some(401)
    case _ => false
  }

  lemma DestroyedStep(s: State, e: Event)
    requires Invariant(s)
    ensures Step(s, e).destroyed <==> s.destroyed || (s.browser && RefusesMe(s, e))
  {
    hide RequestOk, FlightOk, IsMe;
  }

  /** In a browser the local session is gone exactly when the session check answered 401 at some point of the run. */
  lemma {:induction false} SessionEnds(browser: bool, events: seq<Event>)
    ensures Run(browser, events).destroyed <==>
              browser && exists j :: 0 <= j < |events| && RefusesMe(Run(browser, events[..j]), events[j])
    decreases |events|
  {
    hide RefusesMe, Step, Invariant;
    if events != [] {
      var n := |events| - 1;
      var before := events[..n];
      SessionEnds(browser, before);
      RunsKeep(browser, before);
      DestroyedStep(Run(browser, before), events[n]);
      forall j | 0 <= j < n ensures before[..j] == events[..j] && before[j] == events[j] {
      }
    }
  }

  // ---------------------------------------------------------------- the console itself

  class Console {
    const browser: bool
    var stepUpPrompt: bool
    var stepUpInFlight: Option<nat>
    var requests: seq<Request>
    var flights: seq<Flight>
    var destroyed: bool

    function Now(): State
      reads this
    {
      State(browser, stepUpPrompt, stepUpInFlight, requests, flights, destroyed)
    }

    constructor (inBrowser: bool)
      ensures Now() == Run(inBrowser, [])
    {
      browser := inBrowser;
      stepUpPrompt, stepUpInFlight, requests, flights, destroyed := false, None, [], [], false;
    }

    method MoveTo(i: nat, phase: Phase)
      requires i < |requests|
      modifies this`requests
      ensures Now() == Moved(old(Now()), i, phase)
    {
      requests := requests[i := requests[i].(phase := phase)];
    }

    method SetStepUpPrompt(registered: bool)
      modifies this
      ensures Now() == Step(old(Now()), SetPrompt(registered))
    {
      stepUpPrompt := registered;
    }

    method Req(path: string) returns (i: nat)
      modifies this
      ensures i == |old(requests)| && Now() == Step(old(Now()), NewRequest(path))
    {
      i := |requests|;
      requests := requests + [Fresh(path, false)];
    }

    /** The response is there. A 401 ends the session at once only for the session check's own path. */
    method OnAnswer(i: nat, ok: bool, status: nat)
      requires Enabled(Now(), Answered(i, ok, status))
      modifies this
      ensures Now() == Step(old(Now()), Answered(i, ok, status))
    {
      if ok {
        MoveTo(i, if status == 204 then Done(Resolved) else ReadingBody);
        return;
      }
      if status == 401 && browser {
        if IsMe(requests[i].path) {
          destroyed := true;
        } else {
          MoveTo(i, CheckingSession(status));
          return;
        }
      }
      MoveTo(i, ReadingError(status));
    }

    method OnSessionChecked(i: nat, answer: Option<nat>)
      requires Enabled(Now(), SessionChecked(i, answer))
      modifies this
      ensures Now() == Step(old(Now()), SessionChecked(i, answer))
    {
      if answer == Some(401) {
        destroyed := true;
      }
      MoveTo(i, ReadingError(requests[i].phase.status));
    }

    /** The refusal is read: join the step-up in flight, start one, or throw. */
    method OnErrorRead(i: nat, code: string)
      requires Enabled(Now(), ErrorRead(i, code))
      modifies this
      ensures Now() == Step(old(Now()), ErrorRead(i, code))
    {
      var status := requests[i].phase.status;
      if status == 403 && code == STEP_UP_REQUIRED && !requests[i].noStepUp {
        var joined := StepUpInteractively();
        if joined.Some? {
          requests := requests[i := requests[i].(joined := joined, phase := AwaitingStepUp(status, code))];
          return;
        }
      }
      MoveTo(i, Done(Refused(status, code)));
    }

    /** The promise to wait on, or none when there is no prompt to show. */
    method StepUpInteractively() returns (flight: Option<nat>)
      modifies this`stepUpInFlight, this`flights
      ensures !stepUpPrompt ==> flight == None && unchanged(this)
      ensures stepUpPrompt && old(stepUpInFlight).Some? ==> flight == old(stepUpInFlight) && unchanged(this)
      ensures stepUpPrompt && old(stepUpInFlight).None? ==>
                && flight == Some(|old(flights)|) && stepUpInFlight == flight
                && flights == old(flights) + [Flight(Prompting(false), false)]
    {
      if !stepUpPrompt {
        return None;
      }
      if stepUpInFlight.Some? {
        return stepUpInFlight;
      }
      flights := flights + [Flight(Prompting(false), false)];
      stepUpInFlight := Some(|flights| - 1);
      return stepUpInFlight;
    }

    /** The operator typed a code, or cancelled. */
    method OnTyped(k: nat, typed: Option<string>)
      requires Enabled(Now(), Typed(k, typed))
      modifies this
      ensures Now() == Step(old(Now()), Typed(k, typed))
    {
      if typed == None {
        flights := flights[k := flights[k].(phase := Finished(Cancelled))];
        return;
      }
      flights := flights[k := flights[k].(phase := Submitting(|requests|))];
      requests := requests + [Fresh(STEP_UP_PATH, true)];
    }

    /** The step-up request has settled: done, ask again, or throw. */
    method OnSubmitted(k: nat)
      requires Enabled(Now(), Submitted(k))
      modifies this
      ensures Now() == Step(old(Now()), Submitted(k))
    {
      var result := requests[flights[k].phase.request].phase.result;
      var next := Finished(Threw);
      if result == Resolved {
        next := Finished(Granted);
      } else if result.Refused? && result.code == MFA_CODE_REJECTED {
        next := Prompting(true);
      }
      flights := flights[k := flights[k].(phase := next)];
    }

    method OnFinally(k: nat)
      requires Enabled(Now(), Finally(k))
      modifies this
      ensures Now() == Step(old(Now()), Finally(k))
    {
      stepUpInFlight := None;
      flights := flights[k := flights[k].(cleared := true)];
    }

    /** A waiter goes on: retry once without another step-up, surface the refusal, or rethrow. */
    method OnReleased(i: nat)
      requires Enabled(Now(), Released(i))
      modifies this
      ensures Now() == Step(old(Now()), Released(i))
    {
      var r := requests[i];
      match flights[r.joined.value].phase.outcome {
        case Granted => requests := requests[i := r.(noStepUp := true, sends := r.sends + 1, phase := Sending)];
        case Cancelled => MoveTo(i, Done(Refused(r.phase.status, r.phase.code)));
        case Threw => MoveTo(i, Done(Failed));
      }
    }
  }
}
