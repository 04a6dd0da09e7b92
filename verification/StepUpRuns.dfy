/** What happened in a run of the step-up protocol when a request or a prompt loop is where it is: every place is
    reached by the events listed here and by no others. The conditions are about single events and the state each
    of them meets, so they read like a log of the run. */
module StepUpRuns {
  import opened StepUp
  import opened Wrappers

  // ---------------------------------------------------------------- since

  /** Step j of the run is one that `begins` accepts, and no later one is one that `ends` accepts. */
  ghost predicate Since(browser: bool, events: seq<Event>, begins: (State, Event) -> bool, ends: (State, Event) -> bool, j: nat)
    requires j < |events|
  {
    && begins(Run(browser, events[..j]), events[j])
    && forall i :: j < i < |events| ==> !ends(Run(browser, events[..i]), events[i])
  }

  /** A property that steps begin and end holds exactly when it began and has not ended since. */
  lemma {:induction false} HoldsSince(browser: bool, events: seq<Event>, holds: State -> bool,
                                      begins: (State, Event) -> bool, ends: (State, Event) -> bool)
    requires !holds(Run(browser, []))
    requires forall s, e :: Invariant(s) && s.browser == browser ==> (holds(Step(s, e)) <==> begins(s, e) || (holds(s) && !ends(s, e)))
    ensures holds(Run(browser, events)) <==> exists j :: 0 <= j < |events| && Since(browser, events, begins, ends, j)
    decreases |events|
  {
    hide Invariant, Step, Since;
    if events != [] {
      var n := |events| - 1;
      var before := events[..n];
      HoldsSince(browser, before, holds, begins, ends);
      RunsKeep(browser, before);
      assert events == before + [events[n]];
      forall j | 0 <= j < n
        ensures Since(browser, events, begins, ends, j) <==>
                Since(browser, before, begins, ends, j) && !ends(Run(browser, before), events[n])
      {
        SinceEarlier(browser, events, begins, ends, j);
      }
      SinceLast(browser, events, begins, ends);
    }
  }

  lemma SinceEarlier(browser: bool, events: seq<Event>, begins: (State, Event) -> bool, ends: (State, Event) -> bool, j: nat)
    requires j < |events| - 1
    ensures Since(browser, events, begins, ends, j) <==>
            Since(browser, events[..|events| - 1], begins, ends, j) &&
            !ends(Run(browser, events[..|events| - 1]), events[|events| - 1])
  {
    hide Run;
    var n := |events| - 1;
    forall i | 0 <= i < n ensures events[..n][..i] == events[..i] && events[..n][i] == events[i] {
    }
  }

  lemma SinceLast(browser: bool, events: seq<Event>, begins: (State, Event) -> bool, ends: (State, Event) -> bool)
    requires events != []
    ensures Since(browser, events, begins, ends, |events| - 1) <==>
            begins(Run(browser, events[..|events| - 1]), events[|events| - 1])
  {
  }

  /** The case of a property that, once there, stays. */
  lemma EverIs(browser: bool, events: seq<Event>, holds: State -> bool, begins: (State, Event) -> bool)
    requires !holds(Run(browser, []))
    requires forall s, e :: Invariant(s) && s.browser == browser ==> (holds(Step(s, e)) <==> holds(s) || begins(s, e))
    ensures holds(Run(browser, events)) <==> exists j :: 0 <= j < |events| && begins(Run(browser, events[..j]), events[j])
  {
    hide Invariant, Step, Run;
    var never := (s: State, e: Event) => false;
    HoldsSince(browser, events, holds, begins, never);
    forall j | 0 <= j < |events| ensures Since(browser, events, begins, never, j) <==> begins(Run(browser, events[..j]), events[j]) {
    }
  }

  // ---------------------------------------------------------------- events and what they meet

  predicate LoopAt(s: State, k: nat, phase: LoopPhase) {
    k < |s.flights| && s.flights[k].phase == phase
  }

  predicate Prompts(s: State, k: nat) {
    k < |s.flights| && s.flights[k].phase.Prompting?
  }

  /** How the step-up request that loop k sent ended, when the loop takes it up. */
  function CodeResult(s: State, e: Event, k: nat): Option<Settled> {
    if e == Submitted(k) && k < |s.flights| && s.flights[k].phase.Submitting? &&
       s.flights[k].phase.request < |s.requests| && s.requests[s.flights[k].phase.request].phase.Done? &&
       s.requests[s.flights[k].phase.request].path == "/admin/v1/auth/step-up"
    then Some(s.requests[s.flights[k].phase.request].phase.result)
    else None
  }

  /** The code was wrong. */
  predicate CodeRejected(s: State, e: Event, k: nat) {
    var r := CodeResult(s, e, k);
    r.Some? && r.value.Refused? && r.value.code == "MFA_CODE_REJECTED"
  }

  predicate CodeTyped(s: State, e: Event, k: nat) {
    e.Typed? && e.flight == k && e.typed.Some? && Prompts(s, k)
  }

  predicate PromptLeft(s: State, e: Event, k: nat) {
    Prompts(s, k) && ((e.Typed? && e.flight == k) || e == PromptFailed(k))
  }

  predicate RequestAt(s: State, i: nat, phase: Phase) {
    i < |s.requests| && s.requests[i].phase == phase
  }

  predicate AnswerTo(s: State, e: Event, i: nat) {
    e.Answered? && e.request == i && RequestAt(s, i, Sending)
  }

  /** A refusal for want of a step-up that may still be made. */
  predicate StepUpAsked(s: State, e: Event, i: nat) {
    && e == ErrorRead(i, "STEP_UP_REQUIRED") && RequestAt(s, i, ReadingError(403))
    && !s.requests[i].noStepUp && s.prompt
  }

  /** A waiting request goes on from its loop, which ended like this. */
  predicate Freed(s: State, e: Event, i: nat, outcome: Outcome) {
    && e == Released(i) && i < |s.requests| && s.requests[i].phase.AwaitingStepUp? && s.requests[i].joined.Some?
    && s.requests[i].joined.value < |s.flights| && s.flights[s.requests[i].joined.value] == Flight(Finished(outcome), true)
  }

  /** Request i is made by the page, or by a loop that submits a code. */
  predicate Made(s: State, e: Event, i: nat) {
    i == |s.requests| && (e.NewRequest? || (e.Typed? && CodeTyped(s, e, e.flight)))
  }

  /** Only a 401 from elsewhere than the session check leads to a check, and only in a browser. */
  predicate CheckStarts(s: State, e: Event, i: nat) {
    s.browser && AnswerTo(s, e, i) && !e.ok && e.status == 401 && !("/admin/v1/auth/me" <= s.requests[i].path)
  }

  /** A first refusal starts loop k, unless a loop is in flight. */
  predicate LoopStarts(s: State, e: Event, k: nat) {
    k == |s.flights| && s.inFlight == None && e.ErrorRead? && StepUpAsked(s, e, e.request)
  }

  function LoopInFlight(s: State): nat {
    if s.inFlight.Some? then s.inFlight.value else |s.flights|
  }

  /** The prompt broke, or the step-up request ended in anything but success and a wrong code. */
  predicate LoopBreaks(s: State, e: Event, k: nat) {
    || (e == PromptFailed(k) && Prompts(s, k))
    || (CodeResult(s, e, k).Some? && CodeResult(s, e, k) != Some(Resolved) && !CodeRejected(s, e, k))
  }

  /** A refusal is read at once, or after the session check, with the status the request was answered with. */
  predicate RefusalComes(s: State, e: Event, i: nat, status: nat) {
    || (AnswerTo(s, e, i) && !e.ok && e.status == status && !CheckStarts(s, e, i))
    || (e.SessionChecked? && e.request == i && RequestAt(s, i, CheckingSession(status)))
  }

  /** A good answer without a body, or with one that could be read. */
  predicate Succeeds(s: State, e: Event, i: nat) {
    (AnswerTo(s, e, i) && e.ok && e.status == 204) || (e == BodyRead(i, true) && RequestAt(s, i, ReadingBody))
  }

  /** The network broke, the body could not be read, or the loop it waited for broke. */
  predicate Fails(s: State, e: Event, i: nat) {
    || (e == SendFailed(i) && RequestAt(s, i, Sending))
    || (e == BodyRead(i, false) && RequestAt(s, i, ReadingBody))
    || Freed(s, e, i, Threw)
  }

  /** A refusal that no step-up can help, or one whose step-up the operator cancelled. */
  predicate Refuses(s: State, e: Event, i: nat, status: nat, code: string) {
    || (e == ErrorRead(i, code) && RequestAt(s, i, ReadingError(status)) && !StepUpAsked(s, e, i))
    || (Freed(s, e, i, Cancelled) && status == 403 && code == "STEP_UP_REQUIRED")
  }

  predicate Joins(s: State, i: nat, k: nat) {
    i < |s.requests| && s.requests[i].joined == Some(k)
  }

  predicate SentTwice(s: State, i: nat) {
    i < |s.requests| && s.requests[i].sends == 2
  }

  predicate NoCode(s: State, e: Event, k: nat) {
    e == Typed(k, None) && Prompts(s, k)
  }

  predicate CodeSent(s: State, e: Event, k: nat, q: nat) {
    CodeTyped(s, e, k) && q == |s.requests|
  }

  predicate Leaves(s: State, e: Event, i: nat) {
    Made(s, e, i) || Freed(s, e, i, Granted)
  }

  predicate Returns(s: State, e: Event, i: nat) {
    AnswerTo(s, e, i) || e == SendFailed(i)
  }

  predicate BodyComes(s: State, e: Event, i: nat) {
    AnswerTo(s, e, i) && e.ok && e.status != 204
  }

  predicate BodyIsRead(e: Event, i: nat) {
    e.BodyRead? && e.request == i
  }

  predicate CheckEnds(e: Event, i: nat) {
    e.SessionChecked? && e.request == i
  }

  predicate RefusalIsRead(e: Event, i: nat) {
    e.ErrorRead? && e.request == i
  }

  predicate FreedSomehow(s: State, e: Event, i: nat) {
    Freed(s, e, i, Granted) || Freed(s, e, i, Cancelled) || Freed(s, e, i, Threw)
  }

  predicate JoinsNow(s: State, e: Event, i: nat, k: nat) {
    StepUpAsked(s, e, i) && k == LoopInFlight(s)
  }

  // ---------------------------------------------------------------- one step, request by request and loop by loop

  /** The request an event is about. */
  function Subject(e: Event): Option<nat> {
    match e
    case Answered(i, _, _) => Some(i)
    case SendFailed(i) => Some(i)
    case BodyRead(i, _) => Some(i)
    case SessionChecked(i, _) => Some(i)
    case ErrorRead(i, _) => Some(i)
    case Released(i) => Some(i)
    case _ => None
  }

  lemma OtherRequest(s: State, e: Event, i: nat)
    requires i < |s.requests| && Subject(e) != Some(i)
    ensures i < |Step(s, e).requests| && Step(s, e).requests[i] == s.requests[i]
  {
    hide IsMe;
  }

  lemma NewRequests(s: State, e: Event)
    ensures |Step(s, e).requests| == |s.requests| + if Made(s, e, |s.requests|) then 1 else 0
    ensures Made(s, e, |s.requests|) ==>
              Step(s, e).requests[|s.requests|] ==
                if e.NewRequest? then Request(e.path, false, 1, None, Sending)
                else Request("/admin/v1/auth/step-up", true, 1, None, Sending)
  {
    hide IsMe;
  }

  /** What an event about request i, now r, makes of it. */
  predicate OwnMove(s: State, e: Event, i: nat, r: Request, t: Request) {
    && (!Enabled(s, e) ==> t == r)
    && (AnswerTo(s, e, i) ==>
          t == r.(phase :=
            if e.ok then (if e.status == 204 then Done(Resolved) else ReadingBody)
            else if CheckStarts(s, e, i) then CheckingSession(401) else ReadingError(e.status)))
    && (e.SendFailed? && Enabled(s, e) ==> t == r.(phase := Done(Failed)))
    && (e.BodyRead? && Enabled(s, e) ==> t == r.(phase := Done(if e.good then Resolved else Failed)))
    && (e.SessionChecked? && r.phase.CheckingSession? ==> t == r.(phase := ReadingError(r.phase.status)))
    && (e.ErrorRead? && r.phase.ReadingError? ==>
          t == if StepUpAsked(s, e, i) then r.(joined := Some(LoopInFlight(s)), phase := AwaitingStepUp(403, e.code))
               else r.(phase := Done(Refused(r.phase.status, e.code))))
    && (Freed(s, e, i, Granted) ==> t == r.(noStepUp := true, sends := 2, phase := Sending))
    && (Freed(s, e, i, Cancelled) ==> t == r.(phase := Done(Refused(403, "STEP_UP_REQUIRED"))))
    && (Freed(s, e, i, Threw) ==> t == r.(phase := Done(Failed)))
    && (e.Released? && Enabled(s, e) ==> Freed(s, e, i, Granted) || Freed(s, e, i, Cancelled) || Freed(s, e, i, Threw))
  }

  lemma OwnRequest(s: State, e: Event, i: nat)
    requires Invariant(s) && i < |s.requests| && Subject(e) == Some(i)
    ensures i < |Step(s, e).requests| && OwnMove(s, e, i, s.requests[i], Step(s, e).requests[i])
  {
    hide FlightOk;
    match e
    case Answered(_, _, _) => OwnAnswer(s, e, i);
    case Released(_) =>
      hide IsMe;
      assert RequestOk(s.requests[i], s.flights);
    case _ =>
      hide IsMe, RequestOk;
  }

  lemma OwnAnswer(s: State, e: Event, i: nat)
    requires i < |s.requests| && e.Answered? && e.request == i
    ensures i < |Step(s, e).requests| && OwnMove(s, e, i, s.requests[i], Step(s, e).requests[i])
  {
  }

  /** The prompt loop an event is about. */
  function LoopSubject(e: Event): Option<nat> {
    match e
    case Typed(k, _) => Some(k)
    case PromptFailed(k) => Some(k)
    case Submitted(k) => Some(k)
    case Finally(k) => Some(k)
    case _ => None
  }

  lemma OtherLoop(s: State, e: Event, k: nat)
    requires k < |s.flights| && LoopSubject(e) != Some(k)
    ensures k < |Step(s, e).flights| && Step(s, e).flights[k] == s.flights[k]
  {
    hide IsMe;
  }

  lemma NewLoops(s: State, e: Event)
    ensures |Step(s, e).flights| == |s.flights| + if LoopStarts(s, e, |s.flights|) then 1 else 0
    ensures LoopStarts(s, e, |s.flights|) ==> Step(s, e).flights[|s.flights|] == Flight(Prompting(false), false)
  {
    hide IsMe;
  }

  /** What an event about loop k, now f, makes of it. */
  predicate OwnTurn(s: State, e: Event, k: nat, f: Flight, t: Flight) {
    && (!Enabled(s, e) ==> t == f)
    && (e.Typed? && Prompts(s, k) ==> t.phase == if e.typed.Some? then Submitting(|s.requests|) else Finished(Cancelled))
    && (e.PromptFailed? && Prompts(s, k) ==> t.phase == Finished(Threw))
    && (e.Submitted? ==> (Enabled(s, e) <==> CodeResult(s, e, k).Some?))
    && (CodeResult(s, e, k).Some? ==>
          t.phase == if CodeResult(s, e, k) == Some(Resolved) then Finished(Granted)
                     else if CodeRejected(s, e, k) then Prompting(true)
                     else Finished(Threw))
    && (e.Finally? ==> t.phase == f.phase)
  }

  lemma OwnLoop(s: State, e: Event, k: nat)
    requires Invariant(s) && k < |s.flights| && LoopSubject(e) == Some(k)
    ensures k < |Step(s, e).flights| && OwnTurn(s, e, k, s.flights[k], Step(s, e).flights[k])
  {
    hide IsMe, RequestOk;
    assert FlightOk(k, s.flights[k], s.inFlight, s.requests);
  }

  /** One step for one request. */
  lemma RequestStep(s: State, e: Event, i: nat)
    requires Invariant(s)
    ensures i < |Step(s, e).requests| <==> i < |s.requests| || Made(s, e, i)
    ensures i < |s.requests| && Subject(e) != Some(i) ==> Step(s, e).requests[i] == s.requests[i]
    ensures Made(s, e, i) ==>
              Step(s, e).requests[i] ==
                if e.NewRequest? then Request(e.path, false, 1, None, Sending)
                else Request("/admin/v1/auth/step-up", true, 1, None, Sending)
    ensures i < |s.requests| && Subject(e) == Some(i) ==> OwnMove(s, e, i, s.requests[i], Step(s, e).requests[i])
  {
    hide Step, Invariant, OwnMove;
    NewRequests(s, e);
    if i < |s.requests| {
      if Subject(e) != Some(i) {
        OtherRequest(s, e, i);
      } else {
        OwnRequest(s, e, i);
      }
    }
  }

  /** One step for one loop. */
  lemma LoopStep(s: State, e: Event, k: nat)
    requires Invariant(s)
    ensures k < |Step(s, e).flights| <==> k < |s.flights| || LoopStarts(s, e, k)
    ensures k < |s.flights| && LoopSubject(e) != Some(k) ==> Step(s, e).flights[k] == s.flights[k]
    ensures LoopStarts(s, e, k) ==> Step(s, e).flights[k] == Flight(Prompting(false), false)
    ensures k < |s.flights| && LoopSubject(e) == Some(k) ==> OwnTurn(s, e, k, s.flights[k], Step(s, e).flights[k])
  {
    hide Step, Invariant, OwnTurn;
    NewLoops(s, e);
    if k < |s.flights| {
      if LoopSubject(e) != Some(k) {
        OtherLoop(s, e, k);
      } else {
        OwnLoop(s, e, k);
      }
    }
  }

  lemma NothingYet(browser: bool)
    ensures Run(browser, []).requests == [] && Run(browser, []).flights == []
  {
  }

  // ---------------------------------------------------------------- prompt loops

  /** A loop is granted exactly when the step-up request that it sent succeeded. */
  lemma GrantedExactly(browser: bool, events: seq<Event>, k: nat)
    ensures LoopAt(Run(browser, events), k, Finished(Granted)) <==>
              exists j :: 0 <= j < |events| && CodeResult(Run(browser, events[..j]), events[j], k) == Some(Resolved)
  {
    hide Step, Invariant, Run;
    forall s, e | Invariant(s)
      ensures LoopAt(Step(s, e), k, Finished(Granted)) <==>
              LoopAt(s, k, Finished(Granted)) || CodeResult(s, e, k) == Some(Resolved)
    {
      LoopStep(s, e, k);
    }
    NothingYet(browser);
    EverIs(browser, events, s => LoopAt(s, k, Finished(Granted)), (s, e) => CodeResult(s, e, k) == Some(Resolved));
  }

  /** It is cancelled exactly when the operator gave no code. */
  lemma CancelledExactly(browser: bool, events: seq<Event>, k: nat)
    ensures LoopAt(Run(browser, events), k, Finished(Cancelled)) <==>
              exists j :: 0 <= j < |events| && NoCode(Run(browser, events[..j]), events[j], k)
  {
    hide Step, Invariant, Run;
    forall s, e | Invariant(s)
      ensures LoopAt(Step(s, e), k, Finished(Cancelled)) <==> LoopAt(s, k, Finished(Cancelled)) || NoCode(s, e, k)
    {
      LoopStep(s, e, k);
    }
    NothingYet(browser);
    EverIs(browser, events, s => LoopAt(s, k, Finished(Cancelled)), (s, e) => NoCode(s, e, k));
  }

  /** It throws exactly when the prompt broke, or the step-up request ended in anything but success and a wrong code. */
  lemma ThrewExactly(browser: bool, events: seq<Event>, k: nat)
    ensures LoopAt(Run(browser, events), k, Finished(Threw)) <==>
              exists j :: 0 <= j < |events| && LoopBreaks(Run(browser, events[..j]), events[j], k)
  {
    hide Step, Invariant, Run;
    forall s, e | Invariant(s)
      ensures LoopAt(Step(s, e), k, Finished(Threw)) <==> LoopAt(s, k, Finished(Threw)) || LoopBreaks(s, e, k)
    {
      LoopStep(s, e, k);
    }
    NothingYet(browser);
    EverIs(browser, events, s => LoopAt(s, k, Finished(Threw)), (s, e) => LoopBreaks(s, e, k));
  }

  /** It asks again, with an error, exactly since a code was rejected. */
  lemma AsksAgainExactly(browser: bool, events: seq<Event>, k: nat)
    ensures LoopAt(Run(browser, events), k, Prompting(true)) <==>
              exists j :: 0 <= j < |events| && CodeRejected(Run(browser, events[..j]), events[j], k) &&
                (forall l :: j < l < |events| ==> !PromptLeft(Run(browser, events[..l]), events[l], k))
  {
    hide Step, Invariant, Run;
    forall s, e | Invariant(s)
      ensures LoopAt(Step(s, e), k, Prompting(true)) <==>
              CodeRejected(s, e, k) || (LoopAt(s, k, Prompting(true)) && !PromptLeft(s, e, k))
    {
      LoopStep(s, e, k);
    }
    NothingYet(browser);
    var begins, ends := (s, e) => CodeRejected(s, e, k), (s, e) => PromptLeft(s, e, k);
    HoldsSince(browser, events, s => LoopAt(s, k, Prompting(true)), begins, ends);
    forall j | 0 <= j < |events|
      ensures Since(browser, events, begins, ends, j) <==>
              CodeRejected(Run(browser, events[..j]), events[j], k) &&
              (forall l :: j < l < |events| ==> !PromptLeft(Run(browser, events[..l]), events[l], k))
    {
    }
  }

  /** It asks without an error exactly since a request started it. */
  lemma AsksExactly(browser: bool, events: seq<Event>, k: nat)
    ensures LoopAt(Run(browser, events), k, Prompting(false)) <==>
              exists j :: 0 <= j < |events| && LoopStarts(Run(browser, events[..j]), events[j], k) &&
                (forall l :: j < l < |events| ==> !PromptLeft(Run(browser, events[..l]), events[l], k))
  {
    hide Step, Invariant, Run;
    forall s, e | Invariant(s)
      ensures LoopAt(Step(s, e), k, Prompting(false)) <==>
              LoopStarts(s, e, k) || (LoopAt(s, k, Prompting(false)) && !PromptLeft(s, e, k))
    {
      LoopStep(s, e, k);
    }
    NothingYet(browser);
    var begins, ends := (s, e) => LoopStarts(s, e, k), (s, e) => PromptLeft(s, e, k);
    HoldsSince(browser, events, s => LoopAt(s, k, Prompting(false)), begins, ends);
    forall j | 0 <= j < |events|
      ensures Since(browser, events, begins, ends, j) <==>
              LoopStarts(Run(browser, events[..j]), events[j], k) &&
              (forall l :: j < l < |events| ==> !PromptLeft(Run(browser, events[..l]), events[l], k))
    {
    }
  }

  /** Each code typed is one new request, which the loop waits for until it has ended. */
  lemma SubmitsExactly(browser: bool, events: seq<Event>, k: nat, q: nat)
    ensures LoopAt(Run(browser, events), k, Submitting(q)) <==>
              exists j :: 0 <= j < |events| && CodeSent(Run(browser, events[..j]), events[j], k, q) &&
                (forall l :: j < l < |events| ==> !CodeResult(Run(browser, events[..l]), events[l], k).Some?)
  {
    hide Step, Invariant, Run;
    forall s, e | Invariant(s)
      ensures LoopAt(Step(s, e), k, Submitting(q)) <==>
              CodeSent(s, e, k, q) || (LoopAt(s, k, Submitting(q)) && !CodeResult(s, e, k).Some?)
    {
      LoopStep(s, e, k);
    }
    NothingYet(browser);
    var begins, ends := (s, e) => CodeSent(s, e, k, q), (s, e) => CodeResult(s, e, k).Some?;
    HoldsSince(browser, events, s => LoopAt(s, k, Submitting(q)), begins, ends);
    forall j | 0 <= j < |events|
      ensures Since(browser, events, begins, ends, j) <==>
              CodeSent(Run(browser, events[..j]), events[j], k, q) &&
              (forall l :: j < l < |events| ==> !CodeResult(Run(browser, events[..l]), events[l], k).Some?)
    {
    }
  }

  // ---------------------------------------------------------------- requests

  /** A request is being sent exactly since it was made, or since its loop was granted. */
  lemma SendingExactly(browser: bool, events: seq<Event>, i: nat)
    ensures RequestAt(Run(browser, events), i, Sending) <==>
              exists j :: 0 <= j < |events| && Leaves(Run(browser, events[..j]), events[j], i) &&
                (forall l :: j < l < |events| ==> !Returns(Run(browser, events[..l]), events[l], i))
  {
    hide Step, Invariant, Run;
    forall s, e | Invariant(s)
      ensures RequestAt(Step(s, e), i, Sending) <==> Leaves(s, e, i) || (RequestAt(s, i, Sending) && !Returns(s, e, i))
    {
      RequestStep(s, e, i);
    }
    NothingYet(browser);
    var begins, ends := (s, e) => Leaves(s, e, i), (s, e) => Returns(s, e, i);
    HoldsSince(browser, events, s => RequestAt(s, i, Sending), begins, ends);
    forall j | 0 <= j < |events|
      ensures Since(browser, events, begins, ends, j) <==>
              Leaves(Run(browser, events[..j]), events[j], i) &&
              (forall l :: j < l < |events| ==> !Returns(Run(browser, events[..l]), events[l], i))
    {
    }
  }

  /** A body is read exactly since a good answer that has one. */
  lemma ReadingBodyExactly(browser: bool, events: seq<Event>, i: nat)
    ensures RequestAt(Run(browser, events), i, ReadingBody) <==>
              exists j :: 0 <= j < |events| && BodyComes(Run(browser, events[..j]), events[j], i) &&
                (forall l :: j < l < |events| ==> !BodyIsRead(events[l], i))
  {
    hide Step, Invariant, Run;
    forall s, e | Invariant(s)
      ensures RequestAt(Step(s, e), i, ReadingBody) <==>
              BodyComes(s, e, i) || (RequestAt(s, i, ReadingBody) && !BodyIsRead(e, i))
    {
      RequestStep(s, e, i);
    }
    NothingYet(browser);
    var begins, ends := (s, e) => BodyComes(s, e, i), (s, e) => BodyIsRead(e, i);
    HoldsSince(browser, events, s => RequestAt(s, i, ReadingBody), begins, ends);
    forall j | 0 <= j < |events|
      ensures Since(browser, events, begins, ends, j) <==>
              BodyComes(Run(browser, events[..j]), events[j], i) &&
              (forall l :: j < l < |events| ==> !BodyIsRead(events[l], i))
    {
    }
  }

  /** A session check is made exactly since a 401 from elsewhere than the session check, in a browser. */
  lemma CheckingExactly(browser: bool, events: seq<Event>, i: nat)
    ensures RequestAt(Run(browser, events), i, CheckingSession(401)) <==>
              exists j :: 0 <= j < |events| && CheckStarts(Run(browser, events[..j]), events[j], i) &&
                (forall l :: j < l < |events| ==> !CheckEnds(events[l], i))
  {
    hide Step, Invariant, Run;
    forall s, e | Invariant(s)
      ensures RequestAt(Step(s, e), i, CheckingSession(401)) <==>
              CheckStarts(s, e, i) || (RequestAt(s, i, CheckingSession(401)) && !CheckEnds(e, i))
    {
      RequestStep(s, e, i);
    }
    NothingYet(browser);
    var begins, ends := (s, e) => CheckStarts(s, e, i), (s, e) => CheckEnds(e, i);
    HoldsSince(browser, events, s => RequestAt(s, i, CheckingSession(401)), begins, ends);
    forall j | 0 <= j < |events|
      ensures Since(browser, events, begins, ends, j) <==>
              CheckStarts(Run(browser, events[..j]), events[j], i) &&
              (forall l :: j < l < |events| ==> !CheckEnds(events[l], i))
    {
    }
  }

  /** A refusal is read exactly since the answer or the session check, with the status of the answer. */
  lemma ReadingErrorExactly(browser: bool, events: seq<Event>, i: nat, status: nat)
    ensures RequestAt(Run(browser, events), i, ReadingError(status)) <==>
              exists j :: 0 <= j < |events| && RefusalComes(Run(browser, events[..j]), events[j], i, status) &&
                (forall l :: j < l < |events| ==> !RefusalIsRead(events[l], i))
  {
    hide Step, Invariant, Run;
    forall s, e | Invariant(s)
      ensures RequestAt(Step(s, e), i, ReadingError(status)) <==>
              RefusalComes(s, e, i, status) || (RequestAt(s, i, ReadingError(status)) && !RefusalIsRead(e, i))
    {
      RequestStep(s, e, i);
    }
    NothingYet(browser);
    var begins, ends := (s, e) => RefusalComes(s, e, i, status), (s, e) => RefusalIsRead(e, i);
    HoldsSince(browser, events, s => RequestAt(s, i, ReadingError(status)), begins, ends);
    forall j | 0 <= j < |events|
      ensures Since(browser, events, begins, ends, j) <==>
              RefusalComes(Run(browser, events[..j]), events[j], i, status) &&
              (forall l :: j < l < |events| ==> !RefusalIsRead(events[l], i))
    {
    }
  }

  /** A request waits exactly since it asked for a step-up, until its loop has ended. */
  lemma AwaitingExactly(browser: bool, events: seq<Event>, i: nat)
    ensures RequestAt(Run(browser, events), i, AwaitingStepUp(403, "STEP_UP_REQUIRED")) <==>
              exists j :: 0 <= j < |events| && StepUpAsked(Run(browser, events[..j]), events[j], i) &&
                (forall l :: j < l < |events| ==> !FreedSomehow(Run(browser, events[..l]), events[l], i))
  {
    hide Step, Invariant, Run;
    forall s, e | Invariant(s)
      ensures RequestAt(Step(s, e), i, AwaitingStepUp(403, "STEP_UP_REQUIRED")) <==>
              StepUpAsked(s, e, i) || (RequestAt(s, i, AwaitingStepUp(403, "STEP_UP_REQUIRED")) && !FreedSomehow(s, e, i))
    {
      RequestStep(s, e, i);
    }
    NothingYet(browser);
    var begins, ends := (s, e) => StepUpAsked(s, e, i), (s, e) => FreedSomehow(s, e, i);
    HoldsSince(browser, events, s => RequestAt(s, i, AwaitingStepUp(403, "STEP_UP_REQUIRED")), begins, ends);
    forall j | 0 <= j < |events|
      ensures Since(browser, events, begins, ends, j) <==>
              StepUpAsked(Run(browser, events[..j]), events[j], i) &&
              (forall l :: j < l < |events| ==> !FreedSomehow(Run(browser, events[..l]), events[l], i))
    {
    }
  }

  /** A request succeeds exactly by a good answer without a body, or with one that could be read. */
  lemma ResolvedExactly(browser: bool, events: seq<Event>, i: nat)
    ensures RequestAt(Run(browser, events), i, Done(Resolved)) <==>
              exists j :: 0 <= j < |events| && Succeeds(Run(browser, events[..j]), events[j], i)
  {
    hide Step, Invariant, Run;
    forall s, e | Invariant(s)
      ensures RequestAt(Step(s, e), i, Done(Resolved)) <==> RequestAt(s, i, Done(Resolved)) || Succeeds(s, e, i)
    {
      RequestStep(s, e, i);
    }
    NothingYet(browser);
    EverIs(browser, events, s => RequestAt(s, i, Done(Resolved)), (s, e) => Succeeds(s, e, i));
  }

  /** It fails exactly by the network, an unreadable body, or the breaking of the loop it waited for. */
  lemma FailedExactly(browser: bool, events: seq<Event>, i: nat)
    ensures RequestAt(Run(browser, events), i, Done(Failed)) <==>
              exists j :: 0 <= j < |events| && Fails(Run(browser, events[..j]), events[j], i)
  {
    hide Step, Invariant, Run;
    forall s, e | Invariant(s)
      ensures RequestAt(Step(s, e), i, Done(Failed)) <==> RequestAt(s, i, Done(Failed)) || Fails(s, e, i)
    {
      RequestStep(s, e, i);
    }
    NothingYet(browser);
    EverIs(browser, events, s => RequestAt(s, i, Done(Failed)), (s, e) => Fails(s, e, i));
  }

  /** It is refused exactly by a refusal that no step-up can help, or one whose step-up the operator cancelled. */
  lemma RefusedExactly(browser: bool, events: seq<Event>, i: nat, status: nat, code: string)
    ensures RequestAt(Run(browser, events), i, Done(Refused(status, code))) <==>
              exists j :: 0 <= j < |events| && Refuses(Run(browser, events[..j]), events[j], i, status, code)
  {
    hide Step, Invariant, Run;
    forall s, e | Invariant(s)
      ensures RequestAt(Step(s, e), i, Done(Refused(status, code))) <==>
              RequestAt(s, i, Done(Refused(status, code))) || Refuses(s, e, i, status, code)
    {
      RequestStep(s, e, i);
    }
    NothingYet(browser);
    EverIs(browser, events, s => RequestAt(s, i, Done(Refused(status, code))), (s, e) => Refuses(s, e, i, status, code));
  }

  /** It joins the loop in flight when it asks for a step-up, or the one it starts. */
  lemma JoinedExactly(browser: bool, events: seq<Event>, i: nat, k: nat)
    ensures Joins(Run(browser, events), i, k) <==>
              exists j :: 0 <= j < |events| && JoinsNow(Run(browser, events[..j]), events[j], i, k)
  {
    hide Step, Invariant, Run;
    forall s, e | Invariant(s)
      ensures Joins(Step(s, e), i, k) <==> Joins(s, i, k) || JoinsNow(s, e, i, k)
    {
      RequestStep(s, e, i);
      if StepUpAsked(s, e, i) {
        NotJoinedYet(s, i);
      }
    }
    NothingYet(browser);
    EverIs(browser, events, s => Joins(s, i, k), (s, e) => JoinsNow(s, e, i, k));
  }

  lemma NotJoinedYet(s: State, i: nat)
    requires Invariant(s) && i < |s.requests| && s.requests[i].phase.ReadingError? && !s.requests[i].noStepUp
    ensures s.requests[i].joined == None
  {
    assert RequestOk(s.requests[i], s.flights);
  }

  /** A prompt is there exactly since it was registered. */
  lemma RegisteredExactly(browser: bool, events: seq<Event>)
    ensures Run(browser, events).prompt <==>
              exists j :: 0 <= j < |events| && events[j] == SetPrompt(true) &&
                (forall l :: j < l < |events| ==> events[l] != SetPrompt(false))
  {
    hide Step, Invariant, Run;
    forall s, e | Invariant(s)
      ensures Step(s, e).prompt <==> e == SetPrompt(true) || (s.prompt && e != SetPrompt(false))
    {
      PromptStep(s, e);
    }
    assert !Run(browser, []).prompt by {
      NoPromptYet(browser);
    }
    var begins, ends := (s: State, e: Event) => e == SetPrompt(true), (s: State, e: Event) => e == SetPrompt(false);
    HoldsSince(browser, events, (s: State) => s.prompt, begins, ends);
    forall j | 0 <= j < |events|
      ensures Since(browser, events, begins, ends, j) <==>
              events[j] == SetPrompt(true) && (forall l :: j < l < |events| ==> events[l] != SetPrompt(false))
    {
    }
  }

  lemma PromptStep(s: State, e: Event)
    ensures Step(s, e).prompt <==> e == SetPrompt(true) || (s.prompt && e != SetPrompt(false))
  {
    hide IsMe;
  }

  lemma NoPromptYet(browser: bool)
    ensures !Run(browser, []).prompt
  {
  }

  /** It is sent a second time exactly when its loop was granted. */
  lemma SentTwiceExactly(browser: bool, events: seq<Event>, i: nat)
    ensures SentTwice(Run(browser, events), i) <==>
              exists j :: 0 <= j < |events| && Freed(Run(browser, events[..j]), events[j], i, Granted)
  {
    hide Step, Invariant, Run;
    forall s, e | Invariant(s)
      ensures SentTwice(Step(s, e), i) <==> SentTwice(s, i) || Freed(s, e, i, Granted)
    {
      RequestStep(s, e, i);
    }
    NothingYet(browser);
    EverIs(browser, events, s => SentTwice(s, i), (s, e) => Freed(s, e, i, Granted));
  }

  /** At some point of the run loop k took up the success of a step-up request it had sent. */
  ghost predicate StepUpSucceeded(browser: bool, events: seq<Event>, k: nat) {
    exists j :: 0 <= j < |events| && CodeResult(Run(browser, events[..j]), events[j], k) == Some(Resolved)
  }

  /** Every logical request is sent once or twice, and twice only after a step-up request of the loop it joined succeeded;
      a waiting request is never stranded: its loop is the one in flight, or its promise has settled. */
  lemma SentAtMostTwice(browser: bool, events: seq<Event>, i: nat)
    requires i < |Run(browser, events).requests|
    ensures var s := Run(browser, events);
            var r := s.requests[i];
            && 1 <= r.sends <= 2
            && (r.sends == 2 ==> r.joined.Some? && StepUpSucceeded(browser, events, r.joined.value))
            && (r.phase.AwaitingStepUp? ==> s.inFlight == r.joined || CanRelease(s, i))
  {
    hide Run, CodeResult;
    RunsKeep(browser, events);
    var s := Run(browser, events);
    assert RequestOk(s.requests[i], s.flights);
    if s.requests[i].joined.Some? {
      var k := s.requests[i].joined.value;
      assert FlightOk(k, s.flights[k], s.inFlight, s.requests);
      GrantedExactly(browser, events, k);
    }
  }
}
