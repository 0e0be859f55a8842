/**
 How a request client accounts for its calls (`hexeract-bus/src/call_observation.rs`,
 `request_client_counters.rs`, the call site in `request_client.rs`). Every atomic update of
 every concurrent call is one step, so the laws hold at each point of every interleaving.
 */
module Calls {
  import opened Bytes

  datatype Outcome =
    Succeeded | TimedOut | RemoteFailed | TransportFailed | Refused | PublicationUnknown | InvalidReply | Cancelled

  datatype Totals = Totals(
    succeeded: nat,
    timedOut: nat,
    remoteFailed: nat,
    transportFailed: nat,
    refused: nat,
    publicationUnknown: nat,
    invalidReply: nat,
    cancelled: nat)
  {
    function Sum(): nat {
      succeeded + timedOut + remoteFailed + transportFailed + refused + publicationUnknown + invalidReply + cancelled
    }

    function Of(o: Outcome): nat {
      match o
      case Succeeded => succeeded
      case TimedOut => timedOut
      case RemoteFailed => remoteFailed
      case TransportFailed => transportFailed
      case Refused => refused
      case PublicationUnknown => publicationUnknown
      case InvalidReply => invalidReply
      case Cancelled => cancelled
    }

    /** One leaf grows by one, the others stay. */
    function Count(o: Outcome): (r: Totals)
      ensures r.Sum() == Sum() + 1
      ensures forall other :: r.Of(other) == Of(other) + if other == o then 1 else 0
    {
      match o
      case Succeeded => this.(succeeded := succeeded + 1)
      case TimedOut => this.(timedOut := timedOut + 1)
      case RemoteFailed => this.(remoteFailed := remoteFailed + 1)
      case TransportFailed => this.(transportFailed := transportFailed + 1)
      case Refused => this.(refused := refused + 1)
      case PublicationUnknown => this.(publicationUnknown := publicationUnknown + 1)
      case InvalidReply => this.(invalidReply := invalidReply + 1)
      case Cancelled => this.(cancelled := cancelled + 1)
    }
  }

  // ---- One call's observation ----

  class RequestClientCounters {
    var started: nat
    var inFlight: int
    var totals: Totals

    constructor ()
      ensures started == 0 && inFlight == 0 && totals == Totals(0, 0, 0, 0, 0, 0, 0, 0)
    {
      started, inFlight, totals := 0, 0, Totals(0, 0, 0, 0, 0, 0, 0, 0);
    }
  }

  class CallObservation {
    const counters: RequestClientCounters
    var isAdmitted: bool
    var isFinished: bool

    constructor (counters: RequestClientCounters)
      modifies counters
      ensures this.counters == counters && !isAdmitted && !isFinished
      ensures counters.started == old(counters.started) + 1
      ensures counters.inFlight == old(counters.inFlight) && counters.totals == old(counters.totals)
    {
      this.counters, isAdmitted, isFinished := counters, false, false;
      new;
      counters.started := counters.started + 1;
    }

    method Admit()
      modifies this`isAdmitted, counters`inFlight
      ensures isAdmitted && counters.inFlight == old(counters.inFlight) + 1
    {
      isAdmitted := true;
      counters.inFlight := counters.inFlight + 1;
    }

    /** Count the outcome, then drop: the gauge comes down on the path shared with cancellation. */
    method Finish(outcome: Outcome)
      modifies this`isFinished, counters`totals, counters`inFlight
      ensures counters.totals == old(counters.totals).Count(outcome)
      ensures counters.inFlight == old(counters.inFlight) - if isAdmitted then 1 else 0
    {
      isFinished := true;
      counters.totals := counters.totals.Count(outcome);
      Drop();
    }

    method Drop()
      modifies counters`totals, counters`inFlight
      ensures counters.inFlight == old(counters.inFlight) - if isAdmitted then 1 else 0
      ensures counters.totals == if isFinished then old(counters.totals) else old(counters.totals).Count(Cancelled)
    {
      if isAdmitted {
        counters.inFlight := counters.inFlight - 1;
      }
      if !isFinished {
        counters.totals := counters.totals.Count(Cancelled);
      }
    }
  }

  /**
   A whole call, admitted or refused, finished or cancelled: one more started, one more in
   exactly one total, the gauge back where it was.
   */
  method ObserveCall(counters: RequestClientCounters, admitted: bool, result: Option<Outcome>)
    modifies counters
    ensures counters.started == old(counters.started) + 1 && counters.inFlight == old(counters.inFlight)
    ensures counters.totals == old(counters.totals).Count(if result.Some? then result.value else Cancelled)
  {
    var observation := new CallObservation(counters);
    if admitted {
      observation.Admit();
    }
    match result {
      case Some(outcome) => observation.Finish(outcome);
      case None => observation.Drop();
    }
  }

  // ---- Every interleaving ----

  /** `Finished` has counted its outcome and not yet dropped; `Unwinding` was dropped and has not yet counted. */
  datatype Phase = Live | Finished(outcome: Outcome) | Unwinding | Gone(outcome: Outcome)

  datatype Call = Call(phase: Phase, registered: bool, holdsSlot: bool, admitted: bool)

  datatype State = State(started: nat, inFlight: int, totals: Totals, calls: map<nat, Call>)

  datatype Step =
    | Start(id: nat)
    | Register(id: nat)
    | Admit(id: nat)
    | LoseSlot(id: nat)
    | Finish(id: nat, outcome: Outcome)
    | Drop(id: nat)
    | CountCancelled(id: nat)

  const IDLE := State(0, 0, Totals(0, 0, 0, 0, 0, 0, 0, 0), map[])

  // ---- What each total counts ----

  /** The call's observation has not been dropped. */
  predicate Observed(call: Call) {
    call.phase.Live? || call.phase.Finished?
  }

  function Slots(s: State): set<nat> {
    set id | id in s.calls && s.calls[id].holdsSlot
  }

  /** Admitted calls whose observation has not been dropped. */
  function Gauged(s: State): set<nat> {
    set id | id in s.calls && s.calls[id].admitted && Observed(s.calls[id])
  }

  function Uncounted(s: State): set<nat> {
    set id | id in s.calls && (s.calls[id].phase.Live? || s.calls[id].phase.Unwinding?)
  }

  function EndedWith(s: State, o: Outcome): set<nat> {
    set id | id in s.calls && Ended(s.calls[id], o)
  }

  predicate Ended(call: Call, o: Outcome) {
    call.phase == Finished(o) || call.phase == Gone(o)
  }

  // ---- Steps ----

  predicate InPhase(s: State, id: nat, phase: Phase) {
    id in s.calls && s.calls[id].phase == phase
  }

  predicate Enabled(max: nat, s: State, step: Step) {
    match step
    case Start(id) => id !in s.calls
    case Register(id) => InPhase(s, id, Live) && !s.calls[id].registered && |Slots(s)| < max
    case Admit(id) => InPhase(s, id, Live) && s.calls[id].registered && !s.calls[id].admitted
    case LoseSlot(id) => id in s.calls && s.calls[id].holdsSlot
    case Finish(id, _) => InPhase(s, id, Live) && s.calls[id].admitted == s.calls[id].registered
        && !s.calls[id].holdsSlot
    case Drop(id) => id in s.calls && Observed(s.calls[id])
    case CountCancelled(id) => InPhase(s, id, Unwinding)
  }

  function With(s: State, id: nat, call: Call): State {
    s.(calls := s.calls[id := call])
  }

  function Apply(max: nat, s: State, step: Step): State
    requires Enabled(max, s, step)
  {
    match step
    case Start(id) => With(s, id, Call(Live, false, false, false)).(started := s.started + 1)
    case Register(id) => With(s, id, s.calls[id].(registered := true, holdsSlot := true))
    case Admit(id) => With(s, id, s.calls[id].(admitted := true)).(inFlight := s.inFlight + 1)
    case LoseSlot(id) => With(s, id, s.calls[id].(holdsSlot := false))
    case Finish(id, o) => With(s, id, s.calls[id].(phase := Finished(o))).(totals := s.totals.Count(o))
    case Drop(id) =>
      var call := s.calls[id];
      With(s, id, call.(phase := if call.phase.Live? then Unwinding else Gone(call.phase.outcome)))
      .(inFlight := if call.admitted then s.inFlight - 1 else s.inFlight)
    case CountCancelled(id) => With(s, id, s.calls[id].(phase := Gone(Cancelled))).(totals := s.totals.Count(Cancelled))
  }

  function Most(steps: seq<Step>): seq<Step>
    requires steps != []
  {
    steps[..|steps| - 1]
  }

  function Last(steps: seq<Step>): Step
    requires steps != []
  {
    steps[|steps| - 1]
  }

  /** The state after the steps, one that is not enabled being skipped. */
  function Run(max: nat, steps: seq<Step>): State {
    if steps == [] then IDLE
    else
      var s := Run(max, Most(steps));
      if Enabled(max, s, Last(steps)) then Apply(max, s, Last(steps)) else s
  }

  predicate Enables(max: nat, steps: seq<Step>) {
    steps == [] || (Enables(max, Most(steps)) && Enabled(max, Run(max, Most(steps)), Last(steps)))
  }

  lemma Extend(max: nat, steps: seq<Step>, step: Step)
    requires Enables(max, steps) && Enabled(max, Run(max, steps), step)
    ensures Enables(max, steps + [step]) && Run(max, steps + [step]) == Apply(max, Run(max, steps), step)
  {
    assert Most(steps + [step]) == steps && Last(steps + [step]) == step;
  }

  // ---- Conservation ----

  predicate Started(s: State) {
    s.started == s.totals.Sum() + |Uncounted(s)|
  }

  predicate GaugeExact(s: State) {
    s.inFlight == |Gauged(s)|
  }

  ghost predicate LeavesExact(s: State) {
    forall o :: s.totals.Of(o) == |EndedWith(s, o)|
  }

  lemma StepKeepsStarted(max: nat, s: State, step: Step)
    requires Enabled(max, s, step) && Started(s)
    ensures Started(Apply(max, s, step))
  {
    var s' := Apply(max, s, step);
    var id := step.id;
    assert Uncounted(s') == if step.Start? then Uncounted(s) + {id} else if step.Finish? || step.CountCancelled?
        then Uncounted(s) - {id} else Uncounted(s);
  }

  lemma GaugedAfter(s: State, s': State, id: nat)
    requires id in s'.calls && s'.calls == s.calls[id := s'.calls[id]]
    ensures Gauged(s') == if s'.calls[id].admitted && Observed(s'.calls[id]) then Gauged(s) + {id} else Gauged(s) - {id}
  {
  }

  lemma StepKeepsGauge(max: nat, s: State, step: Step)
    requires Enabled(max, s, step) && GaugeExact(s)
    ensures GaugeExact(Apply(max, s, step))
  {
    GaugedAfter(s, Apply(max, s, step), step.id);
    assert step.id in Gauged(s) <==> step.id in s.calls && s.calls[step.id].admitted && Observed(s.calls[step.id]);
  }

  lemma EndedAfter(s: State, s': State, id: nat, o: Outcome)
    requires id in s'.calls && s'.calls == s.calls[id := s'.calls[id]]
    requires id in s.calls && Ended(s.calls[id], o) ==> Ended(s'.calls[id], o)
    ensures EndedWith(s', o) == if Ended(s'.calls[id], o) then EndedWith(s, o) + {id} else EndedWith(s, o)
  {
  }

  lemma StepKeepsLeaf(max: nat, s: State, step: Step, o: Outcome)
    requires Enabled(max, s, step) && s.totals.Of(o) == |EndedWith(s, o)|
    ensures Apply(max, s, step).totals.Of(o) == |EndedWith(Apply(max, s, step), o)|
  {
    var s' := Apply(max, s, step);
    match step
    case Finish(id, outcome) => OneEnds(s, s', id, outcome, o);
    case CountCancelled(id) => OneEnds(s, s', id, Cancelled, o);
    case _ => NoneEnds(s, s', step.id, o);
  }

  lemma OneEnds(s: State, s': State, id: nat, ended: Outcome, o: Outcome)
    requires id in s.calls && id in s'.calls && s'.calls == s.calls[id := s'.calls[id]]
    requires (s.calls[id].phase.Live? || s.calls[id].phase.Unwinding?) && Ended(s'.calls[id], ended)
    ensures |EndedWith(s', o)| == |EndedWith(s, o)| + if o == ended then 1 else 0
  {
    assert Ended(s'.calls[id], o) <==> o == ended;
    assert !Ended(s.calls[id], o);
    EndedAfter(s, s', id, o);
    NewMember(EndedWith(s, o), id);
  }

  lemma NewMember(a: set<nat>, id: nat)
    requires id !in a
    ensures |a + {id}| == |a| + 1
  {
  }

  lemma NoneEnds(s: State, s': State, id: nat, o: Outcome)
    requires id in s'.calls && s'.calls == s.calls[id := s'.calls[id]]
    requires Ended(s'.calls[id], o) <==> id in s.calls && Ended(s.calls[id], o)
    ensures EndedWith(s', o) == EndedWith(s, o)
  {
    EndedAfter(s, s', id, o);
  }

  lemma {:induction false} RunStarted(max: nat, steps: seq<Step>)
    requires Enables(max, steps)
    ensures Started(Run(max, steps))
  {
    if steps == [] {
      assert Uncounted(IDLE) == {};
    } else {
      RunStarted(max, Most(steps));
      StepKeepsStarted(max, Run(max, Most(steps)), Last(steps));
    }
  }

  lemma {:induction false} RunGauge(max: nat, steps: seq<Step>)
    requires Enables(max, steps)
    ensures GaugeExact(Run(max, steps))
  {
    if steps == [] {
      assert Gauged(IDLE) == {};
    } else {
      RunGauge(max, Most(steps));
      StepKeepsGauge(max, Run(max, Most(steps)), Last(steps));
    }
  }

  lemma {:induction false} RunLeaf(max: nat, steps: seq<Step>, o: Outcome)
    requires Enables(max, steps)
    ensures Run(max, steps).totals.Of(o) == |EndedWith(Run(max, steps), o)|
  {
    if steps == [] {
      assert EndedWith(IDLE, o) == {};
    } else {
      RunLeaf(max, Most(steps), o);
      StepKeepsLeaf(max, Run(max, Most(steps)), Last(steps), o);
    }
  }

  /**
   At every point of every interleaving: the calls started are the eight outcome totals plus
   the calls whose outcome is still open, each total counts exactly the calls that ended
   that way, and the gauge counts exactly the admitted calls not yet let go.
   */
  lemma CallAccounting(max: nat, steps: seq<Step>)
    requires Enables(max, steps)
    ensures var s := Run(max, steps); Started(s) && GaugeExact(s) && LeavesExact(s)
  {
    RunStarted(max, steps);
    RunGauge(max, steps);
    forall o
      ensures Run(max, steps).totals.Of(o) == |EndedWith(Run(max, steps), o)|
    {
      RunLeaf(max, steps, o);
    }
  }

  /** Once every call is gone the gauge is back to zero and the eight totals add up to the calls started. */
  lemma AtRest(max: nat, steps: seq<Step>)
    requires Enables(max, steps)
    requires var s := Run(max, steps); forall id :: id in s.calls ==> s.calls[id].phase.Gone?
    ensures var s := Run(max, steps); s.inFlight == 0 && s.started == s.totals.Sum()
  {
    CallAccounting(max, steps);
    var s := Run(max, steps);
    assert Uncounted(s) == {} && Gauged(s) == {};
  }

  // ---- The gauge against `max_in_flight` ----

  lemma {:induction false} SlotsBounded(max: nat, steps: seq<Step>)
    requires Enables(max, steps)
    ensures |Slots(Run(max, steps))| <= max
  {
    if steps == [] {
      assert Slots(IDLE) == {};
    } else {
      SlotsBounded(max, Most(steps));
      SlotsAfter(max, Run(max, Most(steps)), Last(steps));
    }
  }

  lemma SlotsAfter(max: nat, s: State, step: Step)
    requires Enabled(max, s, step)
    ensures Slots(Apply(max, s, step))
         == if step.Register? then Slots(s) + {step.id} else if step.LoseSlot? then Slots(s) - {step.id} else Slots(s)
  {
  }

  lemma SubsetSize(a: set<nat>, b: set<nat>)
    requires a <= b
    ensures |a| <= |b|
  {
    assert b == a + (b - a);
  }

  /** The gauge exceeds the bound by at most the calls whose slot is gone and whose gauge is still up. */
  lemma GaugeOverrun(max: nat, steps: seq<Step>)
    requires Enables(max, steps)
    ensures var s := Run(max, steps); s.inFlight <= max + |Gauged(s) - Slots(s)|
  {
    CallAccounting(max, steps);
    SlotsBounded(max, steps);
    var s := Run(max, steps);
    assert |Gauged(s)| == |Gauged(s) - Slots(s)| + |Gauged(s) * Slots(s)|;
    SubsetSize(Gauged(s) * Slots(s), Slots(s));
  }

  /** Calls started and not yet let go of by their caller's task. */
  function Concurrent(s: State): set<nat> {
    set id | id in s.calls && Observed(s.calls[id])
  }

  /** At no point of the run were more than `k` calls under way. */
  predicate AtMost(max: nat, steps: seq<Step>, k: nat) {
    |Concurrent(Run(max, steps))| <= k && (steps == [] || AtMost(max, Most(steps), k))
  }

  lemma AtMostExtend(max: nat, steps: seq<Step>, step: Step, k: nat)
    requires Enables(max, steps) && Enabled(max, Run(max, steps), step) && AtMost(max, steps, k)
    requires |Concurrent(Apply(max, Run(max, steps), step))| <= k
    ensures AtMost(max, steps + [step], k)
  {
    Extend(max, steps, step);
    assert Most(steps + [step]) == steps;
  }

  /** `n` calls under way, all without a slot and with their gauges up. */
  predicate Detached(s: State, n: nat) {
    && (forall id :: id in s.calls ==> id < n)
    && Slots(s) == {} && |Concurrent(s)| == n
    && s.inFlight == n
  }

  lemma ConcurrentAfter(max: nat, s: State, step: Step)
    requires Enabled(max, s, step)
    ensures Concurrent(Apply(max, s, step))
         == if step.Start? then Concurrent(s) + {step.id} else if step.Drop? then Concurrent(s) - {step.id}
             else Concurrent(s)
  {
  }

  lemma ExtendWithin(max: nat, steps: seq<Step>, step: Step, k: nat) returns (longer: seq<Step>)
    requires Enables(max, steps) && AtMost(max, steps, k) && Enabled(max, Run(max, steps), step)
    requires step.Start? ==> |Concurrent(Run(max, steps))| < k
    ensures Enables(max, longer) && AtMost(max, longer, k) && Run(max, longer) == Apply(max, Run(max, steps), step)
  {
    ConcurrentAfter(max, Run(max, steps), step);
    Extend(max, steps, step);
    AtMostExtend(max, steps, step, k);
    longer := steps + [step];
  }

  /** One more call admitted, answered, and not yet back in its task. */
  lemma DetachOne(max: nat, steps: seq<Step>, n: nat, k: nat) returns (longer: seq<Step>)
    requires max >= 1 && n < k && Enables(max, steps) && AtMost(max, steps, k) && Detached(Run(max, steps), n)
    ensures Enables(max, longer) && AtMost(max, longer, k) && Detached(Run(max, longer), n + 1)
  {
    var s := Run(max, steps);
    SlotsAfter(max, s, Start(n));
    ConcurrentAfter(max, s, Start(n));
    longer := ExtendWithin(max, steps, Start(n), k);
    longer := AdmitAndDetach(max, longer, n, k);
  }

  lemma AdmitAndDetach(max: nat, steps: seq<Step>, n: nat, k: nat) returns (longer: seq<Step>)
    requires max >= 1 && Enables(max, steps) && AtMost(max, steps, k) && Slots(Run(max, steps)) == {}
    requires n in Run(max, steps).calls && Run(max, steps).calls[n] == Call(Live, false, false, false)
    ensures Enables(max, longer) && AtMost(max, longer, k) && Slots(Run(max, longer)) == {}
    ensures Run(max, longer).inFlight == Run(max, steps).inFlight + 1 && Run(max, longer).calls.Keys
            == Run(max, steps).calls.Keys
    ensures Concurrent(Run(max, longer)) == Concurrent(Run(max, steps))
  {
    var s := Run(max, steps);
    var registered := Apply(max, s, Register(n));
    var admitted := Apply(max, registered, Admit(n));
    SlotsAfter(max, s, Register(n));
    SlotsAfter(max, registered, Admit(n));
    SlotsAfter(max, admitted, LoseSlot(n));
    ConcurrentAfter(max, s, Register(n));
    ConcurrentAfter(max, registered, Admit(n));
    ConcurrentAfter(max, admitted, LoseSlot(n));
    longer := ExtendWithin(max, steps, Register(n), k);
    longer := ExtendWithin(max, longer, Admit(n), k);
    longer := ExtendWithin(max, longer, LoseSlot(n), k);
  }

  /** Whatever the bound, `n` calls under way can raise the gauge to `n`. */
  lemma {:induction false} GaugeReaches(max: nat, n: nat, k: nat) returns (steps: seq<Step>)
    requires max >= 1 && n <= k
    ensures Enables(max, steps) && AtMost(max, steps, k) && Run(max, steps).inFlight == n
            && Detached(Run(max, steps), n)
  {
    if n == 0 {
      assert Slots(IDLE) == {} && Concurrent(IDLE) == {};
      return [];
    }
    steps := GaugeReaches(max, n - 1, k);
    steps := DetachOne(max, steps, n - 1, k);
  }

  predicate WithinBound(max: nat, steps: seq<Step>, k: nat) {
    Enables(max, steps) && AtMost(max, steps, k) ==> Run(max, steps).inFlight <= max
  }

  /**
   The gauge stays within `max_in_flight` in every run of at most `k` calls at a time exactly
   when that many calls would fit anyway. A slot is let go before its call's gauge is down, so
   the bound of the registry does not bound the gauge.
   */
  lemma GaugeBound(max: nat, k: nat)
    ensures (forall steps :: WithinBound(max, steps, k)) <==> k <= max || max == 0
  {
    if max >= 1 && k > max {
      var steps := GaugeReaches(max, max + 1, k);
      assert !WithinBound(max, steps, k);
    } else {
      forall steps
        ensures WithinBound(max, steps, k)
      {
        if Enables(max, steps) && AtMost(max, steps, k) {
          CallAccounting(max, steps);
          SubsetSize(Gauged(Run(max, steps)), Concurrent(Run(max, steps)));
          if max == 0 {
            NothingAdmitted(steps);
          }
        }
      }
    }
  }

  lemma {:induction false} NothingAdmitted(steps: seq<Step>)
    requires Enables(0, steps)
    ensures Run(0, steps).inFlight == 0
    ensures forall id :: id in Run(0, steps).calls ==> !Run(0, steps).calls[id].registered
    ensures forall id :: id in Run(0, steps).calls ==> !Run(0, steps).calls[id].admitted
  {
    if steps != [] {
      NothingAdmitted(Most(steps));
    }
  }
}
