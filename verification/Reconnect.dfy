/**
 The reply-inbox reconnect protocol (`hexeract-bus-rabbitmq/src/request_client.rs`,
 `hexeract-bus/src/reply_inbox_state.rs`, `request_client.rs`): one supervisor and any
 number of callers sharing a slot table and an inbox state, until the client stops.

 The three orders the protocol depends on are parameters, so that the safety theorem can say
 that all are needed. Two are the code's own; the third, closing the registry before the
 token is cancelled, is what `close` and the last drop do and a caller's own token may not.
 */
module Reconnect {

  type CallId = nat

  /** Each declared inbox is server-named, hence never reused: a generation number. */
  datatype InboxState = Ready(inbox: nat) | Reconnecting

  datatype Supervisor =
    | Serving(inbox: nat)   // consuming the inbox
    | Lost(inbox: nat)      // observed the loss of its connection
    | HalfDone(inbox: nat)  // one of mark and drain has run
    | Drained               // both have run; reconnecting
    | Declared(inbox: nat)  // declared a fresh inbox, not yet published
    | Stopped

  datatype Caller = Registered | HasRead(inbox: nat) | Waiting(inbox: nat) | Left

  datatype State = State(
    inbox: InboxState,
    supervisor: Supervisor,
    slots: set<CallId>,
    callers: map<CallId, Caller>,
    nextInbox: nat,
    closed: bool,
    cancelled: bool)

  /**
   `markFirst`: the supervisor marks before it drains. `registerFirst`: a caller registers
   before it reads. `closeFirst`: the token is cancelled only after the registry was closed.
   */
  datatype Design = Design(markFirst: bool, registerFirst: bool, closeFirst: bool)

  const SOUND := Design(true, true, true)

  datatype Step =
    | Begin(id: CallId) | Proceed(id: CallId) | Leave(id: CallId)
    | Observe | FirstHalf | SecondHalf | Declare | Publish
    | Close | Cancel | Stop

  function Marked(s: State): State {
    s.(inbox := Reconnecting)
  }

  function WithoutSlots(s: State): State {
    s.(slots := {})
  }

  /** A registration, which a closed registry refuses. */
  function WithRegistered(s: State, id: CallId, c: Caller): State {
    if s.closed then Gone(s, id) else s.(slots := s.slots + {id}, callers := s.callers[id := c])
  }

  /** The call ended, whatever the reason: its slot is gone. */
  function Gone(s: State, id: CallId): State {
    s.(slots := s.slots - {id}, callers := s.callers[id := Left])
  }

  predicate Enabled(d: Design, s: State, step: Step) {
    match step
    case Begin(id) => id !in s.callers
    case Proceed(id) => id in s.callers
        && (if d.registerFirst then s.callers[id].Registered? else s.callers[id].HasRead?)
    case Leave(id) => id in s.callers
    case Observe => s.supervisor.Serving?
    case FirstHalf => s.supervisor.Lost?
    case SecondHalf => s.supervisor.HalfDone?
    case Declare => s.supervisor.Drained?
    case Publish => s.supervisor.Declared?
    case Close => true
    case Cancel => d.closeFirst ==> s.closed
    case Stop => s.cancelled && (s.supervisor.Serving? || s.supervisor.Lost? || s.supervisor.Drained?)
  }

  function Apply(d: Design, s: State, step: Step): State
    requires Enabled(d, s, step)
  {
    match step
    case Begin(id) =>
      if d.registerFirst then WithRegistered(s, id, Registered)
      else if s.inbox.Ready? then s.(callers := s.callers[id := HasRead(s.inbox.inbox)]) else Gone(s, id)
    case Proceed(id) =>
      if !d.registerFirst then WithRegistered(s, id, Waiting(s.callers[id].inbox))
      else if s.inbox.Ready? then s.(callers := s.callers[id := Waiting(s.inbox.inbox)]) else Gone(s, id)
    case Leave(id) => Gone(s, id)
    case Observe => s.(supervisor := Lost(s.supervisor.inbox))
    case FirstHalf => (if d.markFirst then Marked(s) else WithoutSlots(s)).(supervisor := HalfDone(s.supervisor.inbox))
    case SecondHalf => (if d.markFirst then WithoutSlots(s) else Marked(s)).(supervisor := Drained)
    case Declare => s.(supervisor := Declared(s.nextInbox), nextInbox := s.nextInbox + 1)
    case Publish => s.(supervisor := Serving(s.supervisor.inbox), inbox := Ready(s.supervisor.inbox))
    case Close => WithoutSlots(s).(closed := true)
    case Cancel => s.(cancelled := true)
    case Stop => s.(supervisor := Stopped)
  }

  /** A client just built: inbox 0 declared and served, no call yet. */
  const INITIAL := State(Ready(0), Serving(0), {}, map[], 1, false, false)

  function Most(steps: seq<Step>): seq<Step>
    requires steps != []
  {
    steps[..|steps| - 1]
  }

  function Last(steps: seq<Step>): Step
    requires steps != []
  {
    steps[|steps| - 1]
  }

  /** The state after the steps, one that is not enabled being skipped. */
  function Run(d: Design, steps: seq<Step>): State {
    if steps == [] then INITIAL
    else
      var s := Run(d, Most(steps));
      if Enabled(d, s, Last(steps)) then Apply(d, s, Last(steps)) else s
  }

  predicate Enables(d: Design, steps: seq<Step>) {
    steps == [] || (Enables(d, Most(steps)) && Enabled(d, Run(d, Most(steps)), Last(steps)))
  }

  lemma Extend(d: Design, steps: seq<Step>, step: Step)
    requires Enables(d, steps) && Enabled(d, Run(d, steps), step)
    ensures Enables(d, steps + [step]) && Run(d, steps + [step]) == Apply(d, Run(d, steps), step)
  {
    assert Most(steps + [step]) == steps && Last(steps + [step]) == step;
  }

  // ---- Safety ----

  /** A call whose slot is still in the table and which waits for a reply on `inbox`. */
  predicate WaitsOn(s: State, id: CallId, inbox: nat) {
    id in s.slots && id in s.callers && s.callers[id] == Waiting(inbox)
  }

  ghost predicate NobodyWaits(s: State) {
    forall id, inbox :: !WaitsOn(s, id, inbox)
  }

  ghost predicate AllWaitOn(s: State, inbox: nat) {
    forall id, other :: WaitsOn(s, id, other) ==> other == inbox
  }

  /**
   Once a drain has run, no registered caller waits on an inbox of an earlier connection;
   until a fresh inbox is published every read fails fast; and once the supervisor has
   stopped, and nothing will answer any more, nobody waits at all.
   */
  ghost predicate Safe(s: State) {
    match s.supervisor
    case Serving(inbox) => s.inbox == Ready(inbox) && AllWaitOn(s, inbox)
    case Drained => s.inbox == Reconnecting && NobodyWaits(s)
    case Declared(_) => s.inbox == Reconnecting && NobodyWaits(s)
    case Stopped => NobodyWaits(s)
    case _ => true
  }

  /** What every interleaving keeps when the three orders hold. */
  ghost predicate Inv(s: State) {
    && Safe(s)
    && (forall id :: id in s.slots ==> id in s.callers)
    && (forall id :: id in s.callers ==> !s.callers[id].HasRead?)
    && (s.closed ==> s.slots == {}) && (s.cancelled ==> s.closed) && (s.supervisor.Stopped? ==> s.cancelled)
    && (match s.supervisor
        case Lost(inbox) => s.inbox == Ready(inbox) && AllWaitOn(s, inbox)
        case HalfDone(inbox) => s.inbox == Reconnecting && AllWaitOn(s, inbox)
        case _ => true)
  }

  lemma StepKeepsInv(s: State, step: Step)
    requires Inv(s) && Enabled(SOUND, s, step)
    ensures Inv(Apply(SOUND, s, step))
  {
    var t := Apply(SOUND, s, step);
    assert forall id, inbox :: WaitsOn(t, id, inbox) ==>
        WaitsOn(s, id, inbox) || (step == Proceed(id) && s.inbox == Ready(inbox) && id in s.slots);
  }

  lemma {:induction false} RunKeepsInv(steps: seq<Step>)
    requires Enables(SOUND, steps)
    ensures Inv(Run(SOUND, steps))
  {
    if steps != [] {
      RunKeepsInv(Most(steps));
      StepKeepsInv(Run(SOUND, Most(steps)), Last(steps));
    }
  }

  /** From the mark to the next `Ready`, a caller that reads the state fails at once and leaves no slot behind. */
  lemma ReadsFailFast(steps: seq<Step>, id: CallId)
    requires Enables(SOUND, steps) && Enabled(SOUND, Run(SOUND, steps), Proceed(id))
    requires var s := Run(SOUND, steps); s.supervisor.HalfDone? || s.supervisor.Drained? || s.supervisor.Declared?
    ensures var t := Apply(SOUND, Run(SOUND, steps), Proceed(id)); id !in t.slots && t.callers[id] == Left
  {
    RunKeepsInv(steps);
  }

  /** A call that has left holds no slot. */
  ghost predicate NoneLeftBehind(s: State) {
    forall id :: id in s.slots ==> id in s.callers && (s.callers[id].Registered? || s.callers[id].Waiting?)
  }

  lemma StepLeavesNone(d: Design, s: State, step: Step)
    requires Enabled(d, s, step) && NoneLeftBehind(s)
    ensures NoneLeftBehind(Apply(d, s, step))
  {
  }

  lemma {:induction false} RunLeavesNone(d: Design, steps: seq<Step>)
    requires Enables(d, steps)
    ensures NoneLeftBehind(Run(d, steps))
  {
    if steps != [] {
      RunLeavesNone(d, Most(steps));
      StepLeavesNone(d, Run(d, Most(steps)), Last(steps));
    }
  }

  /** In every interleaving only a call under way holds a slot, and one that leaves gives it up. */
  lemma LeavingFreesTheSlot(d: Design, steps: seq<Step>, id: CallId)
    requires Enables(d, steps) && Enabled(d, Run(d, steps), Leave(id))
    ensures NoneLeftBehind(Run(d, steps))
    ensures var s := Apply(d, Run(d, steps), Leave(id)); s.callers[id] == Left && id !in s.slots
  {
    RunLeavesNone(d, steps);
  }

  lemma LeftForGood(d: Design, s: State, id: CallId, step: Step)
    requires id in s.callers && s.callers[id] == Left && Enabled(d, s, step)
    ensures id in Apply(d, s, step).callers && Apply(d, s, step).callers[id] == Left
  {
  }

  // ---- Inboxes are never reused ----

  /** Every inbox anybody has heard of was declared. */
  ghost predicate InboxesDeclared(s: State) {
    && (s.inbox.Ready? ==> s.inbox.inbox < s.nextInbox)
    && (s.supervisor.Serving? || s.supervisor.Declared? ==> s.supervisor.inbox < s.nextInbox)
    && forall id :: id in s.callers && (s.callers[id].HasRead? || s.callers[id].Waiting?)
                    ==> s.callers[id].inbox < s.nextInbox
  }

  lemma StepKeepsDeclared(d: Design, s: State, step: Step)
    requires InboxesDeclared(s) && Enabled(d, s, step)
    ensures InboxesDeclared(Apply(d, s, step))
  {
  }

  lemma {:induction false} RunKeepsDeclared(d: Design, steps: seq<Step>)
    requires Enables(d, steps)
    ensures InboxesDeclared(Run(d, steps))
  {
    if steps != [] {
      RunKeepsDeclared(d, Most(steps));
      StepKeepsDeclared(d, Run(d, Most(steps)), Last(steps));
    }
  }

  /** An inbox declared after a loss is one no caller has read, and calls made once it is published wait on it. */
  lemma FreshInboxServes(steps: seq<Step>, id: CallId)
    requires Enables(SOUND, steps) && Run(SOUND, steps).supervisor.Drained? && id !in Run(SOUND, steps).callers
    ensures var s := Run(SOUND, steps);
            var declared := Apply(SOUND, s, Declare);
            var serving := Apply(SOUND, declared, Publish);
            && (forall c :: c in s.callers ==> s.callers[c] != Waiting(declared.supervisor.inbox))
            && serving.supervisor == Serving(declared.supervisor.inbox)
            && (!s.closed ==>
                  var called := Apply(SOUND, Apply(SOUND, serving, Begin(id)), Proceed(id));
                  WaitsOn(called, id, declared.supervisor.inbox))
  {
    RunKeepsDeclared(SOUND, steps);
  }

  /** What a supervisor has left to do before it notices a cancelled token. */
  function LastWords(s: Supervisor): seq<Step> {
    match s
    case HalfDone(_) => [SecondHalf]
    case Declared(_) => [Publish]
    case _ => []
  }

  /** Once the token is cancelled the supervisor can stop, whatever it was doing, after at most one more step. */
  lemma CancelledClientStops(d: Design, steps: seq<Step>)
    requires Enables(d, steps) && Run(d, steps).cancelled && !Run(d, steps).supervisor.Stopped?
    ensures var more := LastWords(Run(d, steps).supervisor);
            && |more| <= 1 && Enables(d, steps + more + [Stop])
            && Run(d, steps + more + [Stop]).supervisor.Stopped?
  {
    var more := LastWords(Run(d, steps).supervisor);
    if more == [] {
      assert steps + more == steps;
    } else {
      Extend(d, steps, more[0]);
    }
    Extend(d, steps + more, Stop);
  }

  // ---- Each order is needed ----

  ghost predicate Reaches(d: Design, steps: seq<Step>, s: State) {
    Enables(d, steps) && Run(d, steps) == s
  }

  lemma ReachNext(d: Design, steps: seq<Step>, s: State, step: Step)
    requires Reaches(d, steps, s) && Enabled(d, s, step)
    ensures Reaches(d, steps + [step], Apply(d, s, step))
  {
    Extend(d, steps, step);
  }

  lemma ReachFirst(d: Design, step: Step)
    requires Enabled(d, INITIAL, step)
    ensures Reaches(d, [step], Apply(d, INITIAL, step))
  {
    ReachNext(d, [], INITIAL, step);
    assert [] + [step] == [step];
  }

  ghost predicate Strands(d: Design, steps: seq<Step>) {
    Enables(d, steps) && !Safe(Run(d, steps))
  }

  /** A caller that registers and reads the old inbox between the drain and the mark. */
  lemma DrainFirstIsUnsafe(d: Design)
    requires !d.markFirst && d.registerFirst
    ensures Strands(d, [Observe] + [FirstHalf] + [Begin(0)] + [Proceed(0)] + [SecondHalf])
  {
    ReachFirst(d, Observe);
    var s0 := Apply(d, INITIAL, Observe);
    ReachNext(d, [Observe], s0, FirstHalf);
    var s1 := Apply(d, s0, FirstHalf);
    ReachNext(d, [Observe] + [FirstHalf], s1, Begin(0));
    var s2 := Apply(d, s1, Begin(0));
    ReachNext(d, [Observe] + [FirstHalf] + [Begin(0)], s2, Proceed(0));
    var s3 := Apply(d, s2, Proceed(0));
    ReachNext(d, [Observe] + [FirstHalf] + [Begin(0)] + [Proceed(0)], s3, SecondHalf);
    var s4 := Apply(d, s3, SecondHalf);
    assert WaitsOn(s4, 0, 0);
  }

  /** A caller that reads the inbox, and registers only after mark and drain have both passed. */
  lemma ReadFirstIsUnsafe(d: Design)
    requires !d.registerFirst
    ensures Strands(d, [Begin(0)] + [Observe] + [FirstHalf] + [SecondHalf] + [Proceed(0)])
  {
    ReachFirst(d, Begin(0));
    var s0 := Apply(d, INITIAL, Begin(0));
    ReachNext(d, [Begin(0)], s0, Observe);
    var s1 := Apply(d, s0, Observe);
    ReachNext(d, [Begin(0)] + [Observe], s1, FirstHalf);
    var s2 := Apply(d, s1, FirstHalf);
    ReachNext(d, [Begin(0)] + [Observe] + [FirstHalf], s2, SecondHalf);
    var s3 := Apply(d, s2, SecondHalf);
    ReachNext(d, [Begin(0)] + [Observe] + [FirstHalf] + [SecondHalf], s3, Proceed(0));
    var s4 := Apply(d, s3, Proceed(0));
    assert WaitsOn(s4, 0, 0);
  }

  /** A token cancelled on its own stops the supervisor under a call in flight. */
  lemma CancelFirstIsUnsafe(d: Design)
    requires d.registerFirst && !d.closeFirst
    ensures Strands(d, [Begin(0)] + [Proceed(0)] + [Cancel] + [Stop])
  {
    ReachFirst(d, Begin(0));
    var s0 := Apply(d, INITIAL, Begin(0));
    ReachNext(d, [Begin(0)], s0, Proceed(0));
    var s1 := Apply(d, s0, Proceed(0));
    ReachNext(d, [Begin(0)] + [Proceed(0)], s1, Cancel);
    var s2 := Apply(d, s1, Cancel);
    ReachNext(d, [Begin(0)] + [Proceed(0)] + [Cancel], s2, Stop);
    var s3 := Apply(d, s2, Stop);
    assert WaitsOn(s3, 0, 0);
  }

  /** And every later call still registers, reads the old inbox and waits on it. */
  lemma CallsAfterCancelAreStranded(d: Design)
    requires d.registerFirst && !d.closeFirst
    ensures Strands(d, [Cancel] + [Stop] + [Begin(0)] + [Proceed(0)])
  {
    ReachFirst(d, Cancel);
    var s0 := Apply(d, INITIAL, Cancel);
    ReachNext(d, [Cancel], s0, Stop);
    var s1 := Apply(d, s0, Stop);
    ReachNext(d, [Cancel] + [Stop], s1, Begin(0));
    var s2 := Apply(d, s1, Begin(0));
    ReachNext(d, [Cancel] + [Stop] + [Begin(0)], s2, Proceed(0));
    var s3 := Apply(d, s2, Proceed(0));
    assert WaitsOn(s3, 0, 0);
  }

  /**
   Reconnect safety: every interleaving is safe exactly when the supervisor marks first,
   callers register first, and the token is cancelled only after the registry was closed.
   */
  lemma ReconnectSafety(d: Design)
    ensures (forall steps: seq<Step> :: !Strands(d, steps)) <==> d.markFirst && d.registerFirst && d.closeFirst
  {
    if d.markFirst && d.registerFirst && d.closeFirst {
      assert d == SOUND;
      forall steps: seq<Step>
        ensures !Strands(d, steps)
      {
        if Enables(d, steps) {
          RunKeepsInv(steps);
        }
      }
    } else if !d.registerFirst {
      ReadFirstIsUnsafe(d);
    } else if !d.markFirst {
      DrainFirstIsUnsafe(d);
    } else {
      CancelFirstIsUnsafe(d);
    }
  }
}
