/**
 A broker and any number of Manual-mode workers, step by step: publishing, delivery,
 dispatch, republishing, settling, expiry in the wait queue, and channels closing at any
 moment. Every broker answer a worker may see is a choice of the step.
 */
module Broker {
  import opened Bytes
  import opened Envelopes
  import opened Amqp
  import opened Wire
  import opened Worker
  import opened Retries

  /**
   One worker configuration against one broker: what the broker stamps on an expired message,
   what the envelope verifier says of an envelope and the routing key it arrived on, and the
   message types a handler is registered for.
   */
  datatype System = System(
    cfg: Config,
    f: UuidFormat,
    platform: Platform,
    expiry: Expiry,
    verify: (Envelope, Text) -> Result<Option<Text>, SecurityFault>,
    handlers: set<Text>)
  {
    ghost predicate Valid() {
      && cfg.Valid() && cfg.ackMode.Manual? && f.Lawful() && expiry.Lawful()
      && (cfg.hasSecurity ==> JudgesUnsigned()) && (!cfg.hasSecurity ==> cfg.required.Lenient?)
    }

    /** Unsigned envelopes are a matter of policy alone, and the policy also decides which fields decoding requires. */
    ghost predicate JudgesUnsigned() {
      forall e, destination ::
        Header(e, SIGNATURE_HEADER).None?
        ==> verify(e, destination) == if cfg.required.Strict? then Err(MissingSignature) else Ok(None)
    }

    /** What decoding a delivery may return, having minted `minted` where it had to. */
    ghost predicate Decodes(d: Delivery, minted: Minted, r: Result<Envelope, BusError>) {
      DecodesTo(f, platform, d.props, d.body, cfg.maxPayload, cfg.limits, cfg.required, minted, r)
    }

    /** What a dispatch of this delivery may learn: only the handler's result and the broker's answers are free. */
    ghost predicate Learns(d: Delivery, minted: Minted, o: Oracle) {
      && Decodes(d, minted, o.decoded)
      && (o.decoded.Ok? ==>
            && o.verification == verify(o.decoded.value, d.destination)
            && (o.handler.NoHandler? <==> o.decoded.value.messageType !in handlers))
    }
  }

  /** A message, the publish it comes from, and how many times it went through the wait queue. */
  datatype Message = Message(origin: nat, cycles: nat, content: Delivery)

  /** How far a worker got with a delivery, and what it learnt on the way. */
  datatype Phase =
    | Running
    | Publishing(o: Oracle, target: Target, copy: Properties)
    | Settling(o: Oracle, op: SettleOp)
    | Done(o: Oracle, op: SettleOp, applied: bool)

  datatype Work = Work(message: Message, phase: Phase, log: seq<Effect>)

  datatype State = State(
    main: multiset<Message>,
    waiting: multiset<Message>,
    dead: multiset<Message>,
    unacked: map<nat, Message>,
    works: map<nat, Work>,
    nextTag: nat,
    published: seq<Delivery>,
    handled: set<nat>,
    dropped: set<nat>)

  datatype Step =
    | Produce(d: Delivery)
    | Deliver(message: Message)
    | Start(tag: nat)
    | Decide(tag: nat, minted: Minted, o: Oracle)
    | Republish(tag: nat, outcome: PublishOutcome, stored: bool)
    // `ok` is what the settle call reports, `applied` what the broker made of it.
    | Settle(tag: nat, ok: bool, applied: bool)
    // The channel of this delivery closes: the broker takes it back.
    | CloseChannel(tag: nat)
    | Expire(message: Message)

  const EMPTY := State(multiset{}, multiset{}, multiset{}, map[], map[], 0, [], {}, {})

  /** A confirmed copy is stored, a returned one is not; after any other failure the broker may have kept it. */
  predicate Honest(outcome: PublishOutcome, stored: bool) {
    var r := PublishResult(outcome);
    && (r.Ok? ==> stored)
    && (r.Err? && r.error.Unroutable? ==> !stored)
  }

  ghost predicate Enabled(sys: System, s: State, step: Step) {
    match step
    case Produce(_) => true
    case Deliver(m) => m in s.main
    case Start(tag) => tag in s.unacked && tag !in s.works
    case Decide(tag, minted, o) =>
      tag in s.works && s.works[tag].phase.Running? && sys.Learns(s.works[tag].message.content, minted, o)
    case Republish(tag, outcome, stored) => tag in s.works && s.works[tag].phase.Publishing? && Honest(outcome, stored)
    case Settle(tag, _, applied) => tag in s.works && s.works[tag].phase.Settling? && (applied ==> tag in s.unacked)
    case CloseChannel(tag) => tag in s.unacked
    case Expire(m) => m in s.waiting
  }

  function Decided(sys: System, s: State, tag: nat, o: Oracle): State
    requires tag in s.works
  {
    var m := s.works[tag].message;
    var log := HandlerEffects(sys.cfg, m.content, o);
    var succeeded := Succeeded(sys.cfg, m.content, o);
    match RouteOf(sys.cfg, sys.f, m.content, o)
    case Via(target, copy) => s.(works := s.works[tag := Work(m, Publishing(o, target, copy), log)])
    case SettleNow(op) =>
      s.(works := s.works[tag := Work(m, Settling(o, op), log)],
         handled := if succeeded then s.handled + {m.origin} else s.handled,
         dropped := if succeeded then s.dropped else s.dropped + {m.origin})
  }

  function Republished(s: State, tag: nat, outcome: PublishOutcome, stored: bool): State
    requires tag in s.works && s.works[tag].phase.Publishing?
  {
    var Work(m, phase, log) := s.works[tag];
    var r := PublishResult(outcome);
    var copy := if stored then multiset{CopyOf(m, phase.copy)} else multiset{};
    var after := Settling(phase.o.(publish := outcome), SettleAfter(r));
    s.(works := s.works[tag := Work(m, after, log + [Published(phase.target, phase.copy, m.content.body, r)])],
       waiting := if phase.target.WaitQueue? then s.waiting + copy else s.waiting,
       dead := if phase.target.DeadLetterQueue? then s.dead + copy else s.dead,
       dropped := if SettleAfter(r) == Nack(false) then s.dropped + {m.origin} else s.dropped)
  }

  function CopyOf(m: Message, copy: Properties): Message {
    m.(content := m.content.(props := copy))
  }

  function SettledState(s: State, tag: nat, ok: bool, applied: bool): State
    requires tag in s.works && s.works[tag].phase.Settling? && (applied ==> tag in s.unacked)
  {
    var Work(m, phase, log) := s.works[tag];
    var after := Done(phase.o.(settles := ok), phase.op, applied);
    s.(works := s.works[tag := Work(m, after, log + [SettleCall(phase.op, ok)])],
       unacked := if applied then s.unacked - {tag} else s.unacked,
       main := if applied && phase.op == Nack(true) then s.main + multiset{s.unacked[tag]} else s.main)
  }

  /** A message the wait queue hands back to the main queue, under that queue's own name. */
  function Expired(sys: System, m: Message): Message {
    var back := AfterExpiry(sys.expiry, m.content.props, sys.cfg.waitQueue);
    Message(m.origin, m.cycles + 1, m.content.(destination := sys.cfg.queue, props := back))
  }

  ghost function Apply(sys: System, s: State, step: Step): State
    requires Enabled(sys, s, step)
  {
    match step
    case Produce(d) => s.(main := s.main + multiset{Message(|s.published|, 0, d)}, published := s.published + [d])
    case Deliver(m) => s.(main := s.main - multiset{m}, unacked := s.unacked[s.nextTag := m], nextTag := s.nextTag + 1)
    case Start(tag) => s.(works := s.works[tag := Work(s.unacked[tag], Running, [])])
    case Decide(tag, _, o) => Decided(sys, s, tag, o)
    case Republish(tag, outcome, stored) => Republished(s, tag, outcome, stored)
    case Settle(tag, ok, applied) => SettledState(s, tag, ok, applied)
    case CloseChannel(tag) => s.(unacked := s.unacked - {tag}, main := s.main + multiset{s.unacked[tag]})
    case Expire(m) => s.(waiting := s.waiting - multiset{m}, main := s.main + multiset{Expired(sys, m)})
  }

  // ---- Runs ----

  function Most(steps: seq<Step>): seq<Step>
    requires steps != []
  {
    steps[..|steps| - 1]
  }

  function Last(steps: seq<Step>): Step
    requires steps != []
  {
    steps[|steps| - 1]
  }

  /** The state after the steps, one that is not enabled being skipped. */
  ghost function Run(sys: System, steps: seq<Step>): State {
    if steps == [] then EMPTY
    else
      var s := Run(sys, Most(steps));
      if Enabled(sys, s, Last(steps)) then Apply(sys, s, Last(steps)) else s
  }

  ghost predicate Enables(sys: System, steps: seq<Step>) {
    steps == [] || (Enables(sys, Most(steps)) && Enabled(sys, Run(sys, Most(steps)), Last(steps)))
  }

  lemma Extend(sys: System, steps: seq<Step>, step: Step)
    requires Enables(sys, steps) && Enabled(sys, Run(sys, steps), step)
    ensures Enables(sys, steps + [step]) && Run(sys, steps + [step]) == Apply(sys, Run(sys, steps), step)
  {
    assert Most(steps + [step]) == steps && Last(steps + [step]) == step;
  }

  lemma {:induction false} PrefixEnabled(sys: System, steps: seq<Step>, n: nat)
    requires Enables(sys, steps) && n <= |steps|
    ensures Enables(sys, steps[..n])
  {
    if n == |steps| {
      assert steps[..n] == steps;
    } else {
      assert Most(steps)[..n] == steps[..n];
      PrefixEnabled(sys, Most(steps), n);
    }
  }

  // ---- Tags ----

  /** A delivery in flight is known by one tag, and its worker holds that same message. */
  ghost predicate TagsAgree(s: State) {
    && (forall t :: t in s.unacked ==> t < s.nextTag)
    && (forall t :: t in s.works ==> t < s.nextTag)
    && (forall t :: t in s.works && t in s.unacked ==> s.works[t].message == s.unacked[t])
  }

  /** A worker moving its own delivery along. */
  predicate WorkMoves(s: State, s': State, tag: nat) {
    && tag in s.works && tag in s'.works && s'.works[tag].message == s.works[tag].message
    && s'.works == s.works[tag := s'.works[tag]]
    && s'.nextTag == s.nextTag && (s'.unacked == s.unacked || s'.unacked == s.unacked - {tag})
  }

  lemma WorkKeepsTags(s: State, s': State, tag: nat)
    requires TagsAgree(s) && WorkMoves(s, s', tag)
    ensures TagsAgree(s')
  {
  }

  lemma StepKeepsTags(sys: System, s: State, step: Step)
    requires Enabled(sys, s, step) && TagsAgree(s)
    ensures TagsAgree(Apply(sys, s, step))
  {
    match step
    case Decide(tag, _, _) => WorkKeepsTags(s, Apply(sys, s, step), tag);
    case Republish(tag, _, _) => WorkKeepsTags(s, Apply(sys, s, step), tag);
    case Settle(tag, _, _) => WorkKeepsTags(s, Apply(sys, s, step), tag);
    case _ =>
  }

  lemma {:induction false} RunKeepsTags(sys: System, steps: seq<Step>)
    requires Enables(sys, steps)
    ensures TagsAgree(Run(sys, steps))
  {
    if steps != [] {
      RunKeepsTags(sys, Most(steps));
      StepKeepsTags(sys, Run(sys, Most(steps)), Last(steps));
    }
  }
}
