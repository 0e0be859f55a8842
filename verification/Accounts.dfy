/** No message is lost: where every published message is, after every run of broker and workers. */
module Accounts {
  import opened Bytes
  import opened Envelopes
  import opened Worker
  import opened Outcomes
  import opened Broker

  ghost predicate InQueue(q: multiset<Message>, origin: nat) {
    exists m :: m in q && m.origin == origin
  }

  /** The worker of this tag is about to let the broker discard the delivery, or has tried to. */
  predicate Discarding(s: State, t: nat) {
    t in s.works && (s.works[t].phase.Settling? || s.works[t].phase.Done?) && s.works[t].phase.op != Nack(true)
  }

  ghost predicate HeldUnacked(s: State, origin: nat) {
    exists t :: t in s.unacked && s.unacked[t].origin == origin && !Discarding(s, t)
  }

  ghost predicate WithBroker(s: State, origin: nat) {
    InQueue(s.main, origin) || InQueue(s.waiting, origin) || InQueue(s.dead, origin) || HeldUnacked(s, origin)
  }

  /** A published message was handled, was dropped by an explicit rule, or is still with the broker. */
  ghost predicate Accounted(s: State, origin: nat) {
    origin in s.handled || origin in s.dropped || WithBroker(s, origin)
  }

  // ---- Each step keeps every message accounted for ----

  lemma QueueGrows(q: multiset<Message>, more: multiset<Message>, origin: nat)
    requires InQueue(q, origin)
    ensures InQueue(q + more, origin)
  {
    var m :| m in q && m.origin == origin;
    assert m in q + more;
  }

  lemma QueueGains(q: multiset<Message>, m: Message)
    ensures InQueue(q + multiset{m}, m.origin)
  {
    assert m in q + multiset{m};
  }

  lemma QueueLoses(q: multiset<Message>, m: Message, origin: nat)
    requires InQueue(q, origin) && origin != m.origin
    ensures InQueue(q - multiset{m}, origin)
  {
    var other :| other in q && other.origin == origin;
    assert other in q - multiset{m};
  }

  /** A step that touches one tag leaves the others' deliveries held. */
  lemma OthersHeld(s: State, s': State, tag: nat, origin: nat)
    requires HeldUnacked(s, origin)
    requires forall t :: t in s.unacked && t != tag ==> t in s'.unacked && s'.unacked[t] == s.unacked[t]
    requires forall t :: t != tag && t in s.unacked ==> (Discarding(s', t) ==> Discarding(s, t))
    requires tag in s.unacked && s.unacked[tag].origin == origin && !Discarding(s, tag) ==> Accounted(s', origin)
    ensures Accounted(s', origin)
  {
    var t :| t in s.unacked && s.unacked[t].origin == origin && !Discarding(s, t);
    if t != tag {
      assert t in s'.unacked && s'.unacked[t].origin == origin && !Discarding(s', t);
    }
  }

  lemma ProduceAccounts(sys: System, s: State, d: Delivery, origin: nat)
    requires Accounted(s, origin) || origin == |s.published|
    ensures Accounted(Apply(sys, s, Produce(d)), origin)
  {
    var m := Message(|s.published|, 0, d);
    QueueGains(s.main, m);
    if origin != |s.published| {
      if InQueue(s.main, origin) {
        QueueGrows(s.main, multiset{m}, origin);
      } else if HeldUnacked(s, origin) {
        var t :| t in s.unacked && s.unacked[t].origin == origin && !Discarding(s, t);
        assert !Discarding(Apply(sys, s, Produce(d)), t);
      }
    }
  }

  lemma DeliverAccounts(sys: System, s: State, m: Message, origin: nat)
    requires m in s.main && TagsAgree(s) && Accounted(s, origin)
    ensures Accounted(Apply(sys, s, Deliver(m)), origin)
  {
    var s' := Apply(sys, s, Deliver(m));
    if origin == m.origin {
      assert s.nextTag in s'.unacked && s'.unacked[s.nextTag].origin == origin && !Discarding(s', s.nextTag);
    } else if InQueue(s.main, origin) {
      QueueLoses(s.main, m, origin);
    } else if HeldUnacked(s, origin) {
      OthersHeld(s, s', s.nextTag, origin);
    }
  }

  lemma StartAccounts(sys: System, s: State, tag: nat, origin: nat)
    requires tag in s.unacked && tag !in s.works && Accounted(s, origin)
    ensures Accounted(Apply(sys, s, Start(tag)), origin)
  {
    var s' := Apply(sys, s, Start(tag));
    if HeldUnacked(s, origin) {
      assert !Discarding(s', tag);
      if s.unacked[tag].origin == origin {
        assert HeldUnacked(s', origin);
      }
      OthersHeld(s, s', tag, origin);
    }
  }

  lemma DecideAccounts(sys: System, s: State, tag: nat, o: Oracle, origin: nat)
    requires tag in s.works && s.works[tag].phase.Running? && TagsAgree(s) && Accounted(s, origin)
    ensures Accounted(Decided(sys, s, tag, o), origin)
  {
    var s' := Decided(sys, s, tag, o);
    if HeldUnacked(s, origin) {
      if tag in s.unacked && s.unacked[tag].origin == origin {
        assert s'.works[tag].phase.Publishing? ==> !Discarding(s', tag);
        assert s'.works[tag].phase.Settling? ==> origin in s'.handled || origin in s'.dropped;
      }
      OthersHeld(s, s', tag, origin);
    }
  }

  lemma RepublishAccounts(s: State, tag: nat, outcome: PublishOutcome, stored: bool, origin: nat)
    requires tag in s.works && s.works[tag].phase.Publishing? && Honest(outcome, stored) && TagsAgree(s)
            && Accounted(s, origin)
    ensures Accounted(Republished(s, tag, outcome, stored), origin)
  {
    var s' := Republished(s, tag, outcome, stored);
    var Work(m, phase, _) := s.works[tag];
    var copy := if stored then multiset{CopyOf(m, phase.copy)} else multiset{};
    if InQueue(s.waiting, origin) {
      QueueGrows(s.waiting, copy, origin);
    } else if InQueue(s.dead, origin) {
      QueueGrows(s.dead, copy, origin);
    } else if HeldUnacked(s, origin) {
      if tag in s.unacked && s.unacked[tag].origin == origin {
        if stored {
          QueueGains(if phase.target.WaitQueue? then s.waiting else s.dead, CopyOf(m, phase.copy));
        } else {
          assert s'.works[tag].phase.op == Nack(true) ==> !Discarding(s', tag);
        }
      }
      OthersHeld(s, s', tag, origin);
    }
  }

  lemma SettleAccounts(s: State, tag: nat, ok: bool, applied: bool, origin: nat)
    requires tag in s.works && s.works[tag].phase.Settling? && (applied ==> tag in s.unacked)
    requires TagsAgree(s) && Accounted(s, origin)
    ensures Accounted(SettledState(s, tag, ok, applied), origin)
  {
    var s' := SettledState(s, tag, ok, applied);
    if InQueue(s.main, origin) {
      if s'.main != s.main {
        QueueGrows(s.main, multiset{s.unacked[tag]}, origin);
      }
    } else if HeldUnacked(s, origin) {
      if tag in s.unacked && s.unacked[tag].origin == origin && !Discarding(s, tag) {
        if applied {
          QueueGains(s.main, s.unacked[tag]);
        } else {
          assert !Discarding(s', tag);
        }
      }
      OthersHeld(s, s', tag, origin);
    }
  }

  lemma CloseAccounts(sys: System, s: State, tag: nat, origin: nat)
    requires tag in s.unacked && Accounted(s, origin)
    ensures Accounted(Apply(sys, s, CloseChannel(tag)), origin)
  {
    QueueGains(s.main, s.unacked[tag]);
    if InQueue(s.main, origin) {
      QueueGrows(s.main, multiset{s.unacked[tag]}, origin);
    } else if HeldUnacked(s, origin) {
      OthersHeld(s, Apply(sys, s, CloseChannel(tag)), tag, origin);
    }
  }

  lemma ExpireAccounts(sys: System, s: State, m: Message, origin: nat)
    requires m in s.waiting && Accounted(s, origin)
    ensures Accounted(Apply(sys, s, Expire(m)), origin)
  {
    QueueGains(s.main, Expired(sys, m));
    if InQueue(s.main, origin) {
      QueueGrows(s.main, multiset{Expired(sys, m)}, origin);
    } else if InQueue(s.waiting, origin) && origin != m.origin {
      QueueLoses(s.waiting, m, origin);
    } else if HeldUnacked(s, origin) {
      var t :| t in s.unacked && s.unacked[t].origin == origin && !Discarding(s, t);
      assert !Discarding(Apply(sys, s, Expire(m)), t);
    }
  }

  lemma StepAccounts(sys: System, s: State, step: Step, origin: nat)
    requires Enabled(sys, s, step) && TagsAgree(s)
    requires Accounted(s, origin) || (step.Produce? && origin == |s.published|)
    ensures Accounted(Apply(sys, s, step), origin)
  {
    match step
    case Produce(d) => ProduceAccounts(sys, s, d, origin);
    case Deliver(m) => DeliverAccounts(sys, s, m, origin);
    case Start(tag) => StartAccounts(sys, s, tag, origin);
    case Decide(tag, _, o) => DecideAccounts(sys, s, tag, o, origin);
    case Republish(tag, outcome, stored) => RepublishAccounts(s, tag, outcome, stored, origin);
    case Settle(tag, ok, applied) => SettleAccounts(s, tag, ok, applied, origin);
    case CloseChannel(tag) => CloseAccounts(sys, s, tag, origin);
    case Expire(m) => ExpireAccounts(sys, s, m, origin);
  }

  // ---- Whole runs ----

  /**
   After any run: every published message was handled, was dropped by an explicit rule, or
   is still queued, waiting, dead-lettered or held by a worker that has not let it go.
   */
  lemma {:induction false} NoMessageIsLost(sys: System, steps: seq<Step>, origin: nat)
    requires Enables(sys, steps) && origin < |Run(sys, steps).published|
    ensures Accounted(Run(sys, steps), origin)
  {
    if steps == [] {
      assert false;
    }
    var s := Run(sys, Most(steps));
    RunKeepsTags(sys, Most(steps));
    if origin < |s.published| {
      NoMessageIsLost(sys, Most(steps), origin);
    }
    StepAccounts(sys, s, Last(steps), origin);
  }

  predicate Routable(step: Step) {
    step.Republish? ==> PublishResult(step.outcome) != Err(Unroutable)
  }

  lemma {:induction false} NothingDropped(sys: System, steps: seq<Step>)
    requires sys.cfg.hasDeadLetter && Enables(sys, steps)
    requires forall i :: 0 <= i < |steps| ==> Routable(steps[i])
    ensures Run(sys, steps).dropped == {}
  {
    if steps != [] {
      NothingDropped(sys, Most(steps));
      assert Routable(Last(steps));
    }
  }

  /**
   With a dead-letter queue and no unroutable publish, every published message was handled
   or is still with the broker.
   */
  lemma AtLeastOnce(sys: System, steps: seq<Step>, origin: nat)
    requires sys.cfg.hasDeadLetter && Enables(sys, steps)
    requires forall i :: 0 <= i < |steps| ==> Routable(steps[i])
    requires origin < |Run(sys, steps).published|
    ensures origin in Run(sys, steps).handled || WithBroker(Run(sys, steps), origin)
  {
    NoMessageIsLost(sys, steps, origin);
    NothingDropped(sys, steps);
  }

  // ---- What handled and dropped stand for ----

  /** Step `i` decided on a delivery of this origin whose handler had returned success. */
  ghost predicate HandlesAt(sys: System, steps: seq<Step>, i: nat, origin: nat) {
    && i < |steps| && steps[i].Decide?
    && var works := Run(sys, steps[..i]).works;
       && steps[i].tag in works && works[steps[i].tag].message.origin == origin
       && HandledWell(sys.cfg, works[steps[i].tag].message.content, steps[i].o)
  }

  /** Step `i` let a delivery go for want of a dead-letter queue, or because the broker returned its copy. */
  ghost predicate DropsAt(sys: System, steps: seq<Step>, i: nat, origin: nat) {
    && i < |steps| && (steps[i].Decide? || steps[i].Republish?)
    && var works := Run(sys, steps[..i]).works;
       && steps[i].tag in works && works[steps[i].tag].message.origin == origin
       && var d := works[steps[i].tag].message.content;
          if steps[i].Republish? then ReturnsCopy(steps[i].outcome)
          else !sys.cfg.hasDeadLetter && !HandledWell(sys.cfg, d, steps[i].o) && !Retried(sys.cfg, d, steps[i].o)
  }

  lemma DecideRecords(sys: System, s: State, tag: nat, o: Oracle)
    requires sys.Valid() && tag in s.works
    ensures var m, s' := s.works[tag].message, Decided(sys, s, tag, o);
            && s'.handled == (if HandledWell(sys.cfg, m.content, o) then s.handled + {m.origin} else s.handled)
            && s'.dropped == (if !sys.cfg.hasDeadLetter && !HandledWell(sys.cfg, m.content, o)
                                 && !Retried(sys.cfg, m.content, o) then s.dropped + {m.origin} else s.dropped)
  {
    RouteExactly(sys.cfg, sys.f, s.works[tag].message.content, o);
    RefusedExactly(sys.cfg, s.works[tag].message.content, o);
    SuccessIsUnit(o.handler);
  }

  lemma StepRecords(sys: System, steps: seq<Step>, origin: nat)
    requires sys.Valid() && Enables(sys, steps) && steps != []
    ensures var before, after, i := Run(sys, Most(steps)), Run(sys, steps), |steps| - 1;
            && (origin in after.handled <==> origin in before.handled || HandlesAt(sys, steps, i, origin))
            && (origin in after.dropped <==> origin in before.dropped || DropsAt(sys, steps, i, origin))
  {
    var s, step := Run(sys, Most(steps)), Last(steps);
    if step.Decide? {
      DecideRecords(sys, s, step.tag, step.o);
    } else if step.Republish? {
      SettleMatchesBroker(step.outcome);
    }
  }

  ghost predicate HandledSomewhere(sys: System, steps: seq<Step>, origin: nat) {
    exists i :: HandlesAt(sys, steps, i, origin)
  }

  ghost predicate DroppedSomewhere(sys: System, steps: seq<Step>, origin: nat) {
    exists i :: DropsAt(sys, steps, i, origin)
  }

  lemma EarlierSteps(sys: System, steps: seq<Step>, i: nat, origin: nat)
    requires steps != [] && i < |steps| - 1
    ensures HandlesAt(sys, steps, i, origin) <==> HandlesAt(sys, Most(steps), i, origin)
    ensures DropsAt(sys, steps, i, origin) <==> DropsAt(sys, Most(steps), i, origin)
  {
    assert Most(steps)[..i] == steps[..i];
  }

  lemma RecordedByLast(sys: System, steps: seq<Step>, origin: nat)
    requires steps != []
    ensures HandledSomewhere(sys, steps, origin)
            <==> HandledSomewhere(sys, Most(steps), origin) || HandlesAt(sys, steps, |steps| - 1, origin)
    ensures DroppedSomewhere(sys, steps, origin)
            <==> DroppedSomewhere(sys, Most(steps), origin) || DropsAt(sys, steps, |steps| - 1, origin)
  {
    forall i | 0 <= i < |steps| - 1
      ensures HandlesAt(sys, steps, i, origin) <==> HandlesAt(sys, Most(steps), i, origin)
      ensures DropsAt(sys, steps, i, origin) <==> DropsAt(sys, Most(steps), i, origin)
    {
      EarlierSteps(sys, steps, i, origin);
    }
  }

  /**
   After any run a message counts as handled exactly when some attempt decoded it, trusted its
   sender and had success from its handler, and as dropped exactly when some attempt let it go
   with no dead-letter queue to copy it to, or had its copy returned by the broker.
   */
  lemma {:induction false} RecordsAreExact(sys: System, steps: seq<Step>, origin: nat)
    requires sys.Valid() && Enables(sys, steps)
    ensures origin in Run(sys, steps).handled <==> HandledSomewhere(sys, steps, origin)
    ensures origin in Run(sys, steps).dropped <==> DroppedSomewhere(sys, steps, origin)
  {
    if steps != [] {
      RecordsAreExact(sys, Most(steps), origin);
      RecordedByLast(sys, steps, origin);
      StepRecords(sys, steps, origin);
    }
  }

  /**
   So after any run every published message had success from its handler, was let go by one of
   those two rules, or is still with the broker; and with a dead-letter queue and no copy
   returned, the second cannot be.
   */
  lemma HandledDroppedOrKept(sys: System, steps: seq<Step>, origin: nat)
    requires sys.Valid() && Enables(sys, steps) && origin < |Run(sys, steps).published|
    ensures || HandledSomewhere(sys, steps, origin)
            || DroppedSomewhere(sys, steps, origin)
            || WithBroker(Run(sys, steps), origin)
    ensures sys.cfg.hasDeadLetter && (forall i :: 0 <= i < |steps| ==> Routable(steps[i]))
            ==> !DroppedSomewhere(sys, steps, origin)
  {
    NoMessageIsLost(sys, steps, origin);
    RecordsAreExact(sys, steps, origin);
    if sys.cfg.hasDeadLetter && forall i :: 0 <= i < |steps| ==> Routable(steps[i]) {
      NothingDropped(sys, steps);
    }
  }
}
