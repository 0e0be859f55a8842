/** How many copies of a message there are: none appears and none vanishes but by a publish or a settle. */
module Conservation {
  import opened Worker
  import opened Broker

  // ---- Counting copies ----

  /** The copies of an origin in a queue. */
  ghost function InBag(q: multiset<Message>, origin: nat): nat
    decreases |q|
  {
    if q == multiset{} then 0
    else
      var m :| m in q;
      InBag(q - multiset{m}, origin) + (if m.origin == origin then 1 else 0)
  }

  /** Whichever copy is taken out, the rest are counted alike. */
  lemma {:induction false} BagLoses(q: multiset<Message>, m: Message, origin: nat)
    requires m in q
    ensures InBag(q, origin) == InBag(q - multiset{m}, origin) + (if m.origin == origin then 1 else 0)
    decreases |q|
  {
    var first :| first in q && InBag(q, origin)
        == InBag(q - multiset{first}, origin) + (if first.origin == origin then 1 else 0);
    if first != m {
      BagLoses(q - multiset{first}, m, origin);
      BagLoses(q - multiset{m}, first, origin);
      assert q - multiset{first} - multiset{m} == q - multiset{m} - multiset{first};
    }
  }

  lemma BagGains(q: multiset<Message>, m: Message, origin: nat)
    ensures InBag(q + multiset{m}, origin) == InBag(q, origin) + (if m.origin == origin then 1 else 0)
  {
    BagLoses(q + multiset{m}, m, origin);
    assert q + multiset{m} - multiset{m} == q;
  }

  function Held(unacked: map<nat, Message>, origin: nat): set<nat> {
    set t | t in unacked && unacked[t].origin == origin
  }

  lemma HeldGains(unacked: map<nat, Message>, tag: nat, m: Message, origin: nat)
    requires tag !in unacked
    ensures |Held(unacked[tag := m], origin)| == |Held(unacked, origin)| + (if m.origin == origin then 1 else 0)
  {
    assert Held(unacked[tag := m], origin) == Held(unacked, origin) + (if m.origin == origin then {tag} else {});
  }

  lemma HeldLoses(unacked: map<nat, Message>, tag: nat, origin: nat)
    requires tag in unacked
    ensures |Held(unacked, origin)|
            == |Held(unacked - {tag}, origin)| + (if unacked[tag].origin == origin then 1 else 0)
  {
    assert Held(unacked, origin)
        == Held(unacked - {tag}, origin) + (if unacked[tag].origin == origin then {tag} else {});
  }

  /** Every copy the broker holds, queued, waiting, dead-lettered or out with a worker. */
  ghost function Copies(s: State, origin: nat): nat {
    InBag(s.main, origin) + InBag(s.waiting, origin) + InBag(s.dead, origin) + |Held(s.unacked, origin)|
  }

  // ---- What makes and unmakes a copy ----

  predicate MakesCopy(s: State, step: Step, origin: nat) {
    match step
    case Produce(_) => origin == |s.published|
    case Republish(tag, _, stored) => stored && tag in s.works && s.works[tag].message.origin == origin
    case _ => false
  }

  /** The broker applies a settle call that does not ask for the delivery back. */
  predicate UnmakesCopy(s: State, step: Step, origin: nat) {
    && step.Settle? && step.applied && step.tag in s.works && s.works[step.tag].message.origin == origin
    && s.works[step.tag].phase.Settling? && s.works[step.tag].phase.op != Nack(true)
  }

  lemma ProduceConserves(sys: System, s: State, d: Delivery, origin: nat)
    ensures Copies(Apply(sys, s, Produce(d)), origin) == Copies(s, origin) + (if origin == |s.published| then 1 else 0)
  {
    BagGains(s.main, Message(|s.published|, 0, d), origin);
  }

  lemma DeliverConserves(sys: System, s: State, m: Message, origin: nat)
    requires m in s.main && TagsAgree(s)
    ensures Copies(Apply(sys, s, Deliver(m)), origin) == Copies(s, origin)
  {
    BagLoses(s.main, m, origin);
    assert s.nextTag !in s.unacked;
    HeldGains(s.unacked, s.nextTag, m, origin);
  }

  lemma RepublishConserves(s: State, tag: nat, outcome: PublishOutcome, stored: bool, origin: nat)
    requires tag in s.works && s.works[tag].phase.Publishing?
    ensures Copies(Republished(s, tag, outcome, stored), origin)
            == Copies(s, origin) + (if stored && s.works[tag].message.origin == origin then 1 else 0)
  {
    var Work(m, phase, _) := s.works[tag];
    var s' := Republished(s, tag, outcome, stored);
    if !stored {
      SameBags(s, s', origin);
    } else if phase.target.WaitQueue? {
      BagGains(s.waiting, CopyOf(m, phase.copy), origin);
    } else {
      BagGains(s.dead, CopyOf(m, phase.copy), origin);
    }
  }

  lemma SameBags(s: State, s': State, origin: nat)
    requires s'.main == s.main && s'.waiting == s.waiting && s'.dead == s.dead && s'.unacked == s.unacked
    ensures Copies(s', origin) == Copies(s, origin)
  {
  }

  lemma SettleConserves(s: State, tag: nat, ok: bool, applied: bool, origin: nat)
    requires tag in s.works && s.works[tag].phase.Settling? && (applied ==> tag in s.unacked) && TagsAgree(s)
    ensures Copies(SettledState(s, tag, ok, applied), origin)
            + (if applied && s.works[tag].message.origin == origin && s.works[tag].phase.op != Nack(true) then 1 else 0)
            == Copies(s, origin)
  {
    if applied {
      HeldLoses(s.unacked, tag, origin);
      BagGains(s.main, s.unacked[tag], origin);
    }
  }

  lemma CloseConserves(sys: System, s: State, tag: nat, origin: nat)
    requires tag in s.unacked
    ensures Copies(Apply(sys, s, CloseChannel(tag)), origin) == Copies(s, origin)
  {
    HeldLoses(s.unacked, tag, origin);
    BagGains(s.main, s.unacked[tag], origin);
  }

  lemma ExpireConserves(sys: System, s: State, m: Message, origin: nat)
    requires m in s.waiting
    ensures Copies(Apply(sys, s, Expire(m)), origin) == Copies(s, origin)
  {
    Moved(s.waiting, s.main, m, Expired(sys, m), origin);
  }

  /** A copy leaves one queue and enters another. */
  lemma Moved(from: multiset<Message>, to: multiset<Message>, m: Message, m': Message, origin: nat)
    requires m in from && m'.origin == m.origin
    ensures InBag(from - multiset{m}, origin) + InBag(to + multiset{m'}, origin)
            == InBag(from, origin) + InBag(to, origin)
  {
    BagLoses(from, m, origin);
    BagGains(to, m', origin);
  }

  lemma StepConserves(sys: System, s: State, step: Step, origin: nat)
    requires Enabled(sys, s, step) && TagsAgree(s)
    ensures Copies(Apply(sys, s, step), origin) + (if UnmakesCopy(s, step, origin) then 1 else 0)
            == Copies(s, origin) + (if MakesCopy(s, step, origin) then 1 else 0)
  {
    match step
    case Produce(d) => ProduceConserves(sys, s, d, origin);
    case Deliver(m) => DeliverConserves(sys, s, m, origin);
    case Start(_) =>
    case Decide(_, _, _) =>
    case Republish(tag, outcome, stored) => RepublishConserves(s, tag, outcome, stored, origin);
    case Settle(tag, ok, applied) => SettleConserves(s, tag, ok, applied, origin);
    case CloseChannel(tag) => CloseConserves(sys, s, tag, origin);
    case Expire(m) => ExpireConserves(sys, s, m, origin);
  }

  // ---- Over whole runs ----

  ghost function Made(sys: System, steps: seq<Step>, origin: nat): nat {
    if steps == [] then 0
    else Made(sys, Most(steps), origin) + (if MakesCopy(Run(sys, Most(steps)), Last(steps), origin) then 1 else 0)
  }

  ghost function Unmade(sys: System, steps: seq<Step>, origin: nat): nat {
    if steps == [] then 0
    else Unmade(sys, Most(steps), origin) + (if UnmakesCopy(Run(sys, Most(steps)), Last(steps), origin) then 1 else 0)
  }

  /**
   After any run the broker holds as many copies of a message as were published or stored by
   workers, less those whose ack or drop it applied: redeliveries, requeues, expiries and lost
   channels make none and lose none.
   */
  lemma {:induction false} CopiesAreConserved(sys: System, steps: seq<Step>, origin: nat)
    requires Enables(sys, steps)
    ensures Copies(Run(sys, steps), origin) + Unmade(sys, steps, origin) == Made(sys, steps, origin)
  {
    if steps != [] {
      CopiesAreConserved(sys, Most(steps), origin);
      RunKeepsTags(sys, Most(steps));
      StepConserves(sys, Run(sys, Most(steps)), Last(steps), origin);
    }
  }
}
