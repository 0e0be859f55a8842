/**
 Exact settlement over whole runs: what the steps of one delivery spell, and which deliveries keep
 their prefetch slot.
 */
module Settlement {
  import opened Wire
  import opened Worker
  import opened Broker

  // ---- Prefetch slots ----

  /** The broker took the delivery back: its settle was applied or its channel closed. */
  predicate Frees(step: Step, tag: nat) {
    step == CloseChannel(tag) || (step.Settle? && step.tag == tag && step.applied)
  }

  ghost predicate Freed(steps: seq<Step>, tag: nat) {
    exists i :: 0 <= i < |steps| && Frees(steps[i], tag)
  }

  lemma FreedByLast(steps: seq<Step>, tag: nat)
    requires steps != []
    ensures Freed(steps, tag) <==> Freed(Most(steps), tag) || Frees(Last(steps), tag)
  {
    if Freed(Most(steps), tag) {
      var i :| 0 <= i < |Most(steps)| && Frees(Most(steps)[i], tag);
      assert Frees(steps[i], tag);
    }
    if Freed(steps, tag) && !Frees(Last(steps), tag) {
      var i :| 0 <= i < |steps| && Frees(steps[i], tag);
      assert Frees(Most(steps)[i], tag);
    }
  }

  lemma SlotStep(sys: System, s: State, step: Step, tag: nat)
    requires Enabled(sys, s, step)
    ensures var s' := Apply(sys, s, step);
            && s'.nextTag == s.nextTag + (if step.Deliver? then 1 else 0)
            && (tag in s'.unacked <==> (tag in s.unacked && !Frees(step, tag)) || (step.Deliver? && tag == s.nextTag))
            && (Frees(step, tag) ==> tag in s.unacked)
  {
  }

  /** After any run a delivery holds its prefetch slot exactly when no step of the run freed it. */
  lemma {:induction false} SlotsAreExact(sys: System, steps: seq<Step>, tag: nat)
    requires Enables(sys, steps)
    ensures tag < Run(sys, steps).nextTag ==> (tag in Run(sys, steps).unacked <==> !Freed(steps, tag))
    ensures tag >= Run(sys, steps).nextTag ==> tag !in Run(sys, steps).unacked && !Freed(steps, tag)
  {
    if steps != [] {
      SlotsAreExact(sys, Most(steps), tag);
      FreedByLast(steps, tag);
      SlotStep(sys, Run(sys, Most(steps)), Last(steps), tag);
    }
  }

  // ---- One settle call a delivery ----

  predicate IsSettle(step: Step, tag: nat) {
    step.Settle? && step.tag == tag
  }

  predicate IsDone(s: State, tag: nat) {
    tag in s.works && s.works[tag].phase.Done?
  }

  /** A step settles a delivery at most once, and nothing reopens it. */
  lemma DoneStays(sys: System, s: State, step: Step, tag: nat)
    requires Enabled(sys, s, step)
    ensures IsDone(s, tag) ==> IsDone(Apply(sys, s, step), tag) && !IsSettle(step, tag)
    ensures IsSettle(step, tag) ==> IsDone(Apply(sys, s, step), tag)
  {
  }

  lemma {:induction false} SettledIsDone(sys: System, steps: seq<Step>, tag: nat, i: nat)
    requires Enables(sys, steps) && i < |steps| && IsSettle(steps[i], tag)
    ensures IsDone(Run(sys, steps), tag)
  {
    if i < |steps| - 1 {
      assert Most(steps)[i] == steps[i];
      SettledIsDone(sys, Most(steps), tag, i);
    }
    DoneStays(sys, Run(sys, Most(steps)), Last(steps), tag);
  }

  /** No run settles a delivery twice. */
  lemma OneSettle(sys: System, steps: seq<Step>, tag: nat, i: nat, j: nat)
    requires Enables(sys, steps) && i < |steps| && j < |steps| && IsSettle(steps[i], tag) && IsSettle(steps[j], tag)
    ensures i == j
  {
    if i < j {
      SettledOnce(sys, steps, tag, i, j);
    } else if j < i {
      SettledOnce(sys, steps, tag, j, i);
    }
  }

  lemma SettledOnce(sys: System, steps: seq<Step>, tag: nat, i: nat, j: nat)
    requires Enables(sys, steps) && i < j < |steps| && IsSettle(steps[i], tag)
    ensures !IsSettle(steps[j], tag)
  {
    PrefixEnabled(sys, steps, j);
    PrefixEnabled(sys, steps, j + 1);
    assert Most(steps[..j + 1]) == steps[..j] && Last(steps[..j + 1]) == steps[j];
    assert steps[..j][i] == steps[i];
    SettledIsDone(sys, steps[..j], tag, i);
    DoneStays(sys, Run(sys, steps[..j]), steps[j], tag);
  }

  // ---- What the steps of a delivery spell ----

  predicate OfWorker(step: Step, tag: nat) {
    (step.Decide? || step.Republish? || step.Settle?) && step.tag == tag
  }

  /** The steps the worker of this delivery made, in order. */
  function StepsOf(steps: seq<Step>, tag: nat): seq<Step> {
    if steps == [] then []
    else StepsOf(Most(steps), tag) + (if OfWorker(Last(steps), tag) then [Last(steps)] else [])
  }

  /** A dispatch that has decided where its delivery goes. */
  ghost predicate Opens(sys: System, d: Delivery, story: seq<Step>) {
    story != [] && story[0].Decide? && sys.Learns(d, story[0].minted, story[0].o)
  }

  /** A dispatch about to settle with `op`, having learnt `o`. */
  ghost predicate ReadyToSettle(sys: System, d: Delivery, story: seq<Step>, o: Oracle, op: SettleOp) {
    && Opens(sys, d, story)
    && match RouteOf(sys.cfg, sys.f, d, story[0].o)
       case SettleNow(now) => |story| == 1 && o == story[0].o.(settles := o.settles) && op == now
       case Via(_, _) =>
         && |story| == 2 && story[1].Republish?
         && o == story[0].o.(publish := story[1].outcome, settles := o.settles)
         && op == SettleAfter(PublishResult(o.publish))
  }

  /** The effects of a dispatch up to its settle call. */
  function BeforeSettle(sys: System, d: Delivery, o: Oracle): seq<Effect> {
    HandlerEffects(sys.cfg, d, o)
    + match RouteOf(sys.cfg, sys.f, d, o)
      case SettleNow(_) => []
      case Via(target, copy) => [Published(target, copy, d.body, PublishResult(o.publish))]
  }

  /** The log of a worker is what its steps so far amount to. */
  ghost predicate Tells(sys: System, w: Work, story: seq<Step>) {
    var d := w.message.content;
    match w.phase
    case Running => story == [] && w.log == []
    case Publishing(o, target, copy) =>
      && Opens(sys, d, story) && |story| == 1 && story[0].o == o
      && RouteOf(sys.cfg, sys.f, d, o) == Via(target, copy) && w.log == HandlerEffects(sys.cfg, d, o)
    case Settling(o, op) => ReadyToSettle(sys, d, story, o, op) && w.log == BeforeSettle(sys, d, o)
    case Done(o, op, applied) =>
      && story != [] && Last(story).Settle? && Last(story).ok == o.settles && Last(story).applied == applied
      && ReadyToSettle(sys, d, Most(story), o, op) && w.log == BeforeSettle(sys, d, o) + [SettleCall(op, o.settles)]
  }

  ghost predicate Told(sys: System, s: State, tag: nat, story: seq<Step>) {
    if tag in s.works then Tells(sys, s.works[tag], story) else story == []
  }

  lemma DecideTells(sys: System, s: State, tag: nat, minted: Minted, o: Oracle, story: seq<Step>)
    requires Enabled(sys, s, Decide(tag, minted, o)) && Told(sys, s, tag, story)
    ensures Told(sys, Apply(sys, s, Decide(tag, minted, o)), tag, story + [Decide(tag, minted, o)])
  {
    assert story + [Decide(tag, minted, o)] == [Decide(tag, minted, o)];
  }

  lemma RepublishTells(sys: System, s: State, tag: nat, outcome: PublishOutcome, stored: bool, story: seq<Step>)
    requires Enabled(sys, s, Republish(tag, outcome, stored)) && Told(sys, s, tag, story)
    ensures Told(sys, Apply(sys, s, Republish(tag, outcome, stored)), tag, story + [Republish(tag, outcome, stored)])
  {
    var longer := story + [Republish(tag, outcome, stored)];
    assert longer[0] == story[0] && longer[1] == Republish(tag, outcome, stored);
  }

  /** Nothing before the settle call depends on how that call will end. */
  lemma SettlesLater(sys: System, d: Delivery, story: seq<Step>, o: Oracle, op: SettleOp, ok: bool)
    requires ReadyToSettle(sys, d, story, o, op)
    ensures ReadyToSettle(sys, d, story, o.(settles := ok), op)
    ensures BeforeSettle(sys, d, o.(settles := ok)) == BeforeSettle(sys, d, o)
  {
  }

  lemma SettleTells(sys: System, s: State, tag: nat, ok: bool, applied: bool, story: seq<Step>)
    requires Enabled(sys, s, Settle(tag, ok, applied)) && Told(sys, s, tag, story)
    ensures Told(sys, Apply(sys, s, Settle(tag, ok, applied)), tag, story + [Settle(tag, ok, applied)])
  {
    var longer := story + [Settle(tag, ok, applied)];
    assert Most(longer) == story && Last(longer) == Settle(tag, ok, applied);
    var Work(m, phase, _) := s.works[tag];
    SettlesLater(sys, m.content, story, phase.o, phase.op, ok);
  }

  lemma {:induction false} StoryTold(sys: System, steps: seq<Step>, tag: nat)
    requires Enables(sys, steps)
    ensures Told(sys, Run(sys, steps), tag, StepsOf(steps, tag))
  {
    if steps != [] {
      var before, step, story := Run(sys, Most(steps)), Last(steps), StepsOf(Most(steps), tag);
      StoryTold(sys, Most(steps), tag);
      if OfWorker(step, tag) {
        match step
        case Decide(_, minted, o) => DecideTells(sys, before, tag, minted, o, story);
        case Republish(_, outcome, stored) => RepublishTells(sys, before, tag, outcome, stored, story);
        case Settle(_, ok, applied) => SettleTells(sys, before, tag, ok, applied, story);
      } else {
        assert StepsOf(steps, tag) == story;
        OthersTold(sys, before, step, tag, story);
      }
    }
  }

  lemma OthersTold(sys: System, s: State, step: Step, tag: nat, story: seq<Step>)
    requires Enabled(sys, s, step) && Told(sys, s, tag, story) && !OfWorker(step, tag)
    ensures Told(sys, Apply(sys, s, step), tag, story)
  {
    if step.Start? && step.tag == tag {
    } else {
      assert tag in Apply(sys, s, step).works <==> tag in s.works;
      assert tag in s.works ==> Apply(sys, s, step).works[tag] == s.works[tag];
    }
  }

  /**
   The steps of a finished delivery are a decision, a publication exactly when the route has
   one, and one settle; and what the worker did is the dispatch of that delivery, for what
   those steps told it.
   */
  lemma FinishedDispatch(sys: System, steps: seq<Step>, tag: nat)
    requires sys.Valid() && Enables(sys, steps) && IsDone(Run(sys, steps), tag)
    ensures var w := Run(sys, steps).works[tag];
            var story := StepsOf(steps, tag);
            && |story| >= 2 && story[0].Decide? && Last(story) == Settle(tag, w.phase.o.settles, w.phase.applied)
            && (if RouteOf(sys.cfg, sys.f, w.message.content, story[0].o).Via?
                then |story| == 3 && story[1].Republish? && w.phase.o.publish == story[1].outcome
                else |story| == 2 && w.phase.o.publish == story[0].o.publish)
            && w.phase.o == story[0].o.(publish := w.phase.o.publish, settles := w.phase.o.settles)
            && sys.Learns(w.message.content, story[0].minted, w.phase.o)
            && w.log == DispatchTrace(sys.cfg, sys.f, w.message.content, w.phase.o)
  {
    StoryTold(sys, steps, tag);
    StorySteps(steps, tag);
    var w := Run(sys, steps).works[tag];
    ManualDispatch(sys.cfg, sys.f, w.message.content, w.phase.o);
  }

  lemma {:induction false} StorySteps(steps: seq<Step>, tag: nat)
    ensures forall i :: 0 <= i < |StepsOf(steps, tag)| ==> OfWorker(StepsOf(steps, tag)[i], tag)
  {
    if steps != [] {
      StorySteps(Most(steps), tag);
    }
  }

  // ---- What the worker reports ----

  /** A settle call that fails was not applied, and one that succeeds was, unless the channel had closed. */
  ghost predicate SettleHonest(steps: seq<Step>, i: nat)
    requires i < |steps|
  {
    steps[i].Settle? ==> && (steps[i].applied ==> steps[i].ok)
                         && (steps[i].ok ==> steps[i].applied || CloseChannel(steps[i].tag) in steps)
  }

  /**
   Where settle calls report what happened, the finished deliveries that still hold a slot on a
   live channel are exactly those whose one settle call failed.
   */
  lemma HeldSlotsAreFailedSettles(sys: System, steps: seq<Step>, tag: nat)
    requires sys.Valid() && Enables(sys, steps) && IsDone(Run(sys, steps), tag) && CloseChannel(tag) !in steps
    requires forall i :: 0 <= i < |steps| ==> SettleHonest(steps, i)
    ensures tag in Run(sys, steps).unacked <==> DispositionOf(Run(sys, steps).works[tag].phase.o) == LeftForRedelivery
  {
    var o := Run(sys, steps).works[tag].phase.o;
    FinishedDispatch(sys, steps, tag);
    SlotsAreExact(sys, steps, tag);
    RunKeepsTags(sys, steps);
    var settle := Last(StepsOf(steps, tag));
    StoryInSteps(steps, tag, settle);
    var i :| 0 <= i < |steps| && steps[i] == settle;
    assert SettleHonest(steps, i);
    if Freed(steps, tag) {
      var j :| 0 <= j < |steps| && Frees(steps[j], tag);
      OneSettle(sys, steps, tag, i, j);
    } else {
      assert !Frees(steps[i], tag);
    }
  }

  lemma {:induction false} StoryInSteps(steps: seq<Step>, tag: nat, step: Step)
    requires step in StepsOf(steps, tag)
    ensures step in steps
  {
    if steps != [] {
      if step in StepsOf(Most(steps), tag) {
        StoryInSteps(Most(steps), tag, step);
      }
    }
  }
}
