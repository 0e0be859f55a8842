/**
 Who a message is, over whole runs: which copies decode to the identity it was published with, and
 when they may differ.
 */
module Identities {
  import opened Bytes
  import opened Envelopes
  import opened Metadata
  import opened Wire
  import opened Worker
  import opened Retries
  import opened Broker
  import opened Journeys
  import opened Retrying

  lemma DecodedAs(sys: System, d: Delivery, minted: Minted, r: Result<Envelope, BusError>)
    requires sys.Decodes(d, minted, r) && r.Ok?
    ensures (r.value.messageId, r.value.correlationId) == IdentityOf(sys.f, d.props, minted)
  {
    var t := TableOf(d.props);
    DecodedIdentity(sys.f, sys.platform, d.props, d.body, sys.cfg.required, minted,
                    (StringHeaders(t, false), StringHeaders(t, true)));
  }

  /**
   After any run, of a message published with two parseable identifiers every copy, whatever
   was requeued, duplicated or dead-lettered, carries them byte for byte and decodes to them.
   */
  lemma StableIdentity(sys: System, steps: seq<Step>, m: Message, minted: Minted, r: Result<Envelope, BusError>)
    requires sys.Valid() && Enables(sys, steps) && Somewhere(Run(sys, steps), m)
    requires m.origin < |Run(sys, steps).published| && HasIdentity(sys.f, Run(sys, steps).published[m.origin].props)
    ensures SameSpelling(m.content.props, Run(sys, steps).published[m.origin].props)
    ensures sys.Decodes(m.content, minted, r) && r.Ok?
            ==> (r.value.messageId, r.value.correlationId)
                == IdentityOf(sys.f, Run(sys, steps).published[m.origin].props, minted)
  {
    RunFollows(sys, steps, m.origin);
    if sys.Decodes(m.content, minted, r) && r.Ok? {
      DecodedAs(sys, m.content, minted, r);
    }
  }

  /** In the main queue, or delivered and not yet settled. */
  ghost predicate BeforeWorker(s: State, m: Message) {
    m in s.main || exists t :: t in s.unacked && s.unacked[t] == m
  }

  /**
   After any run, a copy that has been retried decodes to one identity at every attempt,
   whatever the attempt would have minted, and differs from what was published in its
   delivery mode, the broker's headers and unparseable identifiers only.
   */
  lemma RetriedIdentity(sys: System, steps: seq<Step>, m: Message, minted: Minted, other: Minted,
                        r: Result<Envelope, BusError>)
    requires sys.Valid() && Enables(sys, steps) && m.origin < |Run(sys, steps).published|
    requires m in Run(sys, steps).waiting || (m.cycles > 0 && BeforeWorker(Run(sys, steps), m))
    ensures SameMessage(sys.f, Run(sys, steps).published[m.origin].props, m.content.props)
    ensures m.content.body == Run(sys, steps).published[m.origin].body
    ensures sys.Decodes(m.content, minted, r) && r.Ok?
            ==> (r.value.messageId, r.value.correlationId) == IdentityOf(sys.f, m.content.props, other)
  {
    RunFollows(sys, steps, m.origin);
    if sys.Decodes(m.content, minted, r) && r.Ok? {
      DecodedAs(sys, m.content, minted, r);
    }
  }

  // ---- Copies that disagree ----

  /** A run that begins by publishing `first` and leaves two copies of it, wherever they are. */
  ghost predicate TwoCopies(sys: System, first: Delivery, steps: seq<Step>, a: Message, b: Message) {
    && steps != [] && steps[0] == Produce(first) && Enables(sys, steps)
    && Somewhere(Run(sys, steps), a) && Somewhere(Run(sys, steps), b) && a.origin == 0 && b.origin == 0
  }

  const ONES: Uuid := [1, 1, 1, 1, 1, 1, 1, 1, 1, 1, 1, 1, 1, 1, 1, 1]

  lemma MintsDiffer(sys: System, m: Message)
    requires sys.f.Lawful() && !HasIdentity(sys.f, m.content.props)
    ensures var a, b := RetryCopyOf(sys, m, Minted(NIL, NIL, 0)), RetryCopyOf(sys, m, Minted(ONES, ONES, 0));
            !SameSpelling(a.content.props, b.content.props)
  {
    assert NIL[0] != ONES[0];
    assert sys.f.parse(sys.f.render(NIL)) == Some(NIL) && sys.f.parse(sys.f.render(ONES)) == Some(ONES);
  }

  /**
   An attempt mints, its copy is stored and the confirmation lost; the delivery is requeued
   and the next attempt mints again. Both copies wait, and every later attempt of either
   decodes to its own identity.
   */
  lemma CopiesDisagree(sys: System, first: Delivery) returns (steps: seq<Step>, a: Message, b: Message)
    requires sys.Valid() && Retriable(sys, first, 0) && !HasIdentity(sys.f, first.props)
    ensures TwoCopies(sys, first, steps, a, b) && a in Run(sys, steps).waiting && b in Run(sys, steps).waiting
    ensures !SameSpelling(a.content.props, b.content.props)
  {
    var m := Message(0, 0, first);
    var minted, again := Minted(NIL, NIL, 0), Minted(ONES, ONES, 0);
    PublishOnly(sys, first);
    var lost := AttemptFails(sys, first, [Produce(first)], m, minted, SendFailed);
    var tag := Run(sys, [Produce(first)]).nextTag;
    Extend(sys, lost, Settle(tag, true, true));
    steps := AttemptFails(sys, first, lost + [Settle(tag, true, true)], m, again, Confirmed(AckConfirmation(false)));
    a, b := RetryCopyOf(sys, m, minted), RetryCopyOf(sys, m, again);
    MintsDiffer(sys, m);
  }

  lemma FollowerSpelling(sys: System, first: Delivery, m: Message)
    requires AtWorker(sys, first, m) || AtWait(sys, first, m) || AtDead(sys, first, m)
    requires HasIdentity(sys.f, first.props) || !Retriable(sys, first, 0)
    ensures SameSpelling(m.content.props, first.props)
  {
    assert m.cycles > 0 ==> Retriable(sys, first, 0);
  }

  lemma CopySpelling(sys: System, first: Delivery, steps: seq<Step>, m: Message)
    requires sys.Valid() && TwoCopies(sys, first, steps, m, m)
    requires HasIdentity(sys.f, first.props) || !Retriable(sys, first, 0)
    ensures SameSpelling(m.content.props, first.props)
  {
    FirstPublished(sys, first, steps);
    RunFollows(sys, steps, 0);
    FollowerSpelling(sys, first, m);
  }

  /**
   All copies of a published message, wherever a run leaves them, spell one identity, in every
   run, exactly when it was published with one or its first attempt is not retried.
   */
  lemma CopiesAgree(sys: System, first: Delivery)
    requires sys.Valid()
    ensures (forall steps, a, b ::
               TwoCopies(sys, first, steps, a, b) ==> SameSpelling(a.content.props, b.content.props))
            <==> HasIdentity(sys.f, first.props) || !Retriable(sys, first, 0)
  {
    if HasIdentity(sys.f, first.props) || !Retriable(sys, first, 0) {
      forall steps, a, b | TwoCopies(sys, first, steps, a, b)
        ensures SameSpelling(a.content.props, b.content.props)
      {
        CopySpelling(sys, first, steps, a);
        CopySpelling(sys, first, steps, b);
      }
    } else {
      var steps, a, b := CopiesDisagree(sys, first);
    }
  }
}
