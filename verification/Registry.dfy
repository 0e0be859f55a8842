/**
 The caller's slot table (`hexeract-bus/src/request_registry.rs`) and the bounded memory
 of the identities that recently left it (`slot_retirement.rs`).
 */
module Registry {
  import opened Bytes
  import opened Envelopes
  import opened Amqp
  import opened Wire
  import opened Replies

  // ---- RetiredSlots: a bounded memory over an unbounded history ----

  datatype SlotRetirement = Resolved | Abandoned

  type RetirementLog = seq<(Uuid, SlotRetirement)>

  function LastN<T>(s: seq<T>, n: nat): seq<T> {
    if |s| <= n then s else s[|s| - n..]
  }

  /** Every insertion the history made: an id is inserted when the window does not hold it. */
  ghost function Insertions(log: RetirementLog, capacity: nat): seq<Uuid> {
    if log == [] then []
    else
      var before := Insertions(log[..|log| - 1], capacity);
      var id := log[|log| - 1].0;
      if id in LastN(before, capacity) then before else before + [id]
  }

  /** The identities remembered: those among the last `capacity` insertions. */
  ghost function Window(log: RetirementLog, capacity: nat): seq<Uuid> {
    LastN(Insertions(log, capacity), capacity)
  }

  /** The most recent retirement of `id`, however long ago. */
  ghost function Latest(log: RetirementLog, id: Uuid): Option<SlotRetirement> {
    if log == [] then None
    else if log[|log| - 1].0 == id then Some(log[|log| - 1].1)
    else Latest(log[..|log| - 1], id)
  }

  ghost predicate NoDuplicates<T>(s: seq<T>) {
    forall i, j :: 0 <= i < j < |s| ==> s[i] != s[j]
  }

  /** How one more retirement moves the window. */
  ghost function Slide(window: seq<Uuid>, id: Uuid, capacity: nat): seq<Uuid> {
    if id in window || capacity == 0 then window
    else if |window| < capacity then window + [id]
    else window[1..] + [id]
  }

  /** What a registry of this capacity still knows of a retired slot. */
  ghost function Remembered(log: RetirementLog, id: Uuid, capacity: nat): Option<SlotRetirement> {
    if id in Window(log, capacity) then Latest(log, id) else None
  }

  lemma WindowStep(log: RetirementLog, id: Uuid, retirement: SlotRetirement, capacity: nat)
    ensures Window(log + [(id, retirement)], capacity) == Slide(Window(log, capacity), id, capacity)
  {
    var longer := log + [(id, retirement)];
    assert longer[..|longer| - 1] == log && longer[|longer| - 1] == (id, retirement);
    assert Window(longer, capacity)
        == Slide(Window(longer[..|longer| - 1], capacity), longer[|longer| - 1].0, capacity);
  }

  lemma LatestStep(log: RetirementLog, id: Uuid, retirement: SlotRetirement, x: Uuid)
    ensures Latest(log + [(id, retirement)], x) == if x == id then Some(retirement) else Latest(log, x)
  {
    var longer := log + [(id, retirement)];
    assert longer[..|longer| - 1] == log;
  }

  lemma {:induction false} WindowDistinct(log: RetirementLog, capacity: nat)
    ensures |Window(log, capacity)| <= capacity && NoDuplicates(Window(log, capacity))
  {
    if log != [] {
      var before := log[..|log| - 1];
      var last := log[|log| - 1];
      WindowDistinct(before, capacity);
      WindowStep(before, last.0, last.1, capacity);
      SlideDistinct(Window(before, capacity), last.0, capacity);
      assert log == before + [(last.0, last.1)];
    }
  }

  lemma SlideDistinct(window: seq<Uuid>, id: Uuid, capacity: nat)
    requires |window| <= capacity && NoDuplicates(window)
    ensures |Slide(window, id, capacity)| <= capacity && NoDuplicates(Slide(window, id, capacity))
  {
  }

  /** Map and deque hold the same ids, each with its latest retirement. */
  ghost predicate Agree(entries: map<Uuid, SlotRetirement>, order: seq<Uuid>, log: RetirementLog) {
    && (forall id :: id in entries <==> id in order)
    && (forall id :: id in entries ==> Some(entries[id]) == Latest(log, id))
  }

  lemma AgreeUpdate(entries: map<Uuid, SlotRetirement>, order: seq<Uuid>, log: RetirementLog, id: Uuid,
                    retirement: SlotRetirement)
    requires Agree(entries, order, log) && id in entries
    ensures Agree(entries[id := retirement], order, log + [(id, retirement)])
  {
    forall x | x in entries ensures Latest(log + [(id, retirement)], x) == if x == id then Some(retirement)
        else Latest(log, x) {
      LatestStep(log, id, retirement, x);
    }
  }

  lemma AgreeInsert(entries: map<Uuid, SlotRetirement>, order: seq<Uuid>, log: RetirementLog, id: Uuid,
                    retirement: SlotRetirement)
    requires Agree(entries, order, log)
    ensures Agree(entries[id := retirement], order + [id], log + [(id, retirement)])
  {
    forall x | x == id || x in entries ensures Latest(log + [(id, retirement)], x) == if x == id
        then Some(retirement) else Latest(log, x) {
      LatestStep(log, id, retirement, x);
    }
  }

  class RetiredSlots {
    const capacity: nat
    var entries: map<Uuid, SlotRetirement>
    var order: seq<Uuid>

    /** Every `record` ever made. */
    ghost var log: RetirementLog

    /** The deque is the window, and the map gives each remembered id its latest retirement. */
    ghost predicate Valid()
      reads this
    {
      order == Window(log, capacity) && Agree(entries, order, log)
    }

    constructor (capacity: nat)
      ensures Valid() && log == [] && this.capacity == capacity
    {
      this.capacity := capacity;
      entries, order, log := map[], [], [];
    }

    method Record(id: Uuid, retirement: SlotRetirement)
      requires Valid()
      modifies this
      ensures Valid() && log == old(log) + [(id, retirement)]
    {
      ghost var history := log;
      ghost var next := Slide(order, id, capacity);
      assert Window(history + [(id, retirement)], capacity)
          == next by { WindowStep(history, id, retirement, capacity); }
      WindowDistinct(history, capacity);
      log := log + [(id, retirement)];
      if capacity == 0 {
        return;
      }
      if id in entries {
        AgreeUpdate(entries, order, history, id, retirement);
        entries := entries[id := retirement];
        return;
      }
      MakeRoom(history);
      AgreeInsert(entries, order, history, id, retirement);
      assert order + [id] == next;
      order := order + [id];
      entries := entries[id := retirement];
    }

    /** Evict from the front until one more entry fits. */
    method MakeRoom(ghost history: RetirementLog)
      requires 0 < capacity && |order| <= capacity && NoDuplicates(order) && Agree(entries, order, history)
      modifies this`order, this`entries
      ensures order == if |old(order)| < capacity then old(order) else old(order)[1..]
      ensures Agree(entries, order, history)
    {
      while |order| >= capacity
        invariant order == old(order) || (order == old(order)[1..] && |old(order)| == capacity)
        invariant Agree(entries, order, history)
        decreases |order|
      {
        var evicted := order[0];
        assert order == [evicted] + order[1..];
        order := order[1..];
        entries := entries - {evicted};
      }
    }

    /** What is remembered of `id`: its latest retirement, exactly while its insertion is in the window. */
    method Lookup(id: Uuid) returns (r: Option<SlotRetirement>)
      requires Valid()
      ensures r == Remembered(log, id, capacity)
    {
      return if id in entries then Some(entries[id]) else None;
    }
  }

  // ---- RequestRegistry ----

  datatype Slot = Slot(replyType: Text, lastRejection: Option<Rejection>, rejectedDeliveries: nat) {
    /** Note a refused delivery; the count is a saturating `u32`. */
    function Refuse(rejection: Rejection): Slot {
      this.(lastRejection := Some(rejection),
            rejectedDeliveries := if rejectedDeliveries < U32_MAX then rejectedDeliveries + 1 else U32_MAX)
    }
  }

  type Slots = map<Uuid, Slot>

  datatype Authentication = NotEnforced | WaivedUnsigned | Authenticated(issuer: Text)

  /** Deliveries the registry did not route, by reason. */
  datatype ReplyCounters = ReplyCounters(undecodable: nat, orphaned: nat, unauthenticated: nat, invalid: nat,
                                         duplicate: nat, late: nat) {
    function Total(): nat {
      undecodable + orphaned + unauthenticated + invalid + duplicate + late
    }
  }

  /** What becomes of one delivery. `authentication` is absent when the transport refused it. */
  datatype Verdict =
    Unauthentic | Orphaned | Duplicate | Late | Invalid(id: Uuid, rejection: Rejection) | Deliver(id: Uuid)

  /** A delivery no slot waits for, by what became of the slot it names. */
  function Unclaimed(remembered: Option<SlotRetirement>): Verdict {
    match remembered
    case Some(Resolved) => Duplicate
    case Some(Abandoned) => Late
    case None => Orphaned
  }

  function VerdictOn(f: Formats, slots: Slots, remembered: Option<SlotRetirement>, e: Envelope,
                     authenticated: bool): Verdict {
    var id := ReadRequestId(f.uuid, e);
    if !authenticated then Unauthentic
    else if id.None? then Orphaned
    else if id.value !in slots then Unclaimed(remembered)
    else
      var judged := Judge(f, slots[id.value].replyType, e, id.value);
      if judged.Err? then Invalid(id.value, judged.error) else Deliver(id.value)
  }

  function Counted(n: ReplyCounters, v: Verdict): ReplyCounters {
    match v
    case Unauthentic => n.(unauthenticated := n.unauthenticated + 1)
    case Orphaned => n.(orphaned := n.orphaned + 1)
    case Duplicate => n.(duplicate := n.duplicate + 1)
    case Late => n.(late := n.late + 1)
    case Invalid(_, _) => n.(invalid := n.invalid + 1)
    case Deliver(_) => n
  }

  /** Only a winning reply consumes its slot; a refused one leaves it pending and notes why. */
  function SlotsAfter(f: Formats, slots: Slots, v: Verdict, e: Envelope): Slots {
    match v
    case Unauthentic =>
      var id := ReadRequestId(f.uuid, e);
      if id.Some? && id.value in slots then slots[id.value := slots[id.value].Refuse(Unauthenticated)] else slots
    case Invalid(id, rejection) => if id in slots then slots[id := slots[id].Refuse(rejection)] else slots
    case Deliver(id) => slots - {id}
    case _ => slots
  }

  ghost function ResolvedCount(log: RetirementLog): nat {
    if log == [] then 0 else ResolvedCount(log[..|log| - 1]) + (if log[|log| - 1].1.Resolved? then 1 else 0)
  }

  /** A reply handed to a waiting caller answers that caller's own request, in a form it may take. */
  predicate Rightful(f: Formats, d: (Uuid, Text, Envelope)) {
    ReadRequestId(f.uuid, d.2) == Some(d.0) && Acceptable(f, d.1, d.2, d.0)
  }

  /** The delivery was authenticated and names a waiting call it is an acceptable reply to. */
  predicate Wins(f: Formats, slots: Slots, e: Envelope, authenticated: bool, id: Uuid) {
    && authenticated && ReadRequestId(f.uuid, e) == Some(id) && id in slots
    && Acceptable(f, slots[id].replyType, e, id)
  }

  /** What becomes of a delivery, on its headers, its payload and the slots: the verdicts exclude each other. */
  lemma VerdictExactly(f: Formats, slots: Slots, remembered: Option<SlotRetirement>, e: Envelope, authenticated: bool)
    ensures var v, id := VerdictOn(f, slots, remembered, e, authenticated), ReadRequestId(f.uuid, e);
            && (forall x :: v == Deliver(x) <==> Wins(f, slots, e, authenticated, x))
            && (v.Unauthentic? <==> !authenticated)
            && (v.Orphaned? <==> authenticated && (id.None? || (id.value !in slots && remembered.None?)))
            && (v.Duplicate? <==> authenticated && id.Some? && id.value !in slots && remembered == Some(Resolved))
            && (v.Late? <==> authenticated && id.Some? && id.value !in slots && remembered == Some(Abandoned))
            && (v.Invalid? ==> id == Some(v.id) && v.id in slots
                               && Breaks(f, slots[v.id].replyType, e, v.id, v.rejection))
  {
    var id := ReadRequestId(f.uuid, e);
    if id.Some? && id.value in slots {
      GateExactly(f, slots[id.value].replyType, e, id.value);
    }
  }

  /** Every delivery that does not win is counted once, under its own reason. */
  lemma CountedExactly(n: ReplyCounters, v: Verdict)
    ensures var m := Counted(n, v);
            && m.undecodable == n.undecodable
            && m.unauthenticated == n.unauthenticated + (if v.Unauthentic? then 1 else 0)
            && m.orphaned == n.orphaned + (if v.Orphaned? then 1 else 0)
            && m.duplicate == n.duplicate + (if v.Duplicate? then 1 else 0)
            && m.late == n.late + (if v.Late? then 1 else 0)
            && m.invalid == n.invalid + (if v.Invalid? then 1 else 0)
  {
  }

  /**
   Only a winning reply takes a slot away, its own. Any other delivery leaves every call waiting
   for the type it awaited, and at most notes on the call it names why it was refused.
   */
  lemma SlotsExactly(f: Formats, slots: Slots, remembered: Option<SlotRetirement>, e: Envelope, authenticated: bool,
                     x: Uuid)
    ensures var v := VerdictOn(f, slots, remembered, e, authenticated);
            var after := SlotsAfter(f, slots, v, e);
            && (x in after <==> x in slots && !Wins(f, slots, e, authenticated, x))
            && (x in after ==>
                  && after[x].replyType == slots[x].replyType
                  && (after[x] != slots[x] ==> ReadRequestId(f.uuid, e) == Some(x))
                  && (ReadRequestId(f.uuid, e) == Some(x) ==>
                        && after[x].lastRejection == Some(if v.Invalid? then v.rejection else Unauthenticated)
                        && (slots[x].rejectedDeliveries < U32_MAX
                            ==> after[x].rejectedDeliveries == slots[x].rejectedDeliveries + 1)
                        && (slots[x].rejectedDeliveries == U32_MAX ==> after[x].rejectedDeliveries == U32_MAX)))
  {
    VerdictExactly(f, slots, remembered, e, authenticated);
  }

  datatype RegisterRejection = AtCapacity | Closed | SlotOccupied

  class RequestRegistry {
    const f: Formats
    const maxInFlight: nat
    const retired: RetiredSlots
    var slots: Slots
    var closed: bool
    var counters: ReplyCounters

    /** Replies sent to waiting callers: the request, the type it awaited, the envelope. */
    var delivered: seq<(Uuid, Text, Envelope)>

    ghost var registered: nat
    ghost var deliveries: nat

    /**
     Conservation over any sequence of operations: every registration is pending or was
     retired once, every resolved retirement delivered one rightful reply, and every
     delivery was routed or counted once.
     */
    ghost predicate Valid()
      reads this, retired
    {
      && retired.Valid() && retired.capacity == maxInFlight
      && |slots| <= maxInFlight && (closed ==> slots == map[])
      && registered == |slots| + |retired.log|
      && |delivered| == ResolvedCount(retired.log)
      && deliveries == |delivered| + counters.Total()
      && forall i :: 0 <= i < |delivered| ==> Rightful(f, delivered[i])
    }

    constructor (f: Formats, maxInFlight: nat)
      ensures Valid() && slots == map[] && !closed && delivered == [] && fresh(retired)
      ensures this.f == f && this.maxInFlight == maxInFlight
    {
      this.f, this.maxInFlight := f, maxInFlight;
      retired := new RetiredSlots(maxInFlight);
      slots, closed, counters, delivered := map[], false, ReplyCounters(0, 0, 0, 0, 0, 0), [];
      registered, deliveries := 0, 0;
    }

    method Register(id: Uuid, replyType: Text) returns (r: Result<(), RegisterRejection>)
      requires Valid()
      modifies this`slots, this`registered
      ensures Valid()
      ensures r.Ok? <==> !closed && id !in old(slots) && |old(slots)| < maxInFlight
      ensures r.Err? ==> slots == old(slots)
                         && r.error == if closed then Closed else if id in slots then SlotOccupied else AtCapacity
      ensures r.Ok? ==> slots == old(slots)[id := Slot(replyType, None, 0)]
    {
      if closed {
        return Err(Closed);
      }
      if id in slots {
        return Err(SlotOccupied);
      }
      if |slots| >= maxInFlight {
        return Err(AtCapacity);
      }
      slots := slots[id := Slot(replyType, None, 0)];
      registered := registered + 1;
      return Ok(());
    }

    /** Route one delivery: the first valid reply wins, and any other delivery changes no outcome. */
    method Resolve(e: Envelope, authentication: Option<Authentication>)
      requires Valid()
      modifies this`slots, this`counters, this`delivered, this`deliveries, retired
      ensures Valid() && deliveries == old(deliveries) + 1
      ensures var id := ReadRequestId(f.uuid, e);
              var remembered := if id.Some? then Remembered(old(retired.log), id.value, maxInFlight) else None;
              var verdict := VerdictOn(f, old(slots), remembered, e, authentication.Some?);
              && counters == Counted(old(counters), verdict)
              && slots == SlotsAfter(f, old(slots), verdict, e)
              && (if verdict.Deliver?
                  then delivered == old(delivered) + [(verdict.id, old(slots)[verdict.id].replyType, e)]
                       && retired.log == old(retired.log) + [(verdict.id, Resolved)]
                  else delivered == old(delivered) && retired.log == old(retired.log))
      ensures forall id :: Wins(f, old(slots), e, authentication.Some?, id)
                           ==> delivered == old(delivered) + [(id, old(slots)[id].replyType, e)]
      ensures (forall id :: !Wins(f, old(slots), e, authentication.Some?, id)) ==> delivered == old(delivered)
    {
      var id := ReadRequestId(f.uuid, e);
      ghost var remembered := if id.Some? then Remembered(retired.log, id.value, maxInFlight) else None;
      VerdictExactly(f, slots, remembered, e, authentication.Some?);
      if authentication.None? {
        RefuseUnauthentic(id);
        return;
      }
      if id.None? {
        CountRefused(Orphaned);
        return;
      }
      if id.value !in slots {
        var remembered := retired.Lookup(id.value);
        CountRefused(Unclaimed(remembered));
        return;
      }
      Claim(id.value, e);
    }

    method RefuseUnauthentic(id: Option<Uuid>)
      requires Valid()
      modifies this`slots, this`counters, this`deliveries
      ensures Valid() && deliveries == old(deliveries) + 1 && counters == Counted(old(counters), Unauthentic)
      ensures slots == if id.Some? && id.value in old(slots)
              then old(slots)[id.value := old(slots)[id.value].Refuse(Unauthenticated)] else old(slots)
    {
      CountRefused(Unauthentic);
      if id.Some? && id.value in slots {
        NoteRefusal(id.value, Unauthenticated);
      }
    }

    /** Judge a delivery against the slot it names. */
    method Claim(id: Uuid, e: Envelope)
      requires Valid() && id in slots && ReadRequestId(f.uuid, e) == Some(id)
      modifies this`slots, this`counters, this`delivered, this`deliveries, retired
      ensures Valid() && deliveries == old(deliveries) + 1
      ensures var verdict := VerdictOn(f, old(slots), None, e, true);
              && counters == Counted(old(counters), verdict)
              && slots == SlotsAfter(f, old(slots), verdict, e)
              && (if verdict.Deliver?
                  then verdict.id == id && delivered == old(delivered) + [(id, old(slots)[id].replyType, e)]
                       && retired.log == old(retired.log) + [(id, Resolved)]
                  else delivered == old(delivered) && retired.log == old(retired.log))
    {
      GateExactly(f, slots[id].replyType, e, id);
      var judged := Judge(f, slots[id].replyType, e, id);
      if judged.Err? {
        RefuseReply(id, judged.error);
      } else {
        HandOver(id, e);
      }
    }

    method RefuseReply(id: Uuid, rejection: Rejection)
      requires Valid() && id in slots
      modifies this`slots, this`counters, this`deliveries
      ensures Valid() && deliveries == old(deliveries) + 1
      ensures slots == old(slots)[id := old(slots)[id].Refuse(rejection)] && counters
              == Counted(old(counters), Invalid(id, rejection))
    {
      NoteRefusal(id, rejection);
      CountRefused(Invalid(id, rejection));
    }

    method CountRefused(v: Verdict)
      requires Valid() && !v.Deliver?
      modifies this`counters, this`deliveries
      ensures Valid() && deliveries == old(deliveries) + 1 && counters == Counted(old(counters), v)
    {
      deliveries := deliveries + 1;
      match v {
        case Unauthentic => counters := counters.(unauthenticated := counters.unauthenticated + 1);
        case Orphaned => counters := counters.(orphaned := counters.orphaned + 1);
        case Duplicate => counters := counters.(duplicate := counters.duplicate + 1);
        case Late => counters := counters.(late := counters.late + 1);
        case Invalid(_, _) => counters := counters.(invalid := counters.invalid + 1);
      }
    }

    method NoteRefusal(id: Uuid, rejection: Rejection)
      requires Valid() && id in slots
      modifies this`slots
      ensures Valid() && slots == old(slots)[id := old(slots)[id].Refuse(rejection)]
    {
      ReplaceKeepsSize(slots, id, slots[id].Refuse(rejection));
      slots := slots[id := slots[id].Refuse(rejection)];
    }

    /** Consume the slot and send its caller the reply. */
    method HandOver(id: Uuid, e: Envelope)
      requires Valid() && id in slots && Rightful(f, (id, slots[id].replyType, e))
      modifies this`slots, this`delivered, this`deliveries, retired
      ensures Valid() && deliveries == old(deliveries) + 1 && slots == old(slots) - {id}
      ensures delivered == old(delivered) + [(id, old(slots)[id].replyType, e)]
      ensures retired.log == old(retired.log) + [(id, Resolved)]
    {
      DropShrinks(slots, id);
      ResolvedCountStep(retired.log, id, Resolved);
      delivered := delivered + [(id, slots[id].replyType, e)];
      slots := slots - {id};
      retired.Record(id, Resolved);
      deliveries := deliveries + 1;
    }

    method RecordUndecodable()
      requires Valid()
      modifies this`counters, this`deliveries
      ensures Valid() && counters == old(counters).(undecodable := old(counters).undecodable + 1)
    {
      counters := counters.(undecodable := counters.undecodable + 1);
      deliveries := deliveries + 1;
    }

    /** Dropping a pending reply: only a slot still present counts as abandoned. */
    method Remove(id: Uuid)
      requires Valid()
      modifies this`slots, retired
      ensures Valid() && slots == old(slots) - {id}
      ensures retired.log == old(retired.log) + (if id in old(slots) then [(id, Abandoned)] else [])
    {
      if id in slots {
        DropShrinks(slots, id);
        slots := slots - {id};
        ResolvedCountStep(retired.log, id, Abandoned);
        retired.Record(id, Abandoned);
      } else {
        assert slots - {id} == slots;
      }
    }

    /** Fail every pending call, in whatever order the map is walked. */
    method Drain()
      requires Valid()
      modifies this`slots, retired
      ensures Valid() && slots == map[] && old(retired.log) <= retired.log
      ensures forall id :: id in old(slots) ==> Latest(retired.log, id) == Some(Abandoned)
    {
      while slots != map[]
        invariant Valid() && slots.Keys <= old(slots.Keys) && old(retired.log) <= retired.log
        invariant forall id :: id in old(slots) && id !in slots ==> Latest(retired.log, id) == Some(Abandoned)
        decreases |slots|
      {
        var id :| id in slots;
        ghost var history := retired.log;
        DropShrinks(slots, id);
        Remove(id);
        forall x | x in old(slots) && x !in slots ensures Latest(retired.log, x) == Some(Abandoned) {
          LatestStep(history, id, Abandoned, x);
        }
      }
    }

    method Close()
      requires Valid()
      modifies this`slots, this`closed, retired
      ensures Valid() && closed && slots == map[] && old(retired.log) <= retired.log
      ensures forall id :: id in old(slots) ==> Latest(retired.log, id) == Some(Abandoned)
    {
      Drain();
      closed := true;
    }
  }

  lemma ReplaceKeepsSize(slots: Slots, id: Uuid, slot: Slot)
    requires id in slots
    ensures |slots[id := slot]| == |slots|
  {
    assert slots[id := slot].Keys == slots.Keys;
  }

  lemma DropShrinks(slots: Slots, id: Uuid)
    requires id in slots
    ensures |slots - {id}| == |slots| - 1
  {
    assert (slots - {id}).Keys == slots.Keys - {id};
  }

  lemma ResolvedCountStep(log: RetirementLog, id: Uuid, retirement: SlotRetirement)
    ensures ResolvedCount(log + [(id, retirement)]) == ResolvedCount(log) + (if retirement.Resolved? then 1 else 0)
  {
    var longer := log + [(id, retirement)];
    assert longer[..|longer| - 1] == log;
  }

  /**
   The whole exchange: a reply the responder published, received on the caller's inbox
   with its transport verification passed, resolves the slot of the request it answers,
   whatever the registry remembers.
   */
  lemma PublishedReplyResolvesItsCall(f: Formats, p: Platform, replyType: Text, e: Envelope, requestId: Uuid,
                                      limits: MetadataLimits, security: Headers, userId: Option<Text>,
                                      required: RequiredFields, minted: Minted, maxPayload: nat,
                                      received: Result<Envelope, BusError>, slots: Slots,
                                      remembered: Option<SlotRetirement>)
    requires f.Lawful() && p.HasEpoch() && p.Represents(e.publishedAt)
    requires IsReply(f, replyType, e, requestId) && Utf8Values(security) && security.Keys <= SECURITY_HEADERS
    requires CanPublish(e, limits, security, userId) && |e.payload| <= maxPayload
    requires DecodesTo(f.uuid, p, PropertiesOf(f.uuid, e, security, userId), e.payload, maxPayload, limits, required,
                       minted, received)
    requires requestId in slots && slots[requestId].replyType == replyType
    ensures received.Ok? && VerdictOn(f, slots, remembered, received.value, true) == Deliver(requestId)
  {
    ReplyReachesItsCaller(f, p, replyType, e, requestId, limits, security, userId, required, minted, maxPayload,
                          received);
  }
}
