/**
 Absolute deadlines carried across processes (`hexeract-bus/src/deadline.rs`,
 `rpc_protocol.rs::read_deadline`). Wall-clock and monotonic readings are nanosecond
 counts supplied by the caller.
 */
module Deadlines {
  import opened Bytes
  import opened Wire

  const NANOS_PER_MILLI := 1_000_000
  const MAX_DEADLINE_HORIZON: nat := 3600 * NANOS_PER_SECOND
  const CLOCK_SKEW_TOLERANCE: nat := 1 * NANOS_PER_SECOND

  datatype DeadlineViolation = Unreadable | BeyondHorizon

  /** A deadline on the monotonic clock of this process. */
  datatype LocalDeadline = LocalDeadline(expiresAt: int) {
    predicate IsExpired(monotonic: int) {
      expiresAt < monotonic
    }
  }

  datatype DeadlineReading = Absent | Live(deadline: LocalDeadline) | Expired | Invalid(violation: DeadlineViolation)

  /** A timeout that overflows the wall clock yields `now` itself. */
  function FromWallClock(p: Platform, now: int, timeout: nat): int {
    if p.Represents(now + timeout) then now + timeout else now
  }

  function WithinHorizon(p: Platform, now: int, timeout: nat): Option<int> {
    if timeout <= MAX_DEADLINE_HORIZON then Some(FromWallClock(p, now, timeout)) else None
  }

  function FromUnixMillis(p: Platform, millis: int): Result<int, DeadlineViolation> {
    if p.Represents(millis * NANOS_PER_MILLI) then Ok(millis * NANOS_PER_MILLI) else Err(Unreadable)
  }

  /** Saturates at the `i64` bounds; a sub-millisecond remainder is dropped toward the epoch on either side of it. */
  function ToUnixMillis(t: int): int {
    if t >= 0 then
      var millis := t / NANOS_PER_MILLI;
      if millis <= I64_MAX then millis else I64_MAX
    else
      var millis := (-t) / NANOS_PER_MILLI;
      if millis <= I64_MAX then -millis else I64_MIN
  }

  /** The single place where a wire deadline meets the wall clock. */
  function Anchor(p: Platform, deadline: int, now: int, monotonic: int): DeadlineReading {
    if !p.Represents(now + MAX_DEADLINE_HORIZON) || deadline > now + MAX_DEADLINE_HORIZON then Invalid(BeyondHorizon)
    else if !p.Represents(deadline + CLOCK_SKEW_TOLERANCE) then Invalid(BeyondHorizon)
    else
      var tolerated := deadline + CLOCK_SKEW_TOLERANCE;
      if now <= tolerated then Live(LocalDeadline(monotonic + (tolerated - now))) else Expired
  }

  function ReadDeadline(p: Platform, header: Option<Text>, now: int, monotonic: int): DeadlineReading {
    match header
    case None => Absent
    case Some(text) =>
      match ParseInt(text, I64_MIN, I64_MAX)
      case None => Invalid(Unreadable)
      case Some(millis) =>
        match FromUnixMillis(p, millis)
        case Err(violation) => Invalid(violation)
        case Ok(deadline) => Anchor(p, deadline, now, monotonic)
  }

  /** Every representable millisecond count survives, `i64::MIN` included. */
  lemma MillisRoundTrip(p: Platform, millis: int)
    requires I64_MIN <= millis <= I64_MAX && FromUnixMillis(p, millis).Ok?
    ensures ToUnixMillis(FromUnixMillis(p, millis).value) == millis
  {
    if millis < 0 {
      assert (-(millis * NANOS_PER_MILLI)) / NANOS_PER_MILLI == -millis;
    }
  }

  /** The other way round an instant moves toward the epoch, by less than a millisecond unless the count saturates. */
  lemma InstantRoundTrip(p: Platform, t: int)
    requires p.HasEpoch() && p.Represents(t)
    ensures FromUnixMillis(p, ToUnixMillis(t)).Ok?
    ensures var back := FromUnixMillis(p, ToUnixMillis(t)).value;
            if t >= 0 then 0 <= back <= t && (t - back < NANOS_PER_MILLI <==> t < (I64_MAX + 1) * NANOS_PER_MILLI)
            else t <= back <= 0 && (back - t < NANOS_PER_MILLI <==> t > (I64_MIN - 1) * NANOS_PER_MILLI)
  {
    if t < 0 {
      var millis := (-t) / NANOS_PER_MILLI;
      assert millis * NANOS_PER_MILLI <= -t < (millis + 1) * NANOS_PER_MILLI;
    }
  }

  /**
   What any header reads as, whatever clocks sent and received it: no header is no deadline,
   text that names no instant of this platform is unreadable, and an instant is refused,
   expired or live by where it lies around the receiver's clock.
   */
  lemma ReadingExactly(p: Platform, header: Option<Text>, now: int, monotonic: int)
    ensures var reading := ReadDeadline(p, header, now, monotonic);
            && (reading.Absent? <==> header.None?)
            && (header.Some? ==>
                  match ParseInt(header.value, I64_MIN, I64_MAX)
                  case None => reading == Invalid(Unreadable)
                  case Some(millis) =>
                    var due := millis * NANOS_PER_MILLI;
                    var judged := && p.Represents(now + MAX_DEADLINE_HORIZON) && due <= now + MAX_DEADLINE_HORIZON
                                  && p.Represents(due + CLOCK_SKEW_TOLERANCE);
                    && (reading == Invalid(Unreadable) <==> !p.Represents(due))
                    && (reading == Invalid(BeyondHorizon) <==> p.Represents(due) && !judged)
                    && (reading.Expired? <==> p.Represents(due) && judged && due + CLOCK_SKEW_TOLERANCE < now)
                    && (reading.Live? <==> p.Represents(due) && judged && now <= due + CLOCK_SKEW_TOLERANCE)
                    && (reading.Live? ==>
                          reading.deadline.expiresAt - monotonic == due + CLOCK_SKEW_TOLERANCE - now))
  {
  }

  /** Whatever the wire said, an accepted deadline leaves between nothing and the horizon plus the tolerance. */
  lemma LiveIsBounded(p: Platform, header: Option<Text>, now: int, monotonic: int)
    requires ReadDeadline(p, header, now, monotonic).Live?
    ensures var expiresAt := ReadDeadline(p, header, now, monotonic).deadline.expiresAt;
            0 <= expiresAt - monotonic <= MAX_DEADLINE_HORIZON + CLOCK_SKEW_TOLERANCE
  {
  }

  /** The header a caller stamps for a timeout within the horizon. */
  function StampedDeadline(p: Platform, now: int, timeout: nat): Text {
    PrintInt(ToUnixMillis(FromWallClock(p, now, timeout)))
  }

  /**
   Caller and responder on their own clocks and platforms. The wire deadline is never late,
   and less than a millisecond early unless the count saturates; a responder whose clock
   has reached the caller's reading refuses it only when its own platform cannot represent
   the instants it needs, and otherwise honours it exactly until the tolerance runs out.
   */
  lemma DeadlineAcrossProcesses(caller: Platform, responder: Platform, sent: int, timeout: nat, received: int,
                                monotonic: int)
    requires 0 <= sent <= received && timeout <= MAX_DEADLINE_HORIZON
    ensures var target := FromWallClock(caller, sent, timeout);
            var due := ToUnixMillis(target) * NANOS_PER_MILLI;
            var reading := ReadDeadline(responder, Some(StampedDeadline(caller, sent, timeout)), received, monotonic);
            && target == (if caller.Represents(sent + timeout) then sent + timeout else sent)
            && 0 <= due <= target
            && (target - due < NANOS_PER_MILLI <==> target < (I64_MAX + 1) * NANOS_PER_MILLI)
            && (reading == Invalid(Unreadable) <==> !responder.Represents(due))
            && (reading == Invalid(BeyondHorizon) <==>
                 responder.Represents(due)
                 && !(responder.Represents(received + MAX_DEADLINE_HORIZON)
                     && responder.Represents(due + CLOCK_SKEW_TOLERANCE)))
            && (reading.Live? <==> !reading.Invalid? && received <= due + CLOCK_SKEW_TOLERANCE)
            && (reading.Live? ==> reading.deadline.expiresAt == monotonic + (due + CLOCK_SKEW_TOLERANCE - received))
  {
    IntRoundTrip(ToUnixMillis(FromWallClock(caller, sent, timeout)), I64_MIN, I64_MAX);
  }
}
