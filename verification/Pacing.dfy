/**
 How connecting and reconnecting are paced: the connect loop's backoff
 (`hexeract-bus-rabbitmq/src/connection.rs`) and the loop that rebuilds a lost reply inbox
 around it (`request_client.rs`). Durations and instants are nanoseconds.
 */
module Pacing {
  import opened Bytes
  import opened Envelopes

  /** The largest `Duration`: `u64::MAX` seconds and one nanosecond short of another. */
  const DURATION_MAX: nat := 0x1_0000_0000_0000_0000 * 1_000_000_000 - 1

  const MAX_SHIFT: nat := 8

  datatype Attempt = Connected | Transient | Permanent

  datatype RetryConfig = RetryConfig(retryAttempts: nat, baseDelay: nat) {
    /** At least one attempt is always made. */
    function Tries(): nat {
      if retryAttempts == 0 then 1 else retryAttempts
    }

    predicate Valid() {
      baseDelay <= DURATION_MAX
    }
  }

  function Power2(n: nat): (p: nat)
    ensures p >= 1
  {
    if n == 0 then 1 else 2 * Power2(n - 1)
  }

  /** The wait after failed attempt `attempt`: doubling up to 2^8, the base when the product overflows. */
  function Backoff(baseDelay: nat, attempt: nat): (d: nat)
    requires attempt >= 1
    ensures baseDelay <= DURATION_MAX ==> baseDelay <= d <= DURATION_MAX
  {
    var shift := if attempt - 1 < MAX_SHIFT then attempt - 1 else MAX_SHIFT;
    var product := baseDelay * Power2(shift);
    ProductAtLeast(baseDelay, Power2(shift));
    if product > DURATION_MAX then baseDelay else product
  }

  /**
   The first wait is the base delay; each of the next eight is twice the one before while
   that fits a `Duration`, and falls back to the base delay for good when it does not; from the
   ninth on they are all alike.
   */
  lemma BackoffDoubles(baseDelay: nat, attempt: nat)
    requires attempt >= 1 && baseDelay <= DURATION_MAX
    ensures Backoff(baseDelay, 1) == baseDelay
    ensures 1 <= attempt <= 8 && 2 * Backoff(baseDelay, attempt) <= DURATION_MAX
            && (attempt == 1 || Backoff(baseDelay, attempt) != baseDelay)
            ==> Backoff(baseDelay, attempt + 1) == 2 * Backoff(baseDelay, attempt)
    ensures 1 <= attempt <= 8 && 2 * Backoff(baseDelay, attempt) > DURATION_MAX
            ==> Backoff(baseDelay, attempt + 1) == baseDelay
    ensures attempt >= 2 && Backoff(baseDelay, attempt) == baseDelay ==> Backoff(baseDelay, attempt + 1) == baseDelay
    ensures attempt >= 9 ==> Backoff(baseDelay, attempt) == Backoff(baseDelay, 9)
  {
    assert Power2(0) == 1;
    if 2 <= attempt <= 8 {
      Doubled(baseDelay, Power2(attempt - 2));
      ProductAtLeast(baseDelay, Power2(attempt - 2));
    }
    if attempt <= 8 {
      Doubled(baseDelay, Power2(attempt - 1));
      assert Power2(attempt) == 2 * Power2(attempt - 1);
    }
  }

  lemma Doubled(a: nat, b: nat)
    ensures a * (2 * b) == 2 * (a * b)
  {
  }

  lemma ProductAtLeast(a: nat, b: nat)
    requires b >= 1
    ensures a * b >= a
  {
  }

  /** Attempts are numbered from 1; every one before `n` failed transiently. */
  ghost predicate TransientBefore(outcome: nat -> Attempt, n: nat) {
    forall i :: 1 <= i < n ==> outcome(i).Transient?
  }

  function Total(delays: seq<nat>): nat {
    if delays == [] then 0 else delays[0] + Total(delays[1..])
  }

  lemma {:induction false} TotalAppend(delays: seq<nat>, last: nat)
    ensures Total(delays + [last]) == Total(delays) + last
  {
    if delays == [] {
      assert delays + [last] == [last];
    } else {
      assert (delays + [last])[1..] == delays[1..] + [last];
      TotalAppend(delays[1..], last);
    }
  }

  /** One call of the connect loop: how its last try ended, how many it made, how long it slept between them. */
  datatype Connect = Connect(result: Attempt, tries: nat, slept: seq<nat>)

  /**
   What the connect loop does: sleeps once between consecutive tries, and a transient failure means
   every try was spent.
   */
  ghost predicate Loops(cfg: RetryConfig, c: Connect) {
    && 1 <= c.tries <= cfg.Tries()
    && (c.result.Transient? ==> c.tries == cfg.Tries())
    && |c.slept| == c.tries - 1 && forall i :: 0 <= i < |c.slept| ==> c.slept[i] == Backoff(cfg.baseDelay, i + 1)
  }

  /** The connect loop stops at the first success or permanent failure and never sleeps after its last try. */
  method ConnectWithRetry(cfg: RetryConfig, outcome: nat -> Attempt) returns (c: Connect)
    requires cfg.Valid()
    ensures Loops(cfg, c) && TransientBefore(outcome, c.tries) && c.result == outcome(c.tries)
  {
    var attempts := cfg.Tries();
    var slept := [];
    for attempt := 1 to attempts + 1
      invariant TransientBefore(outcome, attempt)
      invariant |slept| == if attempt <= attempts then attempt - 1 else attempts - 1
      invariant forall i :: 0 <= i < |slept| ==> slept[i] == Backoff(cfg.baseDelay, i + 1)
    {
      var result := outcome(attempt);
      if !result.Transient? {
        return Connect(result, attempt, slept);
      }
      if attempt < attempts {
        slept := slept + [Backoff(cfg.baseDelay, attempt)];
      }
    }
    return Connect(Transient, attempts, slept);
  }

  lemma OneMore(n: nat, d: nat)
    ensures (n + 1) * d == n * d + d
  {
  }

  /** A connect that ran out of attempts slept at least the base delay for each but the last. */
  lemma {:induction false} ExhaustionSleeps(baseDelay: nat, slept: seq<nat>)
    requires baseDelay <= DURATION_MAX
    requires forall i :: 0 <= i < |slept| ==> slept[i] == Backoff(baseDelay, i + 1)
    ensures Total(slept) >= |slept| * baseDelay
  {
    if slept != [] {
      var n := |slept| - 1;
      var before := slept[..n];
      assert slept == before + [slept[n]];
      TotalAppend(before, slept[n]);
      ExhaustionSleeps(baseDelay, before);
      OneMore(n, baseDelay);
    }
  }

  // ---- Rebuilding the reply inbox ----

  /** The error a connect loop that did not connect returns. */
  function ConnectError(result: Attempt): BusError {
    Connection(result.Transient?)
  }

  datatype ReconnectFailure = AlreadyBackedOff | NeedsBackoff

  /** Only an explicitly retryable connection failure is taken to have waited already. */
  function ClassifyConnectFailure(error: BusError): ReconnectFailure {
    if IsRetryableConnection(error) == Some(true) then AlreadyBackedOff else NeedsBackoff
  }

  /**
   One attempt to rebuild the inbox: its connect, whether channel and inbox came up after it, and the
   time spent besides sleeping.
   */
  datatype Round = Round(connect: Connect, setUp: bool, rest: nat) {
    /** `None` when the inbox is rebuilt. */
    function Failure(): Option<ReconnectFailure> {
      if !connect.result.Connected? then Some(ClassifyConnectFailure(ConnectError(connect.result)))
      else if setUp then None
      else Some(NeedsBackoff)
    }

    function Ran(): nat {
      Total(connect.slept) + rest
    }
  }

  datatype Loop = Loop(connect: RetryConfig, retryDelay: nat, cancelledAt: Option<nat>) {
    predicate Cancelled(now: nat) {
      cancelledAt.Some? && cancelledAt.value <= now
    }

    function WaitAfter(r: Round): nat {
      if r.Failure() == Some(NeedsBackoff) then retryDelay else 0
    }

    /** When the next attempt may start, this one having started at `now`. */
    function Next(r: Round, now: nat): nat {
      now + r.Ran() + WaitAfter(r)
    }

    /** The wait every pair of consecutive attempts is meant to respect. */
    function Pace(): nat {
      if connect.baseDelay < retryDelay then connect.baseDelay else retryDelay
    }
  }

  datatype Outcome = Rebuilt | Stopped | StillTrying

  /** The attempt that starts at `now` is the last: it was cut short, or it rebuilt the inbox. */
  predicate Ends(l: Loop, r: Round, now: nat) {
    l.Cancelled(now + r.Ran()) || r.Failure().None?
  }

  /** When the attempts of a run start, the loop being entered at `now`. */
  function Starts(l: Loop, rounds: seq<Round>, now: nat): seq<nat> {
    if rounds == [] || l.Cancelled(now) then []
    else if Ends(l, rounds[0], now) then [now]
    else [now] + Starts(l, rounds[1..], l.Next(rounds[0], now))
  }

  /** When the loop is left, or has run out of attempts to follow. */
  function Finish(l: Loop, rounds: seq<Round>, now: nat): nat {
    if rounds == [] || l.Cancelled(now) then now
    else if Ends(l, rounds[0], now) then now + rounds[0].Ran()
    else Finish(l, rounds[1..], l.Next(rounds[0], now))
  }

  lemma FinishFrom(l: Loop, rounds: seq<Round>, i: nat, now: nat)
    requires i < |rounds|
    ensures l.Cancelled(now) ==> Finish(l, rounds[i..], now) == now
    ensures !l.Cancelled(now) ==>
              Finish(l, rounds[i..], now)
              == if Ends(l, rounds[i], now) then now + rounds[i].Ran()
                 else Finish(l, rounds[i + 1..], l.Next(rounds[i], now))
    ensures rounds[|rounds|..] == []
  {
    assert rounds[i..][0] == rounds[i] && rounds[i..][1..] == rounds[i + 1..];
  }

  lemma StartsFrom(l: Loop, rounds: seq<Round>, i: nat, now: nat)
    requires i < |rounds|
    ensures l.Cancelled(now) ==> Starts(l, rounds[i..], now) == []
    ensures !l.Cancelled(now) ==>
              Starts(l, rounds[i..], now)
              == [now] + if Ends(l, rounds[i], now) then [] else Starts(l, rounds[i + 1..], l.Next(rounds[i], now))
  {
    assert rounds[i..][0] == rounds[i] && rounds[i..][1..] == rounds[i + 1..];
  }

  /** One attempt and the wait after it: when the next may start, unless the loop ends here. */
  method RunRound(l: Loop, r: Round, now: nat) returns (next: nat, ended: Option<Outcome>)
    ensures Ends(l, r, now) ==> ended.Some?
    ensures !Ends(l, r, now) ==> next == l.Next(r, now) && (ended.Some? ==> l.Cancelled(next))
    ensures ended != Some(StillTrying)
    ensures ended == Some(Rebuilt) <==> r.Failure().None? && !l.Cancelled(now + r.Ran())
    ensures ended == Some(Stopped) <==> l.Cancelled(if Ends(l, r, now) then now + r.Ran() else l.Next(r, now))
  {
    next := now + r.Ran();
    if l.Cancelled(next) {
      return next, Some(Stopped);
    }
    match r.Failure() {
      case None => return next, Some(Rebuilt);
      case Some(AlreadyBackedOff) => return next, None;
      case Some(NeedsBackoff) =>
        next := next + l.retryDelay;
        return next, if l.Cancelled(next) then Some(Stopped) else None;
    }
  }

  method RetryReplyInbox(l: Loop, rounds: seq<Round>, begin: nat) returns (starts: seq<nat>, outcome: Outcome)
    ensures starts == Starts(l, rounds, begin) && |starts| <= |rounds|
    ensures outcome.Rebuilt? ==> starts != [] && rounds[|starts| - 1].Failure().None?
    ensures outcome.StillTrying? ==> |starts| == |rounds| && forall i :: 0 <= i < |rounds| ==> rounds[i].Failure().Some?
    ensures rounds != [] ==> (outcome.Stopped? <==> l.Cancelled(Finish(l, rounds, begin)))
  {
    var now: nat := begin;
    starts := [];
    assert rounds[0..] == rounds;
    for i := 0 to |rounds|
      invariant |starts| == i && forall j :: 0 <= j < i ==> rounds[j].Failure().Some?
      invariant Continues(l, rounds, begin, starts, i, now)
      invariant Finish(l, rounds, begin) == Finish(l, rounds[i..], now) && (i > 0 ==> !l.Cancelled(now))
    {
      StartsFrom(l, rounds, i, now);
      FinishFrom(l, rounds, i, now);
      if l.Cancelled(now) {
        return starts, Stopped;
      }
      var next, ended := RunRound(l, rounds[i], now);
      RoundContinues(l, rounds, begin, starts, i, now);
      starts := starts + [now];
      if ended.Some? {
        return starts, ended.value;
      }
      now := next;
    }
    return starts, StillTrying;
  }

  /** `starts` are the attempts so far, and the rest follow from `now`. */
  predicate Continues(l: Loop, rounds: seq<Round>, begin: nat, starts: seq<nat>, i: nat, now: nat) {
    i <= |rounds| && starts + Starts(l, rounds[i..], now) == Starts(l, rounds, begin)
  }

  lemma RoundContinues(l: Loop, rounds: seq<Round>, begin: nat, starts: seq<nat>, i: nat, now: nat)
    requires i < |rounds| && Continues(l, rounds, begin, starts, i, now) && !l.Cancelled(now)
    ensures var next := l.Next(rounds[i], now);
            if Ends(l, rounds[i], now) || l.Cancelled(next) then starts + [now] == Starts(l, rounds, begin)
            else Continues(l, rounds, begin, starts + [now], i + 1, next)
  {
    var next := l.Next(rounds[i], now);
    var rest := if Ends(l, rounds[i], now) then [] else Starts(l, rounds[i + 1..], next);
    StartsFrom(l, rounds, i, now);
    assert starts + ([now] + rest) == starts + [now] + rest;
  }

  /** No attempt starts once cancellation has fired. */
  lemma {:induction false} NoStartAfterCancellation(l: Loop, rounds: seq<Round>, now: nat, i: nat)
    requires i < |Starts(l, rounds, now)|
    ensures !l.Cancelled(Starts(l, rounds, now)[i])
  {
    if i > 0 {
      NoStartAfterCancellation(l, rounds[1..], l.Next(rounds[0], now), i - 1);
    }
  }

  predicate Spaced(starts: seq<nat>, pace: nat) {
    forall i :: 0 < i < |starts| ==> starts[i] - starts[i - 1] >= pace
  }

  /** Either this loop waited, or the connect loop did, having slept between its tries. */
  lemma RoundSpacing(l: Loop, r: Round)
    requires l.connect.Valid() && Loops(l.connect, r.connect) && (l.connect.Tries() >= 2 || l.Pace() == 0)
            && r.Failure().Some?
    ensures r.Ran() + l.WaitAfter(r) >= l.Pace()
  {
    if r.Failure() == Some(AlreadyBackedOff) && l.connect.Tries() >= 2 {
      assert r.connect.result.Transient?;
      ExhaustionSleeps(l.connect.baseDelay, r.connect.slept);
      ProductAtLeast(l.connect.baseDelay, |r.connect.slept|);
    }
  }

  ghost predicate AllLoop(l: Loop, rounds: seq<Round>) {
    forall i :: 0 <= i < |rounds| ==> Loops(l.connect, rounds[i].connect)
  }

  lemma {:induction false} StartsSpaced(l: Loop, rounds: seq<Round>, now: nat)
    requires l.connect.Valid() && (l.connect.Tries() >= 2 || l.Pace() == 0) && AllLoop(l, rounds)
    ensures Spaced(Starts(l, rounds, now), l.Pace())
  {
    if |Starts(l, rounds, now)| > 1 {
      var next := l.Next(rounds[0], now);
      var rest := Starts(l, rounds[1..], next);
      RoundSpacing(l, rounds[0]);
      assert rest[0] == next;
      assert AllLoop(l, rounds[1..]) by {
        assert forall i :: 0 <= i < |rounds[1..]| ==> rounds[1..][i] == rounds[i + 1];
      }
      StartsSpaced(l, rounds[1..], next);
      SpacedCons(now, rest, l.Pace());
    }
  }

  lemma SpacedCons(now: nat, rest: seq<nat>, pace: nat)
    requires rest != [] && rest[0] - now >= pace && Spaced(rest, pace)
    ensures Spaced([now] + rest, pace)
  {
    forall i | 0 < i < |[now] + rest|
      ensures ([now] + rest)[i] - ([now] + rest)[i - 1] >= pace
    {
      if i > 1 {
        assert rest[i - 1] - rest[i - 2] >= pace;
      }
    }
  }

  ghost predicate Paced(l: Loop, rounds: seq<Round>) {
    AllLoop(l, rounds) ==> Spaced(Starts(l, rounds, 0), l.Pace())
  }

  /**
   Consecutive attempts are paced in every run, cancelled or not, exactly when the connect loop
   makes at least two tries or there is no pace to keep: a single-try connect that fails
   transiently sleeps nowhere, and this loop takes it for one that did.
   */
  lemma ReconnectIsPaced(connect: RetryConfig, retryDelay: nat)
    requires connect.Valid()
    ensures (forall cancelledAt, rounds :: Paced(Loop(connect, retryDelay, cancelledAt), rounds))
            <==> connect.retryAttempts >= 2 || connect.baseDelay == 0 || retryDelay == 0
  {
    if connect.Tries() >= 2 || connect.baseDelay == 0 || retryDelay == 0 {
      forall cancelledAt, rounds
        ensures Paced(Loop(connect, retryDelay, cancelledAt), rounds)
      {
        var l := Loop(connect, retryDelay, cancelledAt);
        if AllLoop(l, rounds) {
          StartsSpaced(l, rounds, 0);
        }
      }
    } else {
      UnpacedRebuilds(Loop(connect, retryDelay, None));
    }
  }

  /** Two single-try connects in a row, refused at once, with nothing between them. */
  lemma UnpacedRebuilds(l: Loop)
    requires l.connect.retryAttempts <= 1 && l.Pace() > 0 && l.cancelledAt.None?
    ensures var r := Round(Connect(Transient, 1, []), false, 0); !Paced(l, [r, r])
  {
    var r := Round(Connect(Transient, 1, []), false, 0);
    assert Loops(l.connect, r.connect);
    assert [r, r][1..] == [r] && [r][1..] == [];
    assert Starts(l, [r], 0) == [0];
    var starts := Starts(l, [r, r], 0);
    assert starts == [0, 0];
    assert starts[1] - starts[0] < l.Pace();
  }
}
