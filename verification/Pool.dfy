/**
 The bounded channel pool (`hexeract-bus-rabbitmq/src/pool.rs`): a semaphore of
 `maxSize` permits, a deque of idle channels, and guards that return their channel when
 dropped. Tasks interleave at every await point and lock acquisition.
 */
module Pool {
  import opened Bytes

  type Channel = nat
  type TaskId = nat

  // ---- The two critical sections on the idle deque ----

  /** The first connected idle channel; every disconnected one in front of it is discarded. */
  function FirstConnected(idle: seq<Channel>, dead: set<Channel>): (Option<Channel>, seq<Channel>) {
    if idle == [] then (None, [])
    else if idle[0] !in dead then (Some(idle[0]), idle[1..])
    else FirstConnected(idle[1..], dead)
  }

  /** The deque after a guard holding `channel` is dropped. */
  function AfterReturn(idle: seq<Channel>, channel: Channel, dead: set<Channel>, maxSize: nat): seq<Channel> {
    if channel !in dead && |idle| < maxSize then idle + [channel] else idle
  }

  class ChannelPool {
    const maxSize: nat
    var idle: seq<Channel>

    constructor (requested: nat)
      ensures maxSize == (if requested == 0 then 1 else requested) && idle == []
    {
      maxSize := if requested == 0 then 1 else requested;
      idle := [];
    }

    method TakeIdle(dead: set<Channel>) returns (found: Option<Channel>)
      modifies this
      ensures (found, idle) == FirstConnected(old(idle), dead)
    {
      while idle != []
        invariant FirstConnected(idle, dead) == FirstConnected(old(idle), dead)
        decreases |idle|
      {
        var channel := idle[0];
        idle := idle[1..];
        if channel !in dead {
          return Some(channel);
        }
      }
      return None;
    }

    method ReturnIdle(channel: Channel, dead: set<Channel>)
      modifies this
      ensures idle == AfterReturn(old(idle), channel, dead, maxSize)
    {
      if channel in dead {
        return;
      }
      if |idle| < maxSize {
        idle := idle + [channel];
      }
    }
  }

  // ---- Interleavings ----

  datatype Task =
    | HasPermit              // semaphore passed, deque not yet looked at
    | Opening                // opening and configuring a fresh channel
    | Holding(channel: Channel)
    | Detached(channel: Channel) // permit already released, channel not yet returned
    | Returned               // channel returned, permit not yet released

  datatype State = State(permits: nat, idle: seq<Channel>, tasks: map<TaskId, Task>, dead: set<Channel>,
                         nextChannel: nat)

  /**
   `returnFirst`: a dropped guard returns its channel before its permit is released, as the code's
   field drop order does.
   */
  datatype Design = Design(maxSize: nat, returnFirst: bool)

  datatype Step =
    | Acquire(t: TaskId) | Pop(t: TaskId) | Opened(t: TaskId) | GiveUp(t: TaskId)
    | Drop(t: TaskId) | FinishDrop(t: TaskId) | Disconnect(c: Channel)

  function Initial(d: Design): State {
    State(d.maxSize, [], map[], {}, 0)
  }

  predicate Enabled(d: Design, s: State, step: Step) {
    match step
    case Acquire(t) => t !in s.tasks && s.permits > 0
    case Pop(t) => t in s.tasks && s.tasks[t].HasPermit?
    case Opened(t) => t in s.tasks && s.tasks[t].Opening?
    case GiveUp(t) => t in s.tasks && (s.tasks[t].HasPermit? || s.tasks[t].Opening?)
    case Drop(t) => t in s.tasks && s.tasks[t].Holding?
    case FinishDrop(t) => t in s.tasks && (s.tasks[t].Returned? || s.tasks[t].Detached?)
    case Disconnect(c) => true
  }

  function Apply(d: Design, s: State, step: Step): State
    requires Enabled(d, s, step)
  {
    match step
    case Acquire(t) => s.(permits := s.permits - 1, tasks := s.tasks[t := HasPermit])
    case Pop(t) =>
      var (found, rest) := FirstConnected(s.idle, s.dead);
      s.(idle := rest, tasks := s.tasks[t := if found.Some? then Holding(found.value) else Opening])
    case Opened(t) => s.(tasks := s.tasks[t := Holding(s.nextChannel)], nextChannel := s.nextChannel + 1)
    case GiveUp(t) => s.(permits := s.permits + 1, tasks := s.tasks - {t})
    case Drop(t) =>
      if d.returnFirst then s.(idle := AfterReturn(s.idle, s.tasks[t].channel, s.dead, d.maxSize),
                               tasks := s.tasks[t := Returned])
      else s.(permits := s.permits + 1, tasks := s.tasks[t := Detached(s.tasks[t].channel)])
    case FinishDrop(t) =>
      if s.tasks[t].Returned? then s.(permits := s.permits + 1, tasks := s.tasks - {t})
      else s.(idle := AfterReturn(s.idle, s.tasks[t].channel, s.dead, d.maxSize), tasks := s.tasks - {t})
    case Disconnect(c) => s.(dead := s.dead + {c})
  }

  predicate Enables(d: Design, s: State, steps: seq<Step>)
    decreases |steps|
  {
    steps == [] || (Enabled(d, s, steps[0]) && Enables(d, Apply(d, s, steps[0]), steps[1..]))
  }

  function Run(d: Design, s: State, steps: seq<Step>): State
    requires Enables(d, s, steps)
    decreases |steps|
  {
    if steps == [] then s else Run(d, Apply(d, s, steps[0]), steps[1..])
  }

  predicate UsesChannel(task: Task) {
    task.Opening? || task.Holding? || task.Detached?
  }

  function Users(tasks: map<TaskId, Task>): set<TaskId> {
    set t | t in tasks && UsesChannel(tasks[t])
  }

  /** Idle, handed-out and being-opened channels together stay within the cap. */
  predicate Bounded(d: Design, s: State) {
    |s.idle| + |Users(s.tasks)| <= d.maxSize
  }

  /** No channel is idle twice, held twice, or both idle and held. */
  ghost predicate Exclusive(s: State) {
    && (forall i, j :: 0 <= i < j < |s.idle| ==> s.idle[i] != s.idle[j])
    && (forall i :: 0 <= i < |s.idle| ==> s.idle[i] < s.nextChannel)
    && (forall t :: t in s.tasks && s.tasks[t].Holding?
                    ==> s.tasks[t].channel < s.nextChannel && s.tasks[t].channel !in s.idle)
    && (forall t, u :: t in s.tasks && u in s.tasks && t != u && s.tasks[t].Holding? && s.tasks[u].Holding?
                       ==> s.tasks[t].channel != s.tasks[u].channel)
  }

  ghost predicate Inv(d: Design, s: State) {
    && s.permits + |s.tasks| == d.maxSize
    && (forall t :: t in s.tasks ==> !s.tasks[t].Detached?)
    && Bounded(d, s)
    && Exclusive(s)
  }

  /** Index `k` is the first connected channel. */
  predicate ConnectedAt(idle: seq<Channel>, dead: set<Channel>, k: nat) {
    k < |idle| && idle[k] !in dead && forall i :: 0 <= i < k ==> idle[i] in dead
  }

  /** Taking from the deque takes the first connected channel and discards those before it, or all of them. */
  lemma {:induction false} FirstConnectedSuffix(idle: seq<Channel>, dead: set<Channel>)
    ensures var (found, rest) := FirstConnected(idle, dead);
            if found.Some?
            then exists k: nat :: ConnectedAt(idle, dead, k) && idle[k] == found.value && rest == idle[k + 1..]
            else rest == [] && forall i :: 0 <= i < |idle| ==> idle[i] in dead
  {
    if idle == [] {
    } else if idle[0] !in dead {
      assert ConnectedAt(idle, dead, 0);
    } else {
      FirstConnectedSuffix(idle[1..], dead);
      var (found, rest) := FirstConnected(idle[1..], dead);
      if found.Some? {
        var k: nat :| ConnectedAt(idle[1..], dead, k) && idle[1..][k] == found.value && rest == idle[1..][k + 1..];
        assert forall i :: 0 < i <= k ==> idle[i] == idle[1..][i - 1];
        assert ConnectedAt(idle, dead, k + 1) && idle[k + 1] == found.value && rest == idle[k + 2..];
      }
    }
  }

  lemma TaskCount(tasks: map<TaskId, Task>, t: TaskId, task: Task)
    ensures |tasks[t := task]| == |tasks| + (if t in tasks then 0 else 1)
    ensures |tasks - {t}| == |tasks| - (if t in tasks then 1 else 0)
  {
    assert tasks[t := task].Keys == tasks.Keys + {t};
    assert (tasks - {t}).Keys == tasks.Keys - {t};
  }

  lemma UsersWith(tasks: map<TaskId, Task>, t: TaskId, task: Task)
    ensures Users(tasks[t := task]) == (Users(tasks) - {t}) + (if UsesChannel(task) then {t} else {})
  {
  }

  lemma UsersWithout(tasks: map<TaskId, Task>, t: TaskId)
    ensures Users(tasks - {t}) == Users(tasks) - {t}
    ensures |Users(tasks) - {t}| == |Users(tasks)| - (if t in tasks && UsesChannel(tasks[t]) then 1 else 0)
  {
  }

  lemma UsersAreTasks(tasks: map<TaskId, Task>)
    ensures |Users(tasks)| <= |tasks|
  {
    assert Users(tasks) <= tasks.Keys;
    SubsetSize(Users(tasks), tasks.Keys);
  }

  lemma UserCount(tasks: map<TaskId, Task>, t: TaskId, task: Task)
    ensures |Users(tasks[t := task])|
            == |Users(tasks)| - (if t in tasks && UsesChannel(tasks[t]) then 1 else 0) + (if UsesChannel(task) then 1
                else 0)
    ensures |Users(tasks - {t})| == |Users(tasks)| - (if t in tasks && UsesChannel(tasks[t]) then 1 else 0)
  {
    UsersWith(tasks, t, task);
    UsersWithout(tasks, t);
  }

  lemma {:induction false} SubsetSize(a: set<TaskId>, b: set<TaskId>)
    requires a <= b
    ensures |a| <= |b|
    decreases |a|
  {
    if a != {} {
      var x :| x in a;
      SubsetSize(a - {x}, b - {x});
    }
  }

  /** A task moves on, keeping its permit. */
  lemma TaskMoves(tasks: map<TaskId, Task>, t: TaskId, task: Task)
    requires t in tasks
    ensures |tasks[t := task]| == |tasks|
    ensures |Users(tasks[t := task])|
            == |Users(tasks)| - (if UsesChannel(tasks[t]) then 1 else 0) + (if UsesChannel(task) then 1 else 0)
  {
    TaskCount(tasks, t, task);
    UserCount(tasks, t, task);
  }

  lemma PopKeepsBound(d: Design, s: State, t: TaskId)
    requires Inv(d, s) && t in s.tasks && s.tasks[t].HasPermit?
    ensures var s' := Apply(d, s, Pop(t)); s'.permits + |s'.tasks| == d.maxSize && Bounded(d, s')
  {
    var s' := Apply(d, s, Pop(t));
    FirstConnectedSuffix(s.idle, s.dead);
    TaskMoves(s.tasks, t, s'.tasks[t]);
    UsersAreTasks(s'.tasks);
  }

  lemma StepKeepsBound(d: Design, s: State, step: Step)
    requires d.returnFirst && Inv(d, s) && Enabled(d, s, step)
    ensures var s' := Apply(d, s, step); s'.permits + |s'.tasks| == d.maxSize && Bounded(d, s')
  {
    match step
    case Acquire(t) =>
      TaskCount(s.tasks, t, HasPermit);
      UserCount(s.tasks, t, HasPermit);
    case Pop(t) => PopKeepsBound(d, s, t);
    case Opened(t) => TaskMoves(s.tasks, t, Holding(s.nextChannel));
    case GiveUp(t) =>
      TaskCount(s.tasks, t, Returned);
      UserCount(s.tasks, t, Returned);
    case Drop(t) => TaskMoves(s.tasks, t, Returned);
    case FinishDrop(t) =>
      TaskCount(s.tasks, t, Returned);
      UserCount(s.tasks, t, Returned);
    case Disconnect(_) =>
  }

  lemma StepKeepsExclusive(d: Design, s: State, step: Step)
    requires d.returnFirst && Inv(d, s) && Enabled(d, s, step)
    ensures Exclusive(Apply(d, s, step))
  {
    if step.Pop? {
      FirstConnectedSuffix(s.idle, s.dead);
    }
  }

  lemma {:induction false} RunKeepsInv(d: Design, s: State, steps: seq<Step>)
    requires d.returnFirst && Inv(d, s) && Enables(d, s, steps)
    ensures Inv(d, Run(d, s, steps))
    decreases |steps|
  {
    if steps != [] {
      StepKeepsBound(d, s, steps[0]);
      StepKeepsExclusive(d, s, steps[0]);
      RunKeepsInv(d, Apply(d, s, steps[0]), steps[1..]);
    }
  }

  /**
   In every interleaving, a dropped guard whose channel is still connected is kept: the capacity test
   never discards it.
   */
  lemma ConnectedChannelIsNeverDiscarded(d: Design, steps: seq<Step>, t: TaskId)
    requires d.returnFirst && Enables(d, Initial(d), steps)
    requires Enabled(d, Run(d, Initial(d), steps), Drop(t))
    ensures var s := Run(d, Initial(d), steps);
            var after := Apply(d, s, Drop(t));
            after.idle == if s.tasks[t].channel in s.dead then s.idle else s.idle + [s.tasks[t].channel]
  {
    RunKeepsInv(d, Initial(d), steps);
    UserCount(Run(d, Initial(d), steps).tasks, t, Returned);
  }

  // ---- No connected channel is leaked ----

  ghost predicate InHands(s: State, c: Channel) {
    c in s.idle || exists t :: t in s.tasks && s.tasks[t] == Holding(c)
  }

  /** Every channel ever opened and still connected is idle or held. */
  ghost predicate NoneLeaked(s: State) {
    forall c :: 0 <= c < s.nextChannel && c !in s.dead ==> InHands(s, c)
  }

  lemma PopKeepsChannels(d: Design, s: State, t: TaskId, c: Channel)
    requires t in s.tasks && s.tasks[t].HasPermit? && c !in s.dead && InHands(s, c)
    ensures InHands(Apply(d, s, Pop(t)), c)
  {
    var s' := Apply(d, s, Pop(t));
    FirstConnectedSuffix(s.idle, s.dead);
    var (found, rest) := FirstConnected(s.idle, s.dead);
    if c in s.idle {
      var k: nat :| ConnectedAt(s.idle, s.dead, k) && s.idle[k] == found.value && rest == s.idle[k + 1..];
      var i :| 0 <= i < |s.idle| && s.idle[i] == c;
      if i == k {
        assert s'.tasks[t] == Holding(c);
      } else {
        assert rest[i - k - 1] == c;
      }
    } else {
      var u :| u in s.tasks && s.tasks[u] == Holding(c);
      assert s'.tasks[u] == Holding(c);
    }
  }

  lemma DropKeepsChannels(d: Design, s: State, t: TaskId, c: Channel)
    requires d.returnFirst && Inv(d, s) && t in s.tasks && s.tasks[t].Holding? && c !in s.dead && InHands(s, c)
    ensures InHands(Apply(d, s, Drop(t)), c)
  {
    var s' := Apply(d, s, Drop(t));
    UserCount(s.tasks, t, Returned);
    if c !in s'.idle {
      var u :| u in s.tasks && s.tasks[u] == Holding(c);
      assert u != t && s'.tasks[u] == Holding(c);
    }
  }

  lemma OtherStepsKeepChannels(d: Design, s: State, step: Step, c: Channel)
    requires d.returnFirst && Inv(d, s) && Enabled(d, s, step) && !step.Pop? && !step.Drop? && InHands(s, c)
    ensures InHands(Apply(d, s, step), c)
  {
    var s' := Apply(d, s, step);
    if c !in s.idle {
      var u :| u in s.tasks && s.tasks[u] == Holding(c);
      assert u in s'.tasks && s'.tasks[u] == Holding(c);
    }
  }

  lemma StepLeaksNone(d: Design, s: State, step: Step)
    requires d.returnFirst && Inv(d, s) && Enabled(d, s, step) && NoneLeaked(s)
    ensures NoneLeaked(Apply(d, s, step))
  {
    var s' := Apply(d, s, step);
    forall c: Channel | c < s'.nextChannel && c !in s'.dead
      ensures InHands(s', c)
    {
      if step.Opened? && c == s.nextChannel {
        assert s'.tasks[step.t] == Holding(c);
      } else if step.Pop? {
        PopKeepsChannels(d, s, step.t, c);
      } else if step.Drop? {
        DropKeepsChannels(d, s, step.t, c);
      } else {
        OtherStepsKeepChannels(d, s, step, c);
      }
    }
  }

  lemma {:induction false} RunLeaksNone(d: Design, s: State, steps: seq<Step>)
    requires d.returnFirst && Inv(d, s) && NoneLeaked(s) && Enables(d, s, steps)
    ensures NoneLeaked(Run(d, s, steps))
    decreases |steps|
  {
    if steps != [] {
      StepKeepsBound(d, s, steps[0]);
      StepKeepsExclusive(d, s, steps[0]);
      StepLeaksNone(d, s, steps[0]);
      RunLeaksNone(d, Apply(d, s, steps[0]), steps[1..]);
    }
  }

  /**
   In every interleaving each channel opened and still connected is idle or in one task's
   hands, and a task opens another only when no connected one is idle.
   */
  lemma ChannelsAreReused(d: Design, steps: seq<Step>, t: TaskId)
    requires d.returnFirst && Enables(d, Initial(d), steps)
    ensures NoneLeaked(Run(d, Initial(d), steps))
    ensures var s := Run(d, Initial(d), steps);
            Enabled(d, s, Pop(t))
            ==> (Apply(d, s, Pop(t)).tasks[t].Opening? <==> forall c :: c in s.idle ==> c in s.dead)
  {
    RunLeaksNone(d, Initial(d), steps);
    FirstConnectedSuffix(Run(d, Initial(d), steps).idle, Run(d, Initial(d), steps).dead);
  }

  // ---- What the drop order buys ----

  lemma {:induction false} RunAppend(d: Design, s: State, a: seq<Step>, b: seq<Step>)
    requires Enables(d, s, a) && Enables(d, Run(d, s, a), b)
    ensures Enables(d, s, a + b) && Run(d, s, a + b) == Run(d, Run(d, s, a), b)
    decreases |a|
  {
    if a == [] {
      assert a + b == b;
    } else {
      assert (a + b)[1..] == a[1..] + b;
      RunAppend(d, Apply(d, s, a[0]), a[1..], b);
    }
  }

  lemma TwoSteps(d: Design, s: State, x: Step, y: Step)
    requires Enabled(d, s, x) && Enabled(d, Apply(d, s, x), y)
    ensures Enables(d, s, [x, y]) && Run(d, s, [x, y]) == Apply(d, Apply(d, s, x), y)
  {
    assert [x, y][1..] == [y] && [y][1..] == [];
    assert Enables(d, Apply(d, s, x), [y]) && Run(d, Apply(d, s, x), [y]) == Apply(d, Apply(d, s, x), y);
  }

  function OpeningTasks(k: nat): (tasks: map<TaskId, Task>)
    ensures forall t :: t in tasks ==> t < k
  {
    if k == 0 then map[] else OpeningTasks(k - 1)[k - 1 := Opening]
  }

  /** `k` tasks that each took a permit, found no idle channel and started opening one. */
  function Filled(d: Design, k: nat): State
    requires k <= d.maxSize
  {
    State(d.maxSize - k, [], OpeningTasks(k), {}, 0)
  }

  lemma {:induction false} OpeningUsers(k: nat)
    ensures |Users(OpeningTasks(k))| == k
  {
    if k == 0 {
      assert Users(OpeningTasks(0)) == {};
    } else {
      OpeningUsers(k - 1);
      UserCount(OpeningTasks(k - 1), k - 1, Opening);
    }
  }

  lemma {:induction false} FillSteps(d: Design, k: nat) returns (steps: seq<Step>)
    requires k <= d.maxSize
    ensures Enables(d, Initial(d), steps) && Run(d, Initial(d), steps) == Filled(d, k)
  {
    if k == 0 {
      steps := [];
    } else {
      var before := FillSteps(d, k - 1);
      var s := Filled(d, k - 1);
      AcquireThenOpen(d, s, k - 1);
      RunAppend(d, Initial(d), before, [Acquire(k - 1), Pop(k - 1)]);
      steps := before + [Acquire(k - 1), Pop(k - 1)];
    }
  }

  ghost predicate Reaches(d: Design, steps: seq<Step>, s: State) {
    Enables(d, Initial(d), steps) && Run(d, Initial(d), steps) == s
  }

  lemma ReachTwoMore(d: Design, steps: seq<Step>, s: State, x: Step, y: Step)
    requires Reaches(d, steps, s) && Enabled(d, s, x) && Enabled(d, Apply(d, s, x), y)
    ensures Reaches(d, steps + [x, y], Apply(d, Apply(d, s, x), y))
  {
    TwoSteps(d, s, x, y);
    RunAppend(d, Initial(d), steps, [x, y]);
  }

  /**
   All permits taken, every task opening but the last, which has released its permit and not yet
   returned its channel.
   */
  function Overbooked(d: Design): State
    requires d.maxSize >= 1
  {
    State(1, [], OpeningTasks(d.maxSize - 1)[d.maxSize := Detached(0)], {}, 1)
  }

  lemma ReleaseFirstReaches(d: Design) returns (steps: seq<Step>)
    requires !d.returnFirst && d.maxSize >= 1
    ensures Reaches(d, steps, Overbooked(d))
  {
    var n := d.maxSize;
    var s0 := Filled(d, n - 1);
    var s1 := s0.(permits := 0, tasks := s0.tasks[n := Opening]);
    steps := FillSteps(d, n - 1);
    AcquireThenOpen(d, s0, n);
    RunAppend(d, Initial(d), steps, [Acquire(n), Pop(n)]);
    steps := steps + [Acquire(n), Pop(n)];
    ReachTwoMore(d, steps, s1, Opened(n), Drop(n));
    assert s1.tasks[n := Holding(0)][n := Detached(0)] == Overbooked(d).tasks;
    steps := steps + [Opened(n), Drop(n)];
  }

  lemma NewUser(tasks: map<TaskId, Task>, t: TaskId, task: Task)
    requires t !in tasks && UsesChannel(task)
    ensures |Users(tasks[t := task])| == |Users(tasks)| + 1
  {
    UserCount(tasks, t, task);
  }

  /** One task more than there are permits is using a channel. */
  function OneTooMany(d: Design): State
    requires d.maxSize >= 1
  {
    Overbooked(d).(permits := 0, tasks := Overbooked(d).tasks[d.maxSize + 1 := Opening])
  }

  lemma OneTooManyUsers(d: Design)
    requires d.maxSize >= 1
    ensures !Bounded(d, OneTooMany(d))
  {
    var n := d.maxSize;
    OpeningUsers(n - 1);
    NewUser(OpeningTasks(n - 1), n, Detached(0));
    NewUser(Overbooked(d).tasks, n + 1, Opening);
  }

  /** With the permit released first, the last permit serves a second channel while the first is still out. */
  lemma ReleaseFirstOverbooks(d: Design) returns (steps: seq<Step>)
    requires !d.returnFirst && d.maxSize >= 1
    ensures Enables(d, Initial(d), steps) && !Bounded(d, Run(d, Initial(d), steps))
  {
    var more := [Acquire(d.maxSize + 1), Pop(d.maxSize + 1)];
    var first := ReleaseFirstReaches(d);
    AcquireThenOpen(d, Overbooked(d), d.maxSize + 1);
    RunAppend(d, Initial(d), first, more);
    OneTooManyUsers(d);
    steps := first + more;
  }

  /** With no idle channel, a permit leads straight to opening. */
  lemma AcquireThenOpen(d: Design, s: State, t: TaskId)
    requires t !in s.tasks && s.permits > 0 && s.idle == []
    ensures Enables(d, s, [Acquire(t), Pop(t)])
    ensures Run(d, s, [Acquire(t), Pop(t)]) == s.(permits := s.permits - 1, tasks := s.tasks[t := Opening])
  {
    TwoSteps(d, s, Acquire(t), Pop(t));
    assert s.tasks[t := HasPermit][t := Opening] == s.tasks[t := Opening];
  }

  /**
   The pool bound holds in every interleaving exactly because a dropped guard returns its channel
   before its permit.
   */
  lemma PoolBound(d: Design)
    requires d.maxSize >= 1
    ensures (forall steps: seq<Step> :: Enables(d, Initial(d), steps) ==> Bounded(d, Run(d, Initial(d), steps)))
            <==> d.returnFirst
    ensures d.returnFirst ==>
              forall steps: seq<Step> :: Enables(d, Initial(d), steps) ==> Exclusive(Run(d, Initial(d), steps))
  {
    if d.returnFirst {
      forall steps: seq<Step> | Enables(d, Initial(d), steps)
        ensures Bounded(d, Run(d, Initial(d), steps)) && Exclusive(Run(d, Initial(d), steps))
      {
        RunKeepsInv(d, Initial(d), steps);
      }
    } else {
      var steps := ReleaseFirstOverbooks(d);
    }
  }
}
