/**
 thread_center/src/thread.cpp as a protocol: any number of producers, one consumer thread, a
 task queue and a bounded pipe of one-byte notifications, with a pending list retried by a timer
 when the pipe does not take a byte.  Each step is one critical section or one system call, so
 the interleavings of the steps are the interleavings of the threads.
 */
module ThreadProtocol {

  type Task = int

  /** The bytes 't', 's', 'r' and 'e'. */
  datatype Token = TaskToken | StopToken | ReloadToken | ExitToken

  /** Where the consumer stands inside its read callback. */
  datatype Hand = Idle | HasToken(token: Token) | Running(task: Task) | Stopping

  datatype Sys = Sys(
    queue: seq<Task>, pipe: seq<Token>, pending: seq<Token>, timer: bool,
    stopping: bool, exited: bool, reloadFinished: bool, hand: Hand,
    // history
    pushed: seq<Task>,          // every task ever pushed
    executed: seq<Task>,        // every task the sink has executed
    stops: seq<nat>,            // for each OnStop of the sink, how many tasks had been pushed
    issued: multiset<Token>,    // every notification ever issued
    taken: multiset<Token>)     // every notification the consumer has read

  const INIT := Sys([], [], [], false, false, false, false, Idle, [], [], [], multiset{}, multiset{})

  /** `ok` says whether the write to the pipe succeeds. */
  datatype Step =
    | Push(task: Task, ok: bool)
    | Notify(token: Token, ok: bool)
    | Timer(ok: bool)
    | Read
    | PopTask
    | RunTask
    | BeginStop
    | DrainAndStop
    | Reload
    | Exit

  predicate Enabled(capacity: nat, s: Sys, step: Step) {
    match step
    case Push(_, ok) => ok ==> |s.pipe| < capacity
    case Notify(token, ok) => token != TaskToken && (ok ==> |s.pipe| < capacity)
    case Timer(ok) => s.timer && s.hand == Idle && !s.exited && (ok ==> |s.pipe| < capacity)
    case Read => s.hand == Idle && !s.exited && s.pipe != []
    case PopTask => s.hand == HasToken(TaskToken)
    case RunTask => s.hand.Running?
    case BeginStop => s.hand == HasToken(StopToken)
    case DrainAndStop => s.hand == Stopping
    case Reload => s.hand == HasToken(ReloadToken)
    case Exit => s.hand == HasToken(ExitToken)
  }

  /** A notification goes into the pipe, or onto the pending list with the retry timer running. */
  function Signal(s: Sys, token: Token, ok: bool): Sys {
    var t := s.(issued := s.issued + multiset{token});
    if ok then t.(pipe := t.pipe + [token]) else t.(pending := t.pending + [token], timer := true)
  }

  function Apply(s: Sys, step: Step): Sys {
    match step
    case Push(task, ok) => Signal(s.(queue := s.queue + [task], pushed := s.pushed + [task]), TaskToken, ok)
    case Notify(token, ok) => Signal(s, token, ok)
    case Timer(ok) =>
      if s.pending == [] then s.(timer := false)
      else if ok then s.(pipe := s.pipe + [s.pending[0]], pending := s.pending[1..])
      else s
    case Read =>
      if s.pipe == [] then s
      else s.(pipe := s.pipe[1..], hand := HasToken(s.pipe[0]), taken := s.taken + multiset{s.pipe[0]})
    case PopTask =>
      if s.queue == [] then s.(hand := Idle)
      else s.(queue := s.queue[1..], hand := Running(s.queue[0]))
    case RunTask =>
      if s.hand.Running? then s.(executed := s.executed + [s.hand.task], hand := Idle) else s
    case BeginStop => if s.stopping then s.(hand := Idle) else s.(stopping := true, hand := Stopping)
    case DrainAndStop => s.(executed := s.executed + s.queue, queue := [], stops := s.stops + [|s.pushed|],
        hand := Idle)
    case Reload => s.(reloadFinished := true, hand := Idle)
    case Exit => s.(exited := true, hand := Idle)
  }

  // ---------------------------------------------------------------------------
  // Invariants
  // ---------------------------------------------------------------------------

  function InFlight(h: Hand): seq<Task> {
    if h.Running? then [h.task] else []
  }

  function InHand(h: Hand): nat {
    if h == HasToken(TaskToken) then 1 else 0
  }

  /** 't' bytes in the pipe, on the pending list and in the consumer's hand. */
  function Wakeups(s: Sys): nat {
    multiset(s.pipe)[TaskToken] + multiset(s.pending)[TaskToken] + InHand(s.hand)
  }

  /** FIFO, exactly once: executed, then whatever is in flight, then the queue, is the pushed history. */
  ghost predicate Fifo(s: Sys) {
    s.executed + InFlight(s.hand) + s.queue == s.pushed
  }

  /** A wake-up for every queued task; before OnStop not one too many. */
  ghost predicate NoLostWakeup(s: Sys) {
    Wakeups(s) >= |s.queue| && (s.stops == [] ==> Wakeups(s) == |s.queue|)
  }

  /** No notification is lost, duplicated or invented. */
  ghost predicate Accounted(s: Sys) {
    s.issued == s.taken + multiset(s.pipe) + multiset(s.pending)
  }

  /** OnStop at most once, when every task pushed so far has been executed. */
  ghost predicate StopOnce(s: Sys) {
    && |s.stops| <= 1
    && (s.hand == Stopping ==> s.stopping && s.stops == [])
    && (s.stopping && s.hand != Stopping ==> |s.stops| == 1)
    && (!s.stopping ==> s.stops == [])
    && (forall i :: 0 <= i < |s.stops| ==> s.stops[i] <= |s.executed|)
  }

  ghost predicate Inv(capacity: nat, s: Sys) {
    && Fifo(s) && NoLostWakeup(s) && Accounted(s) && StopOnce(s)
    && (s.pending != [] ==> s.timer)
    && |s.pipe| <= capacity
  }

  lemma HeadCount(s: seq<Token>)
    requires s != []
    ensures multiset(s) == multiset{s[0]} + multiset(s[1..])
  {
    assert s == [s[0]] + s[1..];
  }

  lemma PushKeeps(capacity: nat, s: Sys, task: Task, ok: bool)
    requires Inv(capacity, s) && (ok ==> |s.pipe| < capacity)
    ensures Inv(capacity, Apply(s, Push(task, ok)))
  {
    PushFifo(s, task, ok);
    PushWakeups(s, task, ok);
    PushAccounted(s, task, ok);
    hide Fifo, NoLostWakeup, Accounted;
  }

  lemma PushWakeups(s: Sys, task: Task, ok: bool)
    requires NoLostWakeup(s)
    ensures NoLostWakeup(Apply(s, Push(task, ok)))
  {
    assert Wakeups(Apply(s, Push(task, ok))) == Wakeups(s) + 1;
  }

  lemma PushAccounted(s: Sys, task: Task, ok: bool)
    requires Accounted(s)
    ensures Accounted(Apply(s, Push(task, ok)))
  {
  }

  lemma PushFifo(s: Sys, task: Task, ok: bool)
    requires Fifo(s)
    ensures Fifo(Apply(s, Push(task, ok)))
  {
    assert s.executed + InFlight(s.hand) + (s.queue + [task]) == s.executed + InFlight(s.hand) + s.queue + [task];
  }

  lemma NotifyKeeps(capacity: nat, s: Sys, token: Token, ok: bool)
    requires Inv(capacity, s) && token != TaskToken && (ok ==> |s.pipe| < capacity)
    ensures Inv(capacity, Apply(s, Notify(token, ok)))
  {
    var t := Apply(s, Notify(token, ok));
    assert Wakeups(t) == Wakeups(s);
  }

  lemma TimerKeeps(capacity: nat, s: Sys, ok: bool)
    requires Inv(capacity, s) && (ok ==> |s.pipe| < capacity)
    ensures Inv(capacity, Apply(s, Timer(ok)))
  {
    if s.pending != [] {
      HeadCount(s.pending);
      assert Wakeups(Apply(s, Timer(ok))) == Wakeups(s);
    }
  }

  lemma ReadKeeps(capacity: nat, s: Sys)
    requires Inv(capacity, s) && s.hand == Idle && s.pipe != []
    ensures Inv(capacity, Apply(s, Read))
  {
    HeadCount(s.pipe);
    ReadWakeups(s);
    hide NoLostWakeup;
  }

  lemma ReadWakeups(s: Sys)
    requires NoLostWakeup(s) && s.hand == Idle && s.pipe != []
    ensures NoLostWakeup(Apply(s, Read))
  {
    HeadCount(s.pipe);
    assert Wakeups(Apply(s, Read)) == Wakeups(s);
  }

  lemma PopKeeps(capacity: nat, s: Sys)
    requires Inv(capacity, s) && s.hand == HasToken(TaskToken)
    ensures Inv(capacity, Apply(s, PopTask))
  {
    PopFifo(s);
    PopWakeups(s);
    PopStops(s);
    hide Fifo, NoLostWakeup, StopOnce;
  }

  lemma PopStops(s: Sys)
    requires StopOnce(s) && s.hand == HasToken(TaskToken)
    ensures StopOnce(Apply(s, PopTask))
  {
  }

  lemma PopWakeups(s: Sys)
    requires NoLostWakeup(s) && s.hand == HasToken(TaskToken)
    ensures NoLostWakeup(Apply(s, PopTask))
  {
    assert Wakeups(Apply(s, PopTask)) == Wakeups(s) - 1;
  }

  lemma PopFifo(s: Sys)
    requires Fifo(s) && s.hand == HasToken(TaskToken)
    ensures Fifo(Apply(s, PopTask))
  {
    if s.queue != [] {
      FrontMoves(s.executed, s.queue);
    }
  }

  lemma FrontMoves(a: seq<Task>, q: seq<Task>)
    requires q != []
    ensures a + [] + q == a + [q[0]] + q[1..]
  {
  }

  lemma RunKeeps(capacity: nat, s: Sys)
    requires Inv(capacity, s) && s.hand.Running?
    ensures Inv(capacity, Apply(s, RunTask))
  {
    var t := Apply(s, RunTask);
    assert Wakeups(t) == Wakeups(s);
    assert Fifo(t);
  }

  lemma StopKeeps(capacity: nat, s: Sys)
    requires Inv(capacity, s)
    ensures s.hand == HasToken(StopToken) ==> Inv(capacity, Apply(s, BeginStop))
    ensures s.hand == Stopping ==> Inv(capacity, Apply(s, DrainAndStop))
  {
    if s.hand == Stopping {
      assert s.executed + [] + s.queue == s.executed + s.queue + [] + [];
    }
  }

  lemma OtherKeeps(capacity: nat, s: Sys)
    requires Inv(capacity, s)
    ensures s.hand == HasToken(ReloadToken) ==> Inv(capacity, Apply(s, Reload))
    ensures s.hand == HasToken(ExitToken) ==> Inv(capacity, Apply(s, Exit))
  {
  }

  /** Every step keeps the invariant. */
  lemma StepKeepsInv(capacity: nat, s: Sys, step: Step)
    requires Inv(capacity, s) && Enabled(capacity, s, step)
    ensures Inv(capacity, Apply(s, step))
  {
    hide Apply, Inv;
    match step {
      case Push(task, ok) => PushKeeps(capacity, s, task, ok);
      case Notify(token, ok) => NotifyKeeps(capacity, s, token, ok);
      case Timer(ok) => TimerKeeps(capacity, s, ok);
      case Read => ReadKeeps(capacity, s);
      case PopTask => PopKeeps(capacity, s);
      case RunTask => RunKeeps(capacity, s);
      case BeginStop => StopKeeps(capacity, s);
      case DrainAndStop => StopKeeps(capacity, s);
      case Reload => OtherKeeps(capacity, s);
      case Exit => OtherKeeps(capacity, s);
    }
  }

  // ---------------------------------------------------------------------------
  // Whole runs
  // ---------------------------------------------------------------------------

  ghost predicate IsRun(capacity: nat, states: seq<Sys>, steps: seq<Step>) {
    && |states| == |steps| + 1
    && forall i :: 0 <= i < |steps| ==>
         Enabled(capacity, states[i], steps[i]) && states[i + 1] == Apply(states[i], steps[i])
  }

  /** In every state of every run of every interleaving. */
  lemma {:induction false} RunKeepsInv(capacity: nat, states: seq<Sys>, steps: seq<Step>, k: nat)
    requires IsRun(capacity, states, steps) && Inv(capacity, states[0]) && k < |states|
    ensures Inv(capacity, states[k])
  {
    hide Inv, Apply, Enabled;
    if k > 0 {
      RunKeepsInv(capacity, states, steps, k - 1);
      StepKeepsInv(capacity, states[k - 1], steps[k - 1]);
    }
  }

  lemma StopsKept(s: Sys, step: Step)
    ensures |s.stops| <= |Apply(s, step).stops|
  {
  }

  lemma {:induction false} StopsGrow(capacity: nat, states: seq<Sys>, steps: seq<Step>, i: nat, j: nat)
    requires IsRun(capacity, states, steps) && i <= j < |states|
    ensures |states[i].stops| <= |states[j].stops|
  {
    hide Apply, Enabled;
    if i < j {
      StopsGrow(capacity, states, steps, i, j - 1);
      StopsKept(states[j - 1], steps[j - 1]);
    }
  }

  /** In every run the sink's OnStop is called at most once, and at that moment every task pushed
      before it has been executed. */
  lemma StopAfterEverything(capacity: nat, states: seq<Sys>, steps: seq<Step>, i: nat)
    requires IsRun(capacity, states, steps) && states[0] == INIT
    requires i < |steps| && steps[i] == DrainAndStop
    ensures states[i + 1].executed == states[i].pushed == states[i + 1].pushed
    ensures forall j :: 0 <= j < |steps| && steps[j] == DrainAndStop ==> j == i
  {
    hide Inv, Apply, Enabled;
    InitInv(capacity);
    RunKeepsInv(capacity, states, steps, i);
    DrainAndStopIs(capacity, states[i]);
    forall j | 0 <= j < |steps| && steps[j] == DrainAndStop ensures j == i {
      RunKeepsInv(capacity, states, steps, j);
      DrainAndStopIs(capacity, states[j]);
      if i < j { StopsGrow(capacity, states, steps, i + 1, j); }
      if j < i { StopsGrow(capacity, states, steps, j + 1, i); }
    }
  }

  lemma InitInv(capacity: nat)
    ensures Inv(capacity, INIT)
  {
  }

  /** The sink's OnStop: the first one, with everything pushed executed. */
  lemma DrainAndStopIs(capacity: nat, s: Sys)
    requires Inv(capacity, s) && Enabled(capacity, s, DrainAndStop)
    ensures var t := Apply(s, DrainAndStop);
            |s.stops| == 0 && |t.stops| == 1 && t.executed == s.pushed == t.pushed
  {
    assert s.executed + [] + s.queue == s.executed + s.queue;
  }

  /** In every run a reload has finished if and only if a reload notification has been handled, the loop
      has ended if and only if an exit notification has, and the thread is stopping if and only if a stop
      notification has. */
  lemma {:induction false} FlagsTell(capacity: nat, states: seq<Sys>, steps: seq<Step>, k: nat)
    requires IsRun(capacity, states, steps) && states[0] == INIT && k < |states|
    ensures states[k].reloadFinished <==>
              exists i :: 0 <= i < k && steps[i] == Reload && states[i].hand == HasToken(ReloadToken)
    ensures states[k].exited <==> exists i :: 0 <= i < k && steps[i] == Exit && states[i].hand == HasToken(ExitToken)
    ensures states[k].stopping <==>
              exists i :: 0 <= i < k && steps[i] == BeginStop && states[i].hand == HasToken(StopToken)
  {
    hide Enabled, Apply;
    if k > 0 {
      FlagsTell(capacity, states, steps, k - 1);
      FlagStep(capacity, states[k - 1], steps[k - 1]);
    }
  }

  lemma FlagStep(capacity: nat, s: Sys, step: Step)
    requires Enabled(capacity, s, step)
    ensures Apply(s, step).reloadFinished <==> s.reloadFinished || step == Reload
    ensures Apply(s, step).exited <==> s.exited || step == Exit
    ensures Apply(s, step).stopping <==> s.stopping || step == BeginStop
    ensures step == Reload ==> s.hand == HasToken(ReloadToken)
    ensures step == Exit ==> s.hand == HasToken(ExitToken)
    ensures step == BeginStop ==> s.hand == HasToken(StopToken)
  {
  }

  // ---------------------------------------------------------------------------
  // Progress: once the producers pause, the consumer and the timer finish all work
  // ---------------------------------------------------------------------------

  /** Steps of the consumer thread in which a timer retry does not fail. */
  predicate Internal(step: Step) {
    !step.Push? && !step.Notify? && (step.Timer? ==> step.ok)
  }

  function HandWork(h: Hand): nat {
    match h
    case Idle => 0
    case HasToken(_) => 2
    case Running(_) => 1
    case Stopping => 1
  }

  function Work(s: Sys): nat {
    4 * |s.pending| + 3 * |s.pipe| + HandWork(s.hand) + (if s.timer then 1 else 0)
  }

  lemma InternalStepWorks(capacity: nat, s: Sys, step: Step)
    requires Enabled(capacity, s, step) && Internal(step)
    ensures Work(Apply(s, step)) < Work(s)
  {
  }

  /** No run of consumer steps is longer than the work there is. */
  lemma {:induction false} InternalRunBounded(capacity: nat, states: seq<Sys>, steps: seq<Step>)
    requires IsRun(capacity, states, steps) && forall i :: 0 <= i < |steps| ==> Internal(steps[i])
    ensures |steps| <= Work(states[0])
    decreases |steps|
  {
    if steps != [] {
      InternalStepWorks(capacity, states[0], steps[0]);
      assert IsRun(capacity, states[1..], steps[1..]);
      InternalRunBounded(capacity, states[1..], steps[1..]);
    }
  }

  ghost predicate Quiescent(capacity: nat, s: Sys) {
    forall step :: Internal(step) ==> !Enabled(capacity, s, step)
  }

  /** When the consumer has nothing left to do, every pushed task has been executed: no wake-up was
      lost, however many writes to the pipe had failed. */
  lemma QuiescentMeansDone(capacity: nat, s: Sys)
    requires capacity > 0 && Inv(capacity, s) && Quiescent(capacity, s) && !s.exited
    ensures s.executed == s.pushed && s.queue == [] && s.pending == [] && s.pipe == []
  {
    assert !Enabled(capacity, s, PopTask) && !Enabled(capacity, s, RunTask) && !Enabled(capacity, s, BeginStop);
    assert !Enabled(capacity, s, DrainAndStop) && !Enabled(capacity, s, Reload) && !Enabled(capacity, s, Exit);
    assert s.hand == Idle by { HandMoves(s.hand); }
    assert !Enabled(capacity, s, Read);
    assert !Enabled(capacity, s, Timer(true));
    assert s.executed + [] + [] == s.executed;
  }

  lemma HandMoves(h: Hand)
    ensures h == Idle || h.Running? || h == Stopping || h == HasToken(TaskToken) || h == HasToken(StopToken)
            || h == HasToken(ReloadToken) || h == HasToken(ExitToken)
  {
    if h.HasToken? { match h.token { case TaskToken => case StopToken => case ReloadToken => case ExitToken => } }
  }

  lemma {:induction false} InternalRunPushesNothing(capacity: nat, states: seq<Sys>, steps: seq<Step>, k: nat)
    requires IsRun(capacity, states, steps) && k < |states| && forall i :: 0 <= i < |steps| ==> Internal(steps[i])
    ensures states[k].pushed == states[0].pushed
  {
    hide Apply, Enabled, Internal;
    if k > 0 {
      InternalRunPushesNothing(capacity, states, steps, k - 1);
      InternalPushesNothing(states[k - 1], steps[k - 1]);
    }
  }

  // ---------------------------------------------------------------------------
  // What an exit notification leaves undone
  // ---------------------------------------------------------------------------

  /** The tokens in the pipe and on the pending list, unless the loop has ended. */
  function Later(s: Sys): seq<Token> {
    if s.exited then [] else s.pipe + s.pending
  }

  /** The tokens the consumer will still read, in its reading order: a retry moves the first pending
      token to the end of the pipe, so the order is fixed. */
  function Coming(s: Sys): seq<Token> {
    (if s.hand.HasToken? then [s.hand.token] else []) + Later(s)
  }

  /** Reading `tokens` in order empties a queue of `n` tasks before an exit token ends the loop. */
  predicate Drains(n: nat, stopping: bool, tokens: seq<Token>)
    decreases |tokens|
  {
    n == 0 ||
    (tokens != [] &&
     match tokens[0]
     case TaskToken => Drains(n - 1, stopping, tokens[1..])
     case StopToken => !stopping || Drains(n, stopping, tokens[1..])
     case ReloadToken => Drains(n, stopping, tokens[1..])
     case ExitToken => false)
  }

  /** Something a state shows: everything queued comes up before an exit does. */
  predicate WillDrain(s: Sys) {
    s.hand == Stopping || Drains(|s.queue|, s.stopping, Coming(s))
  }

  lemma DrainsOne(n: nat, stopping: bool, t: Token, rest: seq<Token>)
    ensures Drains(n, stopping, [t] + rest) <==>
            n == 0 || (match t
                       case TaskToken => Drains(n - 1, stopping, rest)
                       case StopToken => !stopping || Drains(n, stopping, rest)
                       case ReloadToken => Drains(n, stopping, rest)
                       case ExitToken => false)
  {
    assert ([t] + rest)[1..] == rest;
  }

  lemma TimerKeepsDraining(s: Sys)
    requires !s.exited && s.hand == Idle
    ensures WillDrain(Apply(s, Timer(true))) <==> WillDrain(s)
  {
    hide Drains;
    if s.pending != [] {
      assert s.pipe + [s.pending[0]] + s.pending[1..] == s.pipe + s.pending;
    }
  }

  lemma ReadKeepsDraining(s: Sys)
    requires !s.exited && s.hand == Idle && s.pipe != []
    ensures WillDrain(Apply(s, Read)) <==> WillDrain(s)
  {
    hide Drains;
    assert [s.pipe[0]] + (s.pipe[1..] + s.pending) == [] + (s.pipe + s.pending);
  }

  lemma PopKeepsDraining(s: Sys)
    requires s.hand == HasToken(TaskToken)
    ensures WillDrain(Apply(s, PopTask)) <==> WillDrain(s)
  {
    hide Drains;
    var t := Apply(s, PopTask);
    assert Coming(s) == [TaskToken] + Later(s) && Coming(t) == Later(s);
    DrainsOne(|s.queue|, s.stopping, TaskToken, Later(s));
    DrainsNothing(s.stopping, Later(s));
  }

  lemma DrainsNothing(stopping: bool, tokens: seq<Token>)
    ensures Drains(0, stopping, tokens)
  {
  }

  lemma StopKeepsDraining(s: Sys)
    ensures s.hand == HasToken(StopToken) ==> (WillDrain(Apply(s, BeginStop)) <==> WillDrain(s))
    ensures s.hand == Stopping ==> (WillDrain(Apply(s, DrainAndStop)) <==> WillDrain(s))
  {
    hide Drains;
    if s.hand == HasToken(StopToken) {
      assert Coming(s) == [StopToken] + Later(s) && Coming(Apply(s, BeginStop)) == Later(s);
      DrainsOne(|s.queue|, s.stopping, StopToken, Later(s));
      DrainsNothing(s.stopping, Later(s));
    } else if s.hand == Stopping {
      DrainsNothing(s.stopping, Coming(Apply(s, DrainAndStop)));
    }
  }

  lemma OtherKeepsDraining(s: Sys)
    ensures s.hand.Running? ==> (WillDrain(Apply(s, RunTask)) <==> WillDrain(s))
    ensures s.hand == HasToken(ReloadToken) ==> (WillDrain(Apply(s, Reload)) <==> WillDrain(s))
    ensures s.hand == HasToken(ExitToken) ==> (WillDrain(Apply(s, Exit)) <==> WillDrain(s))
  {
    if s.hand == HasToken(ReloadToken) {
      assert Coming(s) == [ReloadToken] + Later(s) && Coming(Apply(s, Reload)) == Later(s);
      DrainsOne(|s.queue|, s.stopping, ReloadToken, Later(s));
    } else if s.hand == HasToken(ExitToken) {
      assert Coming(s) == [ExitToken] + Later(s) && Coming(Apply(s, Exit)) == [];
      DrainsOne(|s.queue|, s.stopping, ExitToken, Later(s));
    }
  }

  /** No consumer step changes whether the queue will be emptied. */
  lemma StepKeepsDraining(capacity: nat, s: Sys, step: Step)
    requires Enabled(capacity, s, step) && Internal(step)
    ensures WillDrain(Apply(s, step)) <==> WillDrain(s)
  {
    hide Apply, WillDrain;
    match step {
      case Timer(ok) => TimerKeepsDraining(s);
      case Read => ReadKeepsDraining(s);
      case PopTask => PopKeepsDraining(s);
      case RunTask => OtherKeepsDraining(s);
      case BeginStop => StopKeepsDraining(s);
      case DrainAndStop => StopKeepsDraining(s);
      case Reload => OtherKeepsDraining(s);
      case Exit => OtherKeepsDraining(s);
    }
  }

  lemma {:induction false} RunKeepsDraining(capacity: nat, states: seq<Sys>, steps: seq<Step>, k: nat)
    requires IsRun(capacity, states, steps) && k < |states| && forall i :: 0 <= i < |steps| ==> Internal(steps[i])
    ensures WillDrain(states[k]) <==> WillDrain(states[0])
  {
    hide Apply, Enabled, Internal, WillDrain;
    if k > 0 {
      RunKeepsDraining(capacity, states, steps, k - 1);
      StepKeepsDraining(capacity, states[k - 1], steps[k - 1]);
    }
  }

  /** A consumer at rest is between two tokens. */
  lemma QuiescentIsIdle(capacity: nat, s: Sys)
    requires Quiescent(capacity, s)
    ensures s.hand == Idle
  {
    assert !Enabled(capacity, s, PopTask) && !Enabled(capacity, s, RunTask) && !Enabled(capacity, s, BeginStop);
    assert !Enabled(capacity, s, DrainAndStop) && !Enabled(capacity, s, Reload) && !Enabled(capacity, s, Exit);
    HandMoves(s.hand);
  }

  lemma QuiescentDrained(capacity: nat, s: Sys)
    requires capacity > 0 && Inv(capacity, s) && Quiescent(capacity, s)
    ensures s.executed == s.pushed <==> WillDrain(s)
    ensures WillDrain(s) ==> s.queue == []
  {
    QuiescentIsIdle(capacity, s);
    if !s.exited { QuiescentMeansDone(capacity, s); }
    hide Quiescent;
    assert s.executed + [] + s.queue == s.pushed;
    assert s.queue == [] ==> s.executed + [] + [] == s.executed;
    assert s.exited ==> Coming(s) == [];
  }

  /** Every maximal run of consumer steps, in whatever order, is finite; and it executes everything if
      and only if everything queued at its start comes up before an exit notification does. */
  lemma EveryMaximalRunExecutesAll(capacity: nat, states: seq<Sys>, steps: seq<Step>)
    requires capacity > 0 && IsRun(capacity, states, steps) && Inv(capacity, states[0])
    requires forall i :: 0 <= i < |steps| ==> Internal(steps[i])
    requires Quiescent(capacity, states[|steps|])
    ensures |steps| <= Work(states[0])
    ensures states[|steps|].executed == states[0].pushed <==> WillDrain(states[0])
  {
    hide Inv, Apply, Enabled, Internal, Quiescent, Work, WillDrain;
    InternalRunBounded(capacity, states, steps);
    RunKeepsInv(capacity, states, steps, |steps|);
    InternalRunPushesNothing(capacity, states, steps, |steps|);
    RunKeepsDraining(capacity, states, steps, |steps|);
    QuiescentDrained(capacity, states[|steps|]);
  }

  /** The consumer has not exited, and no exit notification is on its way. */
  predicate NoExit(s: Sys) {
    !s.exited && ExitToken !in s.pipe && ExitToken !in s.pending && s.hand != HasToken(ExitToken)
  }

  lemma {:induction false} EnoughTokens(n: nat, stopping: bool, tokens: seq<Token>)
    requires ExitToken !in tokens && multiset(tokens)[TaskToken] >= n
    ensures Drains(n, stopping, tokens)
    decreases |tokens|
  {
    if n > 0 && tokens != [] {
      HeadCount(tokens);
      assert tokens[0] in tokens && forall t :: t in tokens[1..] ==> t in tokens;
      EnoughTokens(if tokens[0] == TaskToken then n - 1 else n, stopping, tokens[1..]);
    }
  }

  /** In particular everything is executed when no exit notification is on its way: no wake-up was lost. */
  lemma NoExitDrains(capacity: nat, s: Sys)
    requires Inv(capacity, s) && NoExit(s)
    ensures WillDrain(s)
  {
    hide Fifo, Accounted, StopOnce, Drains;
    if s.hand != Stopping {
      var first := if s.hand.HasToken? then [s.hand.token] else [];
      assert multiset(Coming(s)) == multiset(first) + (multiset(s.pipe) + multiset(s.pending));
      assert multiset(first)[TaskToken] == InHand(s.hand);
      EnoughTokens(|s.queue|, s.stopping, Coming(s));
    }
  }

  /** An exit notification can overtake a task: the task's token found the pipe full and is pending while
      the exit token is written, and the task is never executed. */
  lemma ExitOvertakesTask(capacity: nat, task: Task) returns (states: seq<Sys>, steps: seq<Step>)
    requires capacity > 0
    ensures IsRun(capacity, states, steps) && states[0] == INIT
    ensures steps == [Push(task, false), Notify(ExitToken, true), Read, Exit]
    ensures var last := states[|steps|];
            Quiescent(capacity, last) && last.exited && last.pushed == last.queue == [task] && last.executed == []
  {
    steps := [Push(task, false), Notify(ExitToken, true), Read, Exit];
    var s1 := Apply(INIT, steps[0]);
    var s2 := Apply(s1, steps[1]);
    var s3 := Apply(s2, steps[2]);
    var s4 := Apply(s3, steps[3]);
    assert s2.pipe == [ExitToken] && s3.hand == HasToken(ExitToken);
    states := [INIT, s1, s2, s3, s4];
    assert s4.queue == [] + [task] && [] + [task] == [task];
    forall step | Internal(step) ensures !Enabled(capacity, s4, step) {
      match step { case Push(_, _) => case Notify(_, _) => case Timer(_) => case Read => case PopTask =>
                   case RunTask => case BeginStop => case DrainAndStop => case Reload => case Exit => }
    }
    forall i | 0 <= i < |steps| ensures Enabled(capacity, states[i], steps[i]) &&
        states[i + 1] == Apply(states[i], steps[i]) {
    }
  }

  /** From every state with the invariant there is a maximal run, so this is never vacuous. */
  lemma {:induction false} AllTasksCanRun(capacity: nat, s: Sys) returns (states: seq<Sys>, steps: seq<Step>)
    requires capacity > 0 && Inv(capacity, s)
    ensures IsRun(capacity, states, steps) && states[0] == s
    ensures forall i :: 0 <= i < |steps| ==> Internal(steps[i])
    ensures Quiescent(capacity, states[|steps|])
    ensures states[|steps|].executed == s.pushed <==> WillDrain(s)
    decreases Work(s)
  {
    states, steps := MaximalRun(capacity, s);
    EveryMaximalRunExecutesAll(capacity, states, steps);
  }

  lemma {:induction false} MaximalRun(capacity: nat, s: Sys) returns (states: seq<Sys>, steps: seq<Step>)
    ensures IsRun(capacity, states, steps) && states[0] == s
    ensures forall i :: 0 <= i < |steps| ==> Internal(steps[i])
    ensures Quiescent(capacity, states[|steps|])
    decreases Work(s)
  {
    hide Apply, Enabled;
    if Quiescent(capacity, s) {
      states, steps := [s], [];
    } else {
      var step :| Internal(step) && Enabled(capacity, s, step);
      InternalStepWorks(capacity, s, step);
      var later, rest := MaximalRun(capacity, Apply(s, step));
      Prepend(capacity, s, step, later, rest);
      states, steps := [s] + later, [step] + rest;
    }
  }

  lemma InternalPushesNothing(s: Sys, step: Step)
    requires Internal(step)
    ensures Apply(s, step).pushed == s.pushed
  {
  }

  lemma Prepend(capacity: nat, s: Sys, step: Step, states: seq<Sys>, steps: seq<Step>)
    requires IsRun(capacity, states, steps) && Enabled(capacity, s, step) && states[0] == Apply(s, step)
    ensures IsRun(capacity, [s] + states, [step] + steps)
  {
    hide Apply, Enabled;
    forall i | 0 <= i < |steps| + 1
      ensures Enabled(capacity, ([s] + states)[i], ([step] + steps)[i]) &&
              ([s] + states)[i + 1] == Apply(([s] + states)[i], ([step] + steps)[i])
    {
      if i > 0 {
        assert ([s] + states)[i] == states[i - 1] && ([step] + steps)[i] == steps[i - 1] &&
               ([s] + states)[i + 1] == states[i - 1 + 1];
      }
    }
  }
}
