/**
 The classes behind the protocol: thread_center/src/task_queue.cpp and the critical sections of
 thread_center/src/thread.cpp.  Each method is tied to the protocol step it performs; `ok` is the
 outcome of writing one byte to the pipe.
 */
module ThreadCenter {
  import opened Prelude
  import opened ThreadProtocol

  class TaskQueue {
    var list: seq<Task>
    var curTaskCount: int
    var maxTaskCount: int

    ghost predicate Valid()
      reads this
    {
      curTaskCount == |list| <= maxTaskCount
    }

    constructor ()
      ensures Valid() && list == [] && maxTaskCount == 0
    {
      list, curTaskCount, maxTaskCount := [], 0, 0;
    }

    /** The maximum is the high-water mark of the length. */
    method PushBack(task: Task)
      requires Valid()
      modifies this
      ensures Valid() && list == old(list) + [task]
      ensures maxTaskCount == if |list| > old(maxTaskCount) then |list| else old(maxTaskCount)
    {
      list := list + [task];
      curTaskCount := curTaskCount + 1;
      if curTaskCount > maxTaskCount {
        maxTaskCount := curTaskCount;
      }
    }

    method PopFront() returns (r: Option<Task>)
      requires Valid()
      modifies this
      ensures Valid() && maxTaskCount == old(maxTaskCount)
      ensures if old(list) == [] then r == None && list == [] else r == Some(old(list)[0]) && list == old(list)[1..]
    {
      if list == [] {
        return None;
      }
      r := Some(list[0]);
      list := list[1..];
      curTaskCount := curTaskCount - 1;
    }

    method IsEmpty() returns (r: bool)
      requires Valid()
      ensures r <==> list == []
    {
      r := curTaskCount == 0;
    }
  }

  class Thread {
    const capacity: nat
    const tq: TaskQueue
    var pipe: seq<Token>
    var pendingNotifyList: seq<Token>
    var timer: bool
    var stopping: bool
    var exited: bool
    var reloadFinished: bool
    ghost var hand: Hand
    ghost var pushed: seq<Task>
    ghost var executed: seq<Task>
    ghost var stops: seq<nat>
    ghost var issued: multiset<Token>
    ghost var taken: multiset<Token>

    /** The protocol state this object stands for. */
    ghost function State(): Sys
      reads this, tq
    {
      Sys(tq.list, pipe, pendingNotifyList, timer, stopping, exited, reloadFinished, hand,
          pushed, executed, stops, issued, taken)
    }

    ghost predicate Valid()
      reads this, tq
    {
      tq.Valid() && Inv(capacity, State())
    }

    constructor (capacity: nat)
      ensures Valid() && State() == INIT && this.capacity == capacity && fresh(tq)
    {
      this.capacity := capacity;
      tq := new TaskQueue();
      pipe, pendingNotifyList, timer := [], [], false;
      stopping, exited, reloadFinished := false, false, false;
      hand, pushed, executed, stops := Idle, [], [], [];
      issued, taken := multiset{}, multiset{};
    }

    /** One byte into the pipe, or onto the pending list with the retry timer set. */
    method WriteOrPend(token: Token, ok: bool)
      modifies this`pipe, this`pendingNotifyList, this`timer, this`issued
      ensures State() == Signal(old(State()), token, ok)
      ensures ok ==> pipe == old(pipe) + [token] && pendingNotifyList == old(pendingNotifyList) && timer == old(timer)
      ensures !ok ==> pipe == old(pipe) && pendingNotifyList == old(pendingNotifyList) + [token] && timer
    {
      issued := issued + multiset{token};
      if ok {
        pipe := pipe + [token];
      } else {
        pendingNotifyList := pendingNotifyList + [token];
        if !timer {
          timer := true;
        }
      }
    }

    method PushTask(task: Task, ok: bool)
      requires Valid() && Enabled(capacity, State(), Push(task, ok))
      modifies this, tq
      ensures Valid() && State() == Apply(old(State()), Push(task, ok))
      ensures tq.list == old(tq.list) + [task]
      ensures ok ==> pipe == old(pipe) + [TaskToken] && pendingNotifyList == old(pendingNotifyList)
      ensures !ok ==> pipe == old(pipe) && pendingNotifyList == old(pendingNotifyList) + [TaskToken] && timer
    {
      hide Inv;
      StepKeepsInv(capacity, State(), Push(task, ok));
      tq.PushBack(task);
      pushed := pushed + [task];
      WriteOrPend(TaskToken, ok);
    }

    /** NotifyStop, NotifyReload and NotifyExit differ in the byte only. */
    method NotifyThread(token: Token, ok: bool)
      requires Valid() && Enabled(capacity, State(), Notify(token, ok))
      modifies this
      ensures Valid() && State() == Apply(old(State()), Notify(token, ok))
      ensures tq.list == old(tq.list)
      ensures ok ==> pipe == old(pipe) + [token] && pendingNotifyList == old(pendingNotifyList)
      ensures !ok ==> pipe == old(pipe) && pendingNotifyList == old(pendingNotifyList) + [token] && timer
    {
      hide Inv;
      StepKeepsInv(capacity, State(), Notify(token, ok));
      WriteOrPend(token, ok);
    }

    /** One retry per tick; a tick that finds nothing pending stops the timer. */
    method OnTimer(ok: bool)
      requires Valid() && Enabled(capacity, State(), Timer(ok))
      modifies this
      ensures Valid() && State() == Apply(old(State()), Timer(ok))
      ensures timer == (old(pendingNotifyList) != [])
      ensures if ok && old(pendingNotifyList) != []
              then pipe == old(pipe) + [old(pendingNotifyList)[0]] && pendingNotifyList == old(pendingNotifyList)[1..]
              else pipe == old(pipe) && pendingNotifyList == old(pendingNotifyList)
    {
      hide Inv;
      StepKeepsInv(capacity, State(), Timer(ok));
      if pendingNotifyList == [] {
        timer := false;
        return;
      }
      if ok {
        pipe := pipe + [pendingNotifyList[0]];
        pendingNotifyList := pendingNotifyList[1..];
      }
    }

    method ReadByte() returns (token: Token)
      requires Valid() && Enabled(capacity, State(), Read)
      modifies this
      ensures Valid() && State() == Apply(old(State()), Read) && hand == HasToken(token)
      ensures token == old(pipe)[0] && pipe == old(pipe)[1..]
    {
      hide Inv;
      StepKeepsInv(capacity, State(), Read);
      token := pipe[0];
      taken := taken + multiset{token};
      hand := HasToken(token);
      pipe := pipe[1..];
    }

    /** The locked half of OnTask. */
    method TakeTask() returns (task: Option<Task>)
      requires Valid() && Enabled(capacity, State(), PopTask)
      modifies this, tq
      ensures Valid() && State() == Apply(old(State()), PopTask)
      ensures hand == if task.Some? then Running(task.value) else Idle
      ensures if old(tq.list) == [] then task == None && tq.list == []
              else task == Some(old(tq.list)[0]) && tq.list == old(tq.list)[1..]
    {
      hide Inv;
      StepKeepsInv(capacity, State(), PopTask);
      task := tq.PopFront();
      hand := if task.Some? then Running(task.value) else Idle;
    }

    /** The unlocked half: the sink executes it. */
    method ExecuteTask(task: Task)
      requires Valid() && hand == Running(task)
      modifies this
      ensures Valid() && State() == Apply(old(State()), RunTask)
      ensures executed == old(executed) + [task] && hand == Idle
    {
      hide Inv;
      StepKeepsInv(capacity, State(), RunTask);
      executed := executed + [task];
      hand := Idle;
    }

    /** The unlocked start of OnStop; a second stop notification does nothing. */
    method OnStopBegin() returns (again: bool)
      requires Valid() && Enabled(capacity, State(), BeginStop)
      modifies this
      ensures Valid() && State() == Apply(old(State()), BeginStop) && again == old(stopping)
      ensures stopping && hand == if again then Idle else Stopping
    {
      hide Inv;
      StepKeepsInv(capacity, State(), BeginStop);
      again := stopping;
      if stopping {
        hand := Idle;
        return;
      }
      stopping := true;
      hand := Stopping;
    }

    /** Execute everything queued, in order. */
    method ExecuteQueue()
      requires tq.Valid()
      modifies this`executed, tq
      ensures tq.Valid() && tq.list == [] && executed == old(executed) + old(tq.list)
    {
      var empty := tq.IsEmpty();
      while !empty
        invariant tq.Valid() && empty == (tq.list == [])
        invariant executed + tq.list == old(executed) + old(tq.list)
        decreases |tq.list|
      {
        ghost var list := tq.list;
        var task := tq.PopFront();
        assert executed + list == executed + [list[0]] + list[1..];
        if task.Some? {
          executed := executed + [task.value];
        }
        empty := tq.IsEmpty();
      }
      assert executed + [] == executed;
    }

    /** The locked rest of OnStop: execute what is queued, then tell the sink to stop. */
    method OnStopDrain()
      requires Valid() && Enabled(capacity, State(), DrainAndStop)
      modifies this, tq
      ensures Valid() && State() == Apply(old(State()), DrainAndStop)
      ensures executed == pushed && executed == old(executed) + old(tq.list) && tq.list == []
      ensures stops == old(stops) + [|pushed|] && hand == Idle
    {
      hide Inv;
      StepKeepsInv(capacity, State(), DrainAndStop);
      DrainedIsDone(capacity, State());
      ExecuteQueue();
      stops := stops + [|pushed|];
      hand := Idle;
    }

    method OnReload()
      requires Valid() && Enabled(capacity, State(), Reload)
      modifies this
      ensures Valid() && State() == Apply(old(State()), Reload)
      ensures reloadFinished && hand == Idle
    {
      hide Inv;
      StepKeepsInv(capacity, State(), Reload);
      reloadFinished := true;
      hand := Idle;
    }

    method OnExit()
      requires Valid() && Enabled(capacity, State(), Exit)
      modifies this
      ensures Valid() && State() == Apply(old(State()), Exit)
      ensures exited && hand == Idle
    {
      hide Inv;
      StepKeepsInv(capacity, State(), Exit);
      exited := true;
      hand := Idle;
    }
  }

  lemma DrainedIsDone(capacity: nat, s: Sys)
    requires Inv(capacity, s) && s.hand == Stopping
    ensures s.executed + s.queue == s.pushed
  {
    assert s.executed + [] == s.executed;
  }
}
