/** The timer's counter and task array (timer.c), updated in place. */
module TaskTimer {
  import opened Timers
  import opened Words

  class Timer {
    var ticks: nat
    var tasks: array<Task>
    var count: nat

    ghost predicate Valid()
      reads this, tasks
    {
      tasks.Length == MAX_TASKS && count <= tasks.Length && Inv(Now())
    }

    ghost function Now(): State
      requires count <= tasks.Length
      reads this, tasks
    {
      State(ticks, tasks[..count], false)
    }

    constructor ()
      ensures Valid() && fresh(tasks)
      ensures Now() == State(0, [], false)
    {
      ticks, count := 0, 0;
      tasks := new Task[MAX_TASKS](_ => Task(0, 0, false));
    }

    /** Moves the later tasks down by one. */
    method RemoveAt(index: nat)
      requires tasks.Length == MAX_TASKS && index < count <= tasks.Length
      modifies this`count, tasks
      ensures count == old(count) - 1
      ensures tasks[..index] == old(tasks[..index])
      ensures tasks[index..count] == old(tasks[index + 1..count])
    {
      var i := index;
      while i < count - 1
        invariant index <= i <= count - 1 && count == old(count)
        invariant forall k: nat :: k < index ==> tasks[k] == old(tasks[k])
        invariant forall k: nat :: index <= k < i ==> tasks[k] == old(tasks[k + 1])
        invariant forall k: nat :: i < k < count ==> tasks[k] == old(tasks[k])
      {
        tasks[i] := tasks[i + 1];
        i := i + 1;
      }
      count := count - 1;
    }

    method Contains(handler: nat) returns (found: bool)
      requires Valid()
      ensures found <==> Registered(tasks[..count], handler)
    {
      var i := 0;
      while i < count
        invariant i <= count
        invariant forall k: nat :: k < i ==> tasks[k].handler != handler
      {
        if tasks[i].handler == handler {
          assert tasks[..count][i].handler == handler;
          return true;
        }
        i := i + 1;
      }
      return false;
    }

    method AddTask(seconds: nat, handler: nat, forever: bool) returns (added: bool)
      requires Valid() && seconds < TWO_32 && handler < TWO_64
      modifies this`count, tasks
      ensures Valid()
      ensures added <==> Admits(old(tasks[..count]), Task(seconds, handler, forever))
      ensures added <==> old(count) < 4 && forall k: nat :: k < old(count) ==> old(tasks[..count])[k].handler != handler
      ensures tasks[..count] == old(tasks[..count]) + if added then [Task(seconds, handler, forever)] else []
      ensures Now() == Next(old(Now()), Add(Task(seconds, handler, forever)))
    {
      var present := Contains(handler);
      if present || count == MAX_TASKS - 1 {
        return false;
      }
      NextKeepsInv(Now(), Add(Task(seconds, handler, forever)));
      tasks[count] := Task(seconds, handler, forever);
      count := count + 1;
      return true;
    }

    method RemoveTask(handler: nat) returns (removed: bool)
      requires Valid()
      modifies this`count, tasks
      ensures Valid()
      ensures removed <==> Registered(old(tasks[..count]), handler)
      ensures Now() == Next(old(Now()), Event.Remove(handler))
    {
      var i := 0;
      ghost var was := tasks[..count];
      while i < count
        invariant i <= count
        invariant forall k: nat :: k < i ==> was[k].handler != handler
      {
        if tasks[i].handler == handler {
          RemoveAt(i);
          WithoutAt(was, handler, i);
          Joined(i, was);
          return true;
        }
        i := i + 1;
      }
      WithoutAt(was, handler, |was|);
      return false;
    }

    lemma Joined(i: nat, was: seq<Task>)
      requires i <= count <= tasks.Length && count + 1 == |was|
      requires tasks[..i] == was[..i] && tasks[i..count] == was[i + 1..]
      ensures tasks[..count] == was[..i] + was[i + 1..]
    {
    }

    /** The loop has seen the first `done` tasks of `was`; those left stand before index i. */
    ghost predicate Swept(was: seq<Task>, done: nat, i: int, called: seq<nat>)
      reads this, tasks
    {
      && 0 <= i <= count <= tasks.Length
      && done <= |was| && CleanTo(was, done) && count - i == |was| - done
      && tasks[..i] == Survivors(ticks, was, done)
      && tasks[i..count] == was[done..]
      && called == Calls(ticks, was, done)
    }

    /** Task i, which stays, joins those in front of it. */
    lemma KeptParts(i: nat, was: seq<Task>, done: nat)
      requires i < count <= tasks.Length && done < |was| && tasks[i..count] == was[done..]
      ensures tasks[i] == was[done] && tasks[..i + 1] == tasks[..i] + [tasks[i]]
      ensures tasks[i + 1..count] == was[done + 1..]
    {
      assert tasks[i] == tasks[i..count][0];
      assert tasks[i + 1..count] == tasks[i..count][1..];
      assert was[done + 1..] == was[done..][1..];
    }

    /** One turn of the loop: the index steps back when the task is removed, and then on. */
    method Visit(i: int, called: seq<nat>, ghost was: seq<Task>, ghost done: nat) returns (next: int, calls: seq<nat>)
      requires tasks.Length == MAX_TASKS && Swept(was, done, i, called)
      requires i < count && Period(tasks[i]) != 0
      modifies this`count, tasks
      ensures Swept(was, done + 1, next, calls)
    {
      var task := tasks[i];
      KeptParts(i, was, done);
      VisitNext(ticks, was, done);
      next, calls := i, called;
      if Due(ticks, task) {
        calls := calls + [task.handler];
        if !task.forever {
          RemoveAt(next);
          next := next - 1;
        }
      }
      next := next + 1;
    }

    lemma SweptOut(was: seq<Task>, done: nat, i: int, called: seq<nat>)
      requires Swept(was, done, i, called)
      requires i < count ==> Period(tasks[i]) == 0
      ensures SoundCount(was) == done && called == Calls(ticks, was, SoundCount(was))
      ensures tasks[..count] == Sweep(ticks, was)
    {
      assert done < |was| ==> tasks[i..count][0] == tasks[i];
      SoundIs(was, done);
      assert tasks[..count] == tasks[..i] + tasks[i..count];
    }

    /** One tick, with the handlers called, in order; trapped when it divides by a period of zero. */
    method TimerHandler() returns (called: seq<nat>, trapped: bool)
      requires Valid()
      modifies this`ticks, this`count, tasks
      ensures !trapped ==> Valid()
      ensures called == CallsOf(old(Now()), Tick)
      ensures count <= tasks.Length && Now().(halted := trapped) == Next(old(Now()), Tick)
    {
      ghost var was, done: nat := tasks[..count], 0;
      NextKeepsInv(Now(), Tick);
      ticks := if ticks == TWO_64 - 1 then 0 else ticks + 1;
      called, trapped := [], false;
      var i: int := 0;
      while i < count && !trapped
        invariant Swept(was, done, i, called) && ticks == Later(old(ticks))
        invariant trapped ==> i < count && Period(tasks[i]) == 0
        decreases |was| - done, !trapped
      {
        if Period(tasks[i]) == 0 {
          trapped := true;
        } else {
          i, called := Visit(i, called, was, done);
          done := done + 1;
        }
      }
      SweptOut(was, done, i, called);
    }
  }
}
