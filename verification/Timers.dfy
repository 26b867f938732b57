/**
The timer's task table (timer.c) as a value: what one tick does to it, and which handlers are
called, and when, over whole runs of ticks, registrations and removals.
*/
module Timers {
  import opened Words

  const TICKS_PER_SECOND: nat := 18
  const MAX_TASKS: nat := 5

  datatype Task = Task(seconds: nat, handler: nat, forever: bool)

  /** The product of two 32-bit unsigned integers is taken modulo 2^32. */
  function Period(task: Task): nat {
    TICKS_PER_SECOND * task.seconds % TWO_32
  }

  /**
  The tick routine divides by the period.  Exactly two 32-bit values of
  `seconds` make that division trap, and exactly those up to 238609294 give
  the period that was asked for.
  */
  lemma PeriodIff(task: Task)
    requires task.seconds < TWO_32
    ensures Period(task) == 0 <==> task.seconds == 0 || task.seconds == 0x8000_0000
    ensures Period(task) == TICKS_PER_SECOND * task.seconds <==> task.seconds <= 238609294
  {
  }

  /** The test of the tick routine, once the division has not trapped. */
  predicate Divides(p: nat, n: nat) { p != 0 && n % p == 0 }

  predicate Due(tick: nat, task: Task) { Divides(Period(task), tick) }

  predicate Stays(tick: nat, task: Task) {
    task.forever || !Due(tick, task)
  }

  predicate Unique(tasks: seq<Task>) {
    forall j: nat, k: nat :: j < k < |tasks| ==> tasks[j].handler != tasks[k].handler
  }

  predicate Registered(tasks: seq<Task>, handler: nat) {
    exists k: nat :: k < |tasks| && tasks[k].handler == handler
  }

  /** No division by the period of the first n tasks traps. */
  predicate CleanTo(tasks: seq<Task>, n: nat)
    requires n <= |tasks|
  {
    forall k: nat :: k < n ==> Period(tasks[k]) != 0
  }

  predicate Clean(tasks: seq<Task>) { CleanTo(tasks, |tasks|) }

  // ----- One tick -----

  /** How many tasks are handled before one whose period is zero traps. */
  function SoundCount(tasks: seq<Task>): (n: nat)
    ensures n <= |tasks| && CleanTo(tasks, n) && (n < |tasks| ==> Period(tasks[n]) == 0)
  {
    SoundFrom(tasks, 0)
  }

  function SoundFrom(tasks: seq<Task>, i: nat): (n: nat)
    requires i <= |tasks| && CleanTo(tasks, i)
    ensures n <= |tasks| && CleanTo(tasks, n) && (n < |tasks| ==> Period(tasks[n]) == 0)
    decreases |tasks| - i
  {
    if i == |tasks| || Period(tasks[i]) == 0 then i else SoundFrom(tasks, i + 1)
  }

  function Count(take: seq<bool>, n: nat): (c: nat)
    requires n <= |take|
    ensures c <= n
  {
    if n == 0 then 0 else Count(take, n - 1) + if take[n - 1] then 1 else 0
  }

  /** Those of the first n items that are to be taken. */
  function Picked<T>(take: seq<bool>, items: seq<T>, n: nat): (r: seq<T>)
    requires n <= |items| == |take|
    ensures |r| == Count(take, n)
  {
    if n == 0 then [] else Picked(take, items, n - 1) + if take[n - 1] then [items[n - 1]] else []
  }

  function DueFlags(tick: nat, tasks: seq<Task>): (r: seq<bool>)
    ensures |r| == |tasks| && forall k: nat :: k < |tasks| ==> r[k] == Due(tick, tasks[k])
  {
    if tasks == [] then [] else [Due(tick, tasks[0])] + DueFlags(tick, tasks[1..])
  }

  function StayFlags(tick: nat, tasks: seq<Task>): (r: seq<bool>)
    ensures |r| == |tasks| && forall k: nat :: k < |tasks| ==> r[k] == Stays(tick, tasks[k])
  {
    if tasks == [] then [] else [Stays(tick, tasks[0])] + StayFlags(tick, tasks[1..])
  }

  function Handlers(tasks: seq<Task>): (r: seq<nat>)
    ensures |r| == |tasks| && forall k: nat :: k < |tasks| ==> r[k] == tasks[k].handler
  {
    if tasks == [] then [] else [tasks[0].handler] + Handlers(tasks[1..])
  }

  /** The handlers called for the first n tasks. */
  function Calls(tick: nat, tasks: seq<Task>, n: nat): seq<nat>
    requires n <= |tasks|
  {
    Picked(DueFlags(tick, tasks), Handlers(tasks), n)
  }

  /** Those of the first n tasks that stay. */
  function Survivors(tick: nat, tasks: seq<Task>, n: nat): seq<Task>
    requires n <= |tasks|
  {
    Picked(StayFlags(tick, tasks), tasks, n)
  }

  lemma {:induction false} CountGrows(take: seq<bool>, j: nat, k: nat)
    requires j <= k <= |take|
    ensures Count(take, j) <= Count(take, k)
    ensures j < k && take[j] ==> Count(take, j) < Count(take, k)
    decreases k
  {
    if j < k { CountGrows(take, j, k - 1); }
  }

  /** An item that is taken stands behind as many as were taken before it. */
  lemma {:induction false} PickedAt<T>(take: seq<bool>, items: seq<T>, n: nat, k: nat)
    requires k < n <= |items| == |take| && take[k]
    ensures Count(take, k) < |Picked(take, items, n)| && Picked(take, items, n)[Count(take, k)] == items[k]
  {
    if k < n - 1 { PickedAt(take, items, n - 1, k); }
  }

  /** And everything picked is such an item. */
  lemma {:induction false} PickedFrom<T>(take: seq<bool>, items: seq<T>, n: nat, j: nat) returns (k: nat)
    requires n <= |items| == |take| && j < |Picked(take, items, n)|
    ensures k < n && take[k] && Count(take, k) == j && Picked(take, items, n)[j] == items[k]
  {
    if j < |Picked(take, items, n - 1)| {
      k := PickedFrom(take, items, n - 1, j);
    } else {
      k := n - 1;
    }
  }

  /** The place of task k in the calls of a tick, when it is due. */
  function DueRank(tick: nat, tasks: seq<Task>, k: nat): nat
    requires k <= |tasks|
  {
    Count(DueFlags(tick, tasks), k)
  }

  function StayRank(tick: nat, tasks: seq<Task>, k: nat): nat
    requires k <= |tasks|
  {
    Count(StayFlags(tick, tasks), k)
  }

  ghost predicate StandsAt<T>(s: seq<T>, k: nat, x: T) { k < |s| && s[k] == x }

  /** The calls are one for each due task among the first n, in table order, and no others. */
  lemma CallsInOrder(tick: nat, tasks: seq<Task>, n: nat)
    requires n <= |tasks|
    ensures |Calls(tick, tasks, n)| == DueRank(tick, tasks, n)
    ensures forall k: nat {:trigger DueRank(tick, tasks, k)} :: k < n && Due(tick, tasks[k]) ==>
      StandsAt(Calls(tick, tasks, n), DueRank(tick, tasks, k), tasks[k].handler)
    ensures forall j: nat, k: nat {:trigger DueRank(tick, tasks, j), DueRank(tick, tasks, k)} ::
      j < k < n && Due(tick, tasks[j]) ==> DueRank(tick, tasks, j) < DueRank(tick, tasks, k)
  {
    forall k: nat | k < n && Due(tick, tasks[k])
      ensures StandsAt(Calls(tick, tasks, n), DueRank(tick, tasks, k), tasks[k].handler)
    {
      PickedAt(DueFlags(tick, tasks), Handlers(tasks), n, k);
    }
    forall j: nat, k: nat | j < k < n && Due(tick, tasks[j]) ensures DueRank(tick, tasks, j) < DueRank(tick, tasks, k) {
      CountGrows(DueFlags(tick, tasks), j, k);
    }
  }

  /** The tasks left are those not due or repeating among the first n, each once, in their old order. */
  lemma SurvivorsInOrder(tick: nat, tasks: seq<Task>, n: nat)
    requires n <= |tasks|
    ensures |Survivors(tick, tasks, n)| == StayRank(tick, tasks, n)
    ensures forall k: nat {:trigger StayRank(tick, tasks, k)} :: k < n && Stays(tick, tasks[k]) ==>
      StandsAt(Survivors(tick, tasks, n), StayRank(tick, tasks, k), tasks[k])
    ensures forall j: nat, k: nat {:trigger StayRank(tick, tasks, j), StayRank(tick, tasks, k)} ::
      j < k < n && Stays(tick, tasks[j]) ==> StayRank(tick, tasks, j) < StayRank(tick, tasks, k)
  {
    forall k: nat | k < n && Stays(tick, tasks[k])
      ensures StandsAt(Survivors(tick, tasks, n), StayRank(tick, tasks, k), tasks[k])
    {
      PickedAt(StayFlags(tick, tasks), tasks, n, k);
    }
    forall j: nat, k: nat | j < k < n && Stays(tick, tasks[j])
      ensures StayRank(tick, tasks, j) < StayRank(tick, tasks, k)
    {
      CountGrows(StayFlags(tick, tasks), j, k);
    }
  }

  lemma VisitNext(tick: nat, tasks: seq<Task>, n: nat)
    requires n < |tasks|
    ensures Calls(tick, tasks, n + 1) == Calls(tick, tasks, n) + if Due(tick, tasks[n]) then [tasks[n].handler] else []
    ensures Survivors(tick, tasks, n + 1) ==
      Survivors(tick, tasks, n) + if Stays(tick, tasks[n]) then [tasks[n]] else []
  {
  }

  lemma SoundIs(tasks: seq<Task>, n: nat)
    requires n <= |tasks| && CleanTo(tasks, n) && (n < |tasks| ==> Period(tasks[n]) == 0)
    ensures SoundCount(tasks) == n
  {
    var m := SoundCount(tasks);
    assert CleanTo(tasks, m) && (m < |tasks| ==> Period(tasks[m]) == 0);
  }

  // ----- Runs -----

  datatype State = State(ticks: nat, tasks: seq<Task>, halted: bool)
  datatype Event = Tick | Add(task: Task) | Remove(handler: nat)

  /** The 64-bit counter wraps. */
  function Later(ticks: nat): nat {
    if ticks == TWO_64 - 1 then 0 else ticks + 1
  }

  ghost predicate Inv(s: State) {
    && s.ticks < TWO_64
    && |s.tasks| <= MAX_TASKS - 1
    && Unique(s.tasks)
  }

  function Sweep(tick: nat, tasks: seq<Task>): seq<Task> {
    Survivors(tick, tasks, SoundCount(tasks)) + tasks[SoundCount(tasks)..]
  }

  /** The first task with this handler; the number of tasks when there is none. */
  function Position(tasks: seq<Task>, handler: nat): (k: nat)
    ensures k <= |tasks|
    ensures k < |tasks| ==> tasks[k].handler == handler
    ensures forall j: nat :: j < k ==> tasks[j].handler != handler
  {
    if tasks == [] || tasks[0].handler == handler then 0
    else
      var k := 1 + Position(tasks[1..], handler);
      assert forall j: nat :: 0 < j < k ==> tasks[j] == tasks[1..][j - 1];
      k
  }

  function Without(tasks: seq<Task>, handler: nat): seq<Task> {
    var k := Position(tasks, handler);
    if k == |tasks| then tasks else tasks[..k] + tasks[k + 1..]
  }

  lemma WithoutAt(tasks: seq<Task>, handler: nat, k: nat)
    requires k <= |tasks| && (k < |tasks| ==> tasks[k].handler == handler)
    requires forall j: nat :: j < k ==> tasks[j].handler != handler
    ensures Registered(tasks, handler) <==> k < |tasks|
    ensures Without(tasks, handler) == if k < |tasks| then tasks[..k] + tasks[k + 1..] else tasks
    ensures Unique(tasks) ==> Unique(Without(tasks, handler))
  {
    assert Position(tasks, handler) == k;
    CutUnique(tasks, k);
  }

  lemma CutUnique(tasks: seq<Task>, k: nat)
    requires k <= |tasks|
    ensures Unique(tasks) && k < |tasks| ==> Unique(tasks[..k] + tasks[k + 1..])
  {
  }

  predicate Admits(tasks: seq<Task>, task: Task) {
    !Registered(tasks, task.handler) && |tasks| != MAX_TASKS - 1
  }

  /** After a division trap nothing more happens. */
  function Next(s: State, e: Event): State {
    if s.halted then s
    else
      match e
      case Tick =>
        var tick := Later(s.ticks);
        State(tick, Sweep(tick, s.tasks), SoundCount(s.tasks) < |s.tasks|)
      case Add(task) =>
        if Admits(s.tasks, task) then s.(tasks := s.tasks + [task]) else s
      case Remove(handler) =>
        s.(tasks := Without(s.tasks, handler))
  }

  function CallsOf(s: State, e: Event): seq<nat> {
    if s.halted || !e.Tick? then []
    else Calls(Later(s.ticks), s.tasks, SoundCount(s.tasks))
  }

  function Run(s: State, events: seq<Event>): State
    decreases |events|
  {
    if events == [] then s else Run(Next(s, events[0]), events[1..])
  }

  /** The tick at each call of the handler, one entry per call. */
  function Times(handler: nat, s: State, events: seq<Event>): seq<nat>
    decreases |events|
  {
    if events == [] then []
    else
      CalledAt(s, events[0], handler) + Times(handler, Next(s, events[0]), events[1..])
  }

  /** The tick, once for each of the first n calls that is the handler's. */
  function Stamp(tick: nat, handler: nat, calls: seq<nat>, n: nat): seq<nat>
    requires n <= |calls|
  {
    if n == 0 then []
    else Stamp(tick, handler, calls, n - 1) + if calls[n - 1] == handler then [tick] else []
  }

  function CalledAt(s: State, e: Event, handler: nat): seq<nat> {
    var calls := CallsOf(s, e);
    Stamp(Next(s, e).ticks, handler, calls, |calls|)
  }

  function TickCount(events: seq<Event>): nat {
    if events == [] then 0 else (if events[0].Tick? then 1 else 0) + TickCount(events[1..])
  }

  // ----- What every step keeps -----

  /** The task that a place of the swept table comes from; later places come from later tasks. */
  lemma SweepFrom(tick: nat, tasks: seq<Task>, j: nat) returns (k: nat)
    requires j < |Sweep(tick, tasks)|
    ensures k < |tasks| && Sweep(tick, tasks)[j] == tasks[k]
    ensures k < SoundCount(tasks) ==> Stays(tick, tasks[k])
    ensures Place(tick, tasks, k) == j
  {
    var n := SoundCount(tasks);
    if j < |Survivors(tick, tasks, n)| {
      k := PickedFrom(StayFlags(tick, tasks), tasks, n, j);
    } else {
      k := j - |Survivors(tick, tasks, n)| + n;
    }
  }

  /** Where a task that stays goes. */
  function Place(tick: nat, tasks: seq<Task>, k: nat): nat
    requires k <= |tasks|
  {
    var n := SoundCount(tasks);
    if k < n then StayRank(tick, tasks, k) else StayRank(tick, tasks, n) + (k - n)
  }

  lemma PlaceGrows(tick: nat, tasks: seq<Task>, j: nat, k: nat)
    requires j <= k <= |tasks|
    ensures Place(tick, tasks, j) <= Place(tick, tasks, k)
  {
    var n := SoundCount(tasks);
    if j < n { CountGrows(StayFlags(tick, tasks), j, if k < n then k else n); }
  }

  lemma SweepKeeps(tick: nat, tasks: seq<Task>)
    requires Unique(tasks)
    ensures Unique(Sweep(tick, tasks)) && |Sweep(tick, tasks)| <= |tasks|
  {
    var swept := Sweep(tick, tasks);
    forall i: nat, j: nat | i < j < |swept| ensures swept[i].handler != swept[j].handler {
      var k := SweepFrom(tick, tasks, i);
      var l := SweepFrom(tick, tasks, j);
      if l <= k { PlaceGrows(tick, tasks, l, k); }
    }
  }

  /** No step ever registers a handler twice or fills the last slot of the array. */
  lemma NextKeepsInv(s: State, e: Event)
    requires Inv(s)
    ensures Inv(Next(s, e))
  {
    if e.Tick? {
      SweepKeeps(Later(s.ticks), s.tasks);
    }
  }

  // ----- When a handler is called -----

  ghost predicate Ascending(s: seq<nat>) { forall j: nat, k: nat :: j < k < |s| ==> s[j] < s[k] }

  /** The multiples of period in (from, to], in increasing order. */
  function Multiples(period: nat, from: nat, to: nat): seq<nat>
    requires period > 0
    decreases if from < to then to - from else 0
  {
    if to <= from then []
    else (if Divides(period, from + 1) then [from + 1] else []) + Multiples(period, from + 1, to)
  }

  lemma DivStep(period: nat, tick: nat)
    requires period > 0
    ensures (tick + 1) / period == tick / period + if (tick + 1) % period == 0 then 1 else 0
    ensures (tick + 1) % period == 0 ==> period * (tick / period + 1) == tick + 1
  {
    var q, r := tick / period, tick % period;
    assert tick == period * q + r;
    if r == period - 1 {
      assert tick + 1 == period * (q + 1);
      Quotient(tick + 1, period, q + 1, 0);
    } else {
      assert tick + 1 == period * q + (r + 1);
      Quotient(tick + 1, period, q, r + 1);
    }
  }

  lemma Quotient(n: nat, period: nat, q: nat, r: nat)
    requires r < period && n == period * q + r
    ensures n / period == q && n % period == r
  {
    var d := n / period - q;
    assert n == period * (n / period) + n % period;
    assert period * d == r - n % period;
    Product(period, d);
  }

  lemma Product(period: nat, d: int)
    requires period > 0
    ensures d > 0 ==> period * d >= period
    ensures d < 0 ==> period * d <= -(period as int)
    decreases if d > 0 then d else -d
  {
  }

  lemma {:induction false} MultiplesCount(period: nat, from: nat, to: nat)
    requires period > 0 && from <= to
    ensures |Multiples(period, from, to)| == to / period - from / period
    decreases if from < to then to - from else 0
  {
    if from < to {
      DivStep(period, from);
      MultiplesCount(period, from + 1, to);
    }
  }

  lemma {:induction false} MultiplesIn(period: nat, from: nat, to: nat, m: nat)
    requires period > 0
    ensures m in Multiples(period, from, to) <==> from < m <= to && m % period == 0
    decreases if from < to then to - from else 0
  {
    if from < to {
      MultiplesIn(period, from + 1, to, m);
    }
  }

  lemma {:induction false} MultiplesAscend(period: nat, from: nat, to: nat)
    requires period > 0
    ensures Ascending(Multiples(period, from, to))
    ensures forall j: nat :: j < |Multiples(period, from, to)| ==> from < Multiples(period, from, to)[j]
    decreases if from < to then to - from else 0
  {
    if from < to { MultiplesAscend(period, from + 1, to); }
  }

  /** In n ticks from t0 there are (t0 + n) / p - t0 / p multiples of p, and this list has each. */
  lemma MultiplesAre(period: nat, from: nat, to: nat)
    requires period > 0 && from <= to
    ensures |Multiples(period, from, to)| == to / period - from / period
    ensures forall m: nat :: m in Multiples(period, from, to) <==> from < m <= to && m % period == 0
    ensures Ascending(Multiples(period, from, to))
  {
    MultiplesCount(period, from, to);
    MultiplesAscend(period, from, to);
    forall m: nat ensures m in Multiples(period, from, to) <==> from < m <= to && m % period == 0 {
      MultiplesIn(period, from, to, m);
    }
  }

  /** The first multiple of period in (from, to], if there is one. */
  function First(period: nat, from: nat, to: nat): seq<nat>
    requires period > 0
    decreases if from < to then to - from else 0
  {
    if to <= from then []
    else if Divides(period, from + 1) then [from + 1]
    else First(period, from + 1, to)
  }

  lemma {:induction false} FirstIs(period: nat, from: nat, to: nat)
    requires period > 0 && from <= to
    ensures First(period, from, to) == if to / period == from / period then [] else [period * (from / period + 1)]
    decreases if from < to then to - from else 0
  {
    if from < to {
      DivStep(period, from);
      FirstIs(period, from + 1, to);
      MultiplesCount(period, from + 1, to);
    }
  }

  lemma {:induction false} StampFrame(tick: nat, handler: nat, calls: seq<nat>, more: seq<nat>, n: nat)
    requires n <= |calls| && n <= |more| && forall j: nat :: j < n ==> calls[j] == more[j]
    ensures Stamp(tick, handler, calls, n) == Stamp(tick, handler, more, n)
  {
    if n > 0 { StampFrame(tick, handler, calls, more, n - 1); }
  }

  lemma StampSnoc(tick: nat, handler: nat, calls: seq<nat>, call: nat)
    ensures Stamp(tick, handler, calls + [call], |calls| + 1) ==
      Stamp(tick, handler, calls, |calls|) + if call == handler then [tick] else []
  {
    StampFrame(tick, handler, calls, calls + [call], |calls|);
  }

  /** The tick, once for each of the first n items that is taken and the handler's. */
  function Marks(tick: nat, handler: nat, take: seq<bool>, handlers: seq<nat>, n: nat): seq<nat>
    requires n <= |handlers| == |take|
  {
    if n == 0 then []
    else
      Marks(tick, handler, take, handlers, n - 1) + if take[n - 1] && handlers[n - 1] == handler then [tick] else []
  }

  lemma {:induction false} StampIsMarks(tick: nat, handler: nat, take: seq<bool>, handlers: seq<nat>, n: nat,
                                        calls: seq<nat>)
    requires n <= |handlers| == |take| && calls == Picked(take, handlers, n)
    ensures Stamp(tick, handler, calls, |calls|) == Marks(tick, handler, take, handlers, n)
  {
    if n > 0 {
      var before := Picked(take, handlers, n - 1);
      StampIsMarks(tick, handler, take, handlers, n - 1, before);
      StampSnoc(tick, handler, before, handlers[n - 1]);
      assert before + [] == before;
    }
  }

  lemma {:induction false} MarksNone(tick: nat, handler: nat, take: seq<bool>, handlers: seq<nat>, n: nat)
    requires n <= |handlers| == |take| && forall j: nat :: j < n ==> handlers[j] != handler
    ensures Marks(tick, handler, take, handlers, n) == []
  {
    if n > 0 { MarksNone(tick, handler, take, handlers, n - 1); }
  }

  lemma {:induction false} MarksOne(tick: nat, handler: nat, take: seq<bool>, handlers: seq<nat>, n: nat, k: nat)
    requires k < n <= |handlers| == |take| && handlers[k] == handler
    requires forall j: nat :: j < n && j != k ==> handlers[j] != handler
    ensures Marks(tick, handler, take, handlers, n) == if take[k] then [tick] else []
  {
    if k < n - 1 {
      MarksOne(tick, handler, take, handlers, n - 1, k);
    } else {
      MarksNone(tick, handler, take, handlers, n - 1);
    }
  }

  /** With distinct handlers, one is called exactly when its task is due. */
  lemma StampOne(tick: nat, tasks: seq<Task>, k: nat)
    requires Unique(tasks) && k < |tasks|
    ensures var calls := Calls(tick, tasks, |tasks|);
            Stamp(tick, tasks[k].handler, calls, |calls|) == if Due(tick, tasks[k]) then [tick] else []
  {
    StampIsMarks(tick, tasks[k].handler, DueFlags(tick, tasks), Handlers(tasks), |tasks|, Calls(tick, tasks, |tasks|));
    MarksOne(tick, tasks[k].handler, DueFlags(tick, tasks), Handlers(tasks), |tasks|, k);
  }

  lemma StampNone(tick: nat, tasks: seq<Task>, handler: nat)
    requires !Registered(tasks, handler)
    ensures var calls := Calls(tick, tasks, |tasks|); Stamp(tick, handler, calls, |calls|) == []
  {
    StampIsMarks(tick, handler, DueFlags(tick, tasks), Handlers(tasks), |tasks|, Calls(tick, tasks, |tasks|));
    MarksNone(tick, handler, DueFlags(tick, tasks), Handlers(tasks), |tasks|);
  }

  /** No registration in the events asks for a period that traps. */
  ghost predicate CleanEvents(events: seq<Event>) {
    forall k: nat :: k < |events| && events[k].Add? ==> Period(events[k].task) != 0
  }

  ghost predicate NoRemove(events: seq<Event>, handler: nat) {
    Event.Remove(handler) !in events
  }

  ghost predicate NoAdd(events: seq<Event>, handler: nat) {
    forall k: nat :: k < |events| && events[k].Add? ==> events[k].task.handler != handler
  }

  lemma RestOf(events: seq<Event>, handler: nat)
    requires events != [] && CleanEvents(events)
    ensures CleanEvents(events[1..])
    ensures NoRemove(events, handler) ==> NoRemove(events[1..], handler) && events[0] != Event.Remove(handler)
    ensures NoAdd(events, handler) ==> NoAdd(events[1..], handler)
  {
  }

  ghost predicate Running(s: State) { Inv(s) && Clean(s.tasks) && !s.halted }

  lemma SweepClean(tick: nat, tasks: seq<Task>)
    requires Clean(tasks)
    ensures SoundCount(tasks) == |tasks| && Sweep(tick, tasks) == Survivors(tick, tasks, |tasks|)
    ensures Clean(Survivors(tick, tasks, |tasks|))
  {
    SoundIs(tasks, |tasks|);
    var left := Survivors(tick, tasks, |tasks|);
    forall j: nat | j < |left| ensures Period(left[j]) != 0 {
      var k := PickedFrom(StayFlags(tick, tasks), tasks, |tasks|, j);
    }
  }

  lemma NextKeepsRunning(s: State, e: Event)
    requires Running(s) && (e.Add? ==> Period(e.task) != 0)
    ensures Running(Next(s, e))
  {
    NextKeepsInv(s, e);
    if e.Tick? {
      SweepClean(Later(s.ticks), s.tasks);
    }
  }

  /** A tick traps exactly when some task's period is zero. */
  lemma TrapsIff(s: State)
    requires Inv(s) && !s.halted
    ensures Next(s, Tick).halted <==> !Clean(s.tasks)
  {
  }

  /** Registering only tasks whose period is not zero, no run traps. */
  lemma {:induction false} RunKeepsRunning(s: State, events: seq<Event>)
    requires Running(s) && CleanEvents(events)
    ensures Running(Run(s, events))
    decreases |events|
  {
    if events != [] {
      RestOf(events, 0);
      NextKeepsRunning(s, events[0]);
      RunKeepsRunning(Next(s, events[0]), events[1..]);
    }
  }

  /** A task that is not due or repeats, and is not removed, is still there after a step. */
  lemma StepKeepsTask(s: State, e: Event, task: Task)
    requires Running(s) && task in s.tasks && e != Event.Remove(task.handler)
    requires e.Tick? ==> Stays(Later(s.ticks), task)
    ensures task in Next(s, e).tasks
  {
    var k: nat :| k < |s.tasks| && s.tasks[k] == task;
    if e.Tick? {
      var tick := Later(s.ticks);
      SweepClean(tick, s.tasks);
      PickedAt(StayFlags(tick, s.tasks), s.tasks, |s.tasks|, k);
    } else if e.Remove? {
      var p := Position(s.tasks, e.handler);
      if p < |s.tasks| {
        var t := Without(s.tasks, e.handler);
        assert t[if k < p then k else k - 1] == task;
      }
    }
  }

  lemma StepStamp(s: State, e: Event, task: Task)
    requires Running(s) && task in s.tasks
    ensures CalledAt(s, e, task.handler) ==
      if e.Tick? && Due(Next(s, e).ticks, task) then [Next(s, e).ticks] else []
  {
    var k: nat :| k < |s.tasks| && s.tasks[k] == task;
    if e.Tick? {
      SweepClean(Next(s, e).ticks, s.tasks);
      StampOne(Next(s, e).ticks, s.tasks, k);
    }
  }

  /** The first step of a run, and what the task's handler gets from it. */
  lemma FirstStep(s: State, task: Task, events: seq<Event>) returns (t: State, now: seq<nat>)
    requires Running(s) && task in s.tasks && events != [] && CleanEvents(events)
    requires s.ticks + TickCount(events) < TWO_64
    ensures t == Next(s, events[0]) && Running(t)
    ensures Times(task.handler, s, events) == now + Times(task.handler, t, events[1..])
    ensures Run(s, events) == Run(t, events[1..])
    ensures t.ticks + TickCount(events[1..]) == s.ticks + TickCount(events)
    ensures t.ticks == s.ticks + if events[0].Tick? then 1 else 0
    ensures now == if events[0].Tick? && Due(t.ticks, task) then [t.ticks] else []
  {
    t := Next(s, events[0]);
    now := CalledAt(s, events[0], task.handler);
    StepStamp(s, events[0], task);
    NextKeepsRunning(s, events[0]);
  }

  lemma MultiplesNext(p: nat, from: nat, next: nat, to: nat, now: seq<nat>)
    requires p > 0 && from <= next <= from + 1 && next <= to
    requires now == if next > from && Divides(p, next) then [next] else []
    ensures Multiples(p, from, to) == now + Multiples(p, next, to)
  {
  }

  /**
  Over every run in which nobody removes it, a repeating task is called once
  at every multiple of its period and at no other tick.
  */
  lemma {:induction false} RepeatingTimes(s: State, task: Task, events: seq<Event>, to: nat)
    requires Running(s) && task in s.tasks && task.forever
    requires CleanEvents(events) && NoRemove(events, task.handler)
    requires to == s.ticks + TickCount(events) < TWO_64
    ensures Times(task.handler, s, events) == Multiples(Period(task), s.ticks, to)
    ensures task in Run(s, events).tasks
    decreases |events|
  {
    if events != [] {
      var t, now := FirstStep(s, task, events);
      RestOf(events, task.handler);
      StepKeepsTask(s, events[0], task);
      RepeatingTimes(t, task, events[1..], to);
      MultiplesNext(Period(task), s.ticks, t.ticks, to, now);
    }
  }

  lemma {:induction false} AbsentTimes(s: State, handler: nat, events: seq<Event>)
    requires Running(s) && !Registered(s.tasks, handler)
    requires CleanEvents(events) && NoAdd(events, handler)
    ensures Times(handler, s, events) == []
    ensures !Registered(Run(s, events).tasks, handler)
    decreases |events|
  {
    if events != [] {
      RestOf(events, handler);
      StepAbsent(s, events[0], handler);
      NextKeepsRunning(s, events[0]);
      AbsentTimes(Next(s, events[0]), handler, events[1..]);
    }
  }

  lemma StepAbsent(s: State, e: Event, handler: nat)
    requires Running(s) && !Registered(s.tasks, handler)
    requires e.Add? ==> e.task.handler != handler
    ensures !Registered(Next(s, e).tasks, handler)
    ensures CalledAt(s, e, handler) == []
  {
    if e.Tick? {
      SweepClean(Next(s, e).ticks, s.tasks);
      StampNone(Next(s, e).ticks, s.tasks, handler);
      var left := Next(s, e).tasks;
      forall j: nat | j < |left| ensures left[j].handler != handler {
        var k := PickedFrom(StayFlags(Next(s, e).ticks, s.tasks), s.tasks, |s.tasks|, j);
      }
    }
  }

  lemma StepDrops(s: State, task: Task)
    requires Running(s) && task in s.tasks && !Stays(Later(s.ticks), task)
    ensures !Registered(Next(s, Tick).tasks, task.handler)
  {
    var tick := Later(s.ticks);
    SweepClean(tick, s.tasks);
    var k: nat :| k < |s.tasks| && s.tasks[k] == task;
    var left := Next(s, Tick).tasks;
    forall j: nat | j < |left| ensures left[j].handler != task.handler {
      var i := PickedFrom(StayFlags(tick, s.tasks), s.tasks, |s.tasks|, j);
      assert i != k;
    }
  }

  /**
  Over every run in which nobody removes or re-registers its handler, a
  one-shot task is called exactly once, at the first multiple of its period
  after the tick it starts from, and is in the table until then.
  */
  lemma {:induction false} OneShotTimes(s: State, task: Task, events: seq<Event>, to: nat)
    requires Running(s) && task in s.tasks && !task.forever
    requires CleanEvents(events) && NoRemove(events, task.handler) && NoAdd(events, task.handler)
    requires to == s.ticks + TickCount(events) < TWO_64
    ensures Times(task.handler, s, events) == First(Period(task), s.ticks, to)
    ensures Registered(Run(s, events).tasks, task.handler) <==> Times(task.handler, s, events) == []
    decreases |events|
  {
    if events != [] {
      var t, now := FirstStep(s, task, events);
      RestOf(events, task.handler);
      if Stays(t.ticks, task) || !events[0].Tick? {
        StepKeepsTask(s, events[0], task);
        OneShotTimes(t, task, events[1..], to);
      } else {
        StepDrops(s, task);
        AbsentTimes(t, task.handler, events[1..]);
      }
      FirstNext(Period(task), s.ticks, t.ticks, to, now, Times(task.handler, t, events[1..]));
    }
  }

  lemma FirstNext(p: nat, from: nat, next: nat, to: nat, now: seq<nat>, rest: seq<nat>)
    requires p > 0 && from <= next <= from + 1 && next <= to
    requires if next > from && Divides(p, next) then now == [next] && rest == []
             else now == [] && rest == First(p, next, to)
    ensures now + rest == First(p, from, to)
  {
  }

  // ----- Runs that begin with a registration or a removal -----

  /** A new handler joins behind the tasks there are, with exactly what was given, while fewer than four are. */
  lemma AddRegisters(s: State, task: Task)
    requires Inv(s) && !s.halted
    ensures var t := Next(s, Add(task));
            && t.ticks == s.ticks && !t.halted
            && (if (forall k: nat :: k < |s.tasks| ==> s.tasks[k].handler != task.handler) && |s.tasks| < 4
                then t.tasks == s.tasks + [task] else t.tasks == s.tasks)
  {
  }

  /** A removal takes out that handler's task and keeps the others in order. */
  lemma RemoveTakesOne(s: State, a: seq<Task>, task: Task, b: seq<Task>)
    requires Inv(s) && !s.halted && s.tasks == a + [task] + b
    ensures Next(s, Event.Remove(task.handler)) == s.(tasks := a + b)
  {
    var k := |a|;
    assert s.tasks[k] == task && s.tasks[..k] == a && s.tasks[k + 1..] == b;
    WithoutAt(s.tasks, task.handler, k);
  }

  ghost predicate CanAdd(s: State, task: Task) {
    && Running(s) && !Registered(s.tasks, task.handler) && |s.tasks| < 4
    && 0 < task.seconds <= 238609294
  }

  lemma FirstAdd(s: State, task: Task, events: seq<Event>) returns (t: State, p: nat)
    requires CanAdd(s, task)
    ensures p == TICKS_PER_SECOND * task.seconds == Period(task)
    ensures t.ticks == s.ticks && t.tasks == s.tasks + [task] && task in t.tasks && Running(t)
    ensures Times(task.handler, s, [Add(task)] + events) == Times(task.handler, t, events)
    ensures Run(s, [Add(task)] + events) == Run(t, events)
  {
    t, p := Next(s, Add(task)), TICKS_PER_SECOND * task.seconds;
    PeriodIff(task);
    assert p == Period(task);
    AddRegisters(s, task);
    assert t.tasks[|s.tasks|] == task;
    NextKeepsRunning(s, Add(task));
    assert ([Add(task)] + events)[1..] == events;
    assert CalledAt(s, Add(task), task.handler) == [];
  }

  /**
  A repeating task that is added at some tick is from then on, until it is removed, called at exactly
  the multiples of 18 times the seconds asked for.
  */
  lemma RepeatingFromAdd(s: State, task: Task, events: seq<Event>, to: nat)
    requires CanAdd(s, task) && task.forever && CleanEvents(events) && NoRemove(events, task.handler)
    requires to == s.ticks + TickCount(events) < TWO_64
    ensures Times(task.handler, s, [Add(task)] + events) == Multiples(TICKS_PER_SECOND * task.seconds, s.ticks, to)
    ensures task in Run(s, [Add(task)] + events).tasks
  {
    var t, p := FirstAdd(s, task, events);
    RepeatingTimes(t, task, events, to);
  }

  /** And one that does not repeat is called once, at the first such multiple, and then no more. */
  lemma OneShotFromAdd(s: State, task: Task, events: seq<Event>, to: nat)
    requires CanAdd(s, task) && !task.forever && CleanEvents(events)
    requires NoRemove(events, task.handler) && NoAdd(events, task.handler)
    requires to == s.ticks + TickCount(events) < TWO_64
    ensures var times := Times(task.handler, s, [Add(task)] + events);
            && times == First(TICKS_PER_SECOND * task.seconds, s.ticks, to)
            && (Registered(Run(s, [Add(task)] + events).tasks, task.handler) <==> times == [])
  {
    var t, p := FirstAdd(s, task, events);
    OneShotTimes(t, task, events, to);
  }

  /** A removed handler is not called until it is added again. */
  lemma SilentFromRemove(s: State, handler: nat, events: seq<Event>)
    requires Running(s) && CleanEvents(events) && NoAdd(events, handler)
    ensures Times(handler, s, [Event.Remove(handler)] + events) == []
  {
    var t := Next(s, Event.Remove(handler));
    var k := Position(s.tasks, handler);
    WithoutAt(s.tasks, handler, k);
    NextKeepsRunning(s, Event.Remove(handler));
    forall j: nat | j < |t.tasks| ensures t.tasks[j].handler != handler {
      if k < |s.tasks| { assert t.tasks[j] == s.tasks[if j < k then j else j + 1]; }
    }
    assert ([Event.Remove(handler)] + events)[1..] == events;
    AbsentTimes(t, handler, events);
  }
}
