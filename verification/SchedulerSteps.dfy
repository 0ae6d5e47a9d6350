/** The scheduler of kernel/src/sched (scheduler.c, thread.c) with the timer's wake pass and quantum
    (timer.c) and the blocking calls (int80.c, network.c): its state as a value, and every locked
    section as one step. */
module SchedulerSteps {

  const MAX_THREADS: nat := 1024
  const TIME_SLICE: int := 8
  const TWO64: nat := 0x1_0000_0000_0000_0000

  /** Tick counts and waiting times. */
  type Word = n: nat | n < TWO64

  datatype ThreadState = Running | Ready | Blocked | Terminated

  datatype Thread = Thread(state: ThreadState, wake: nat, quantum: int)

  /** `rq` is the ready queue and `wl` the wake list, by thread id. `current` is `current_thread_id`;
      `cpu` is the thread whose context the processor executes, -1 before the first dispatch. */
  datatype State = State(threads: map<nat, Thread>, rq: seq<nat>, wl: seq<nat>, current: int, cpu: int, next: nat) {

    predicate Is(t: int, st: ThreadState) {
      t >= 0 && t in threads && threads[t].state == st
    }

    function SetState(t: nat, st: ThreadState): State
      requires t in threads
    {
      this.(threads := threads[t := threads[t].(state := st)])
    }
  }

  const START := State(map[], [], [], -1, -1, 0)

  function Without(q: seq<nat>, t: nat): seq<nat> {
    if q == [] then [] else if q[0] == t then q[1..] else [q[0]] + Without(q[1..], t)
  }

  function Add(q: seq<nat>, t: nat): seq<nat> {
    if t in q then q else q + [t]
  }

  // ----- The steps

  /** `thread_create`: fails on too many ids or on no memory; a stack that cannot be had burns the id. */
  function Create(s: State, memory: bool, stack: bool): State {
    if s.next >= MAX_THREADS || !memory then s
    else if !stack then s.(next := s.next + 1)
    else s.(threads := s.threads[s.next := Thread(Ready, 0, TIME_SLICE)], rq := Add(s.rq, s.next), next := s.next + 1)
  }

  /** The tick a sleeper asks to be woken at, in 64-bit arithmetic. */
  function WakeTick(ticks: Word, waitFor: Word): Word {
    (ticks + waitFor) % TWO64
  }

  /** The current thread goes to sleep until tick `wake`, whatever its state, unless it sleeps already. */
  function Sleep(s: State, wake: nat): State {
    if s.current >= 0 && s.current in s.threads && s.threads[s.current].state != Blocked then
      s.(threads := s.threads[s.current := s.threads[s.current].(state := Blocked, wake := wake)],
         rq := Without(s.rq, s.current), wl := Add(s.wl, s.current))
    else s
  }

  /** INT80_WAIT_TICKS first: also resets the wake tick of a thread that sleeps already. */
  function WaitTicks(s: State, wake: nat): State {
    if s.current >= 0 && s.current in s.threads && s.threads[s.current].state == Blocked then
      s.(threads := s.threads[s.current := s.threads[s.current].(wake := wake)])
    else Sleep(s, wake)
  }

  /** INT80_WAIT_TICKS last: the sleeper whose context executes takes the processor back. */
  function WaitTail(s: State): State {
    if s.cpu >= 0 && s.cpu in s.threads then
      s.(threads := s.threads[s.cpu := s.threads[s.cpu].(state := Running, wake := 0)],
         rq := Without(s.rq, s.cpu), wl := Without(s.wl, s.cpu), current := s.cpu)
    else s
  }

  predicate Expired(s: State, t: nat, now: nat) {
    s.Is(t, Blocked) && 0 < s.threads[t].wake <= now
  }

  function WakeOne(s: State, t: nat, now: nat): State {
    if Expired(s, t, now) then
      s.(threads := s.threads[t := s.threads[t].(state := Ready, wake := 0)], rq := Add(s.rq, t), wl := Without(s.wl, t))
    else s
  }

  /** The wake pass of `timer_handler`, over the threads `todo` of the wake list. */
  function WakePass(s: State, todo: seq<nat>, now: nat): State
    decreases |todo|
  {
    if todo == [] then s else WakePass(WakeOne(s, todo[0], now), todo[1..], now)
  }

  function Exit(s: State): State {
    if s.current >= 0 && s.current in s.threads then s.SetState(s.current, Terminated).(rq := Without(s.rq, s.current))
    else s
  }

  function Kill(s: State, t: nat): State {
    if t in s.threads then s.SetState(t, Terminated).(rq := Without(s.rq, t), wl := Without(s.wl, t))
    else s
  }

  /** `thread_reap_terminated`: the thread behind `current` stays. */
  function Reap(s: State): State {
    s.(threads := map t | t in s.threads && (s.threads[t].state != Terminated || t == s.current) :: s.threads[t])
  }

  /** `schedule_core` after reaping: the running thread queues up again. */
  function Requeue(s: State): State {
    if s.Is(s.current, Running) then s.SetState(s.current, Ready).(rq := Add(s.rq, s.current))
    else s
  }

  /** `schedule_core` in the end: the head of the queue runs, or nobody does. */
  function Dispatch(s: State): State {
    if s.rq == [] || s.rq[0] !in s.threads then s.(current := -1)
    else
      var t := s.rq[0];
      var q := if t == s.current || s.threads[t].quantum <= 0 then TIME_SLICE else s.threads[t].quantum;
      s.(threads := s.threads[t := s.threads[t].(state := Running, quantum := q)], rq := s.rq[1..], current := t, cpu := t)
  }

  function Schedule(s: State): State {
    Dispatch(Requeue(Reap(s)))
  }

  function Charged(s: State): State {
    if s.Is(s.current, Running) then
      s.(threads := s.threads[s.current := s.threads[s.current].(quantum := s.threads[s.current].quantum - 1)])
    else s
  }

  predicate Preempts(s: State, lock: bool) {
    s.Is(s.current, Running) && s.threads[s.current].quantum <= 1 && lock
  }

  /** `timer_handler`: the wake pass if its lock is free, then the quantum of the running thread;
      a used-up quantum calls the scheduler if its lock is free. */
  function Woken(s: State, now: nat, lock: bool): State {
    if s.wl != [] && lock then WakePass(s, s.wl, now) else s
  }

  function Tick(s: State, lock: bool): State {
    if Preempts(s, lock) then Schedule(Charged(s)) else Charged(s)
  }

  datatype Event =
    | ECreate(memory: bool, stack: bool)
    | ESleep(ticks: Word)
    | EWaitTicks(ticks: Word, waitFor: Word)
    | EWaitTail
    | EExit
    | EKill(t: nat)
    | EReap
    | ESchedule
    | ETimer(now: Word, wakeLock: bool, lock: bool)

  function Step(s: State, e: Event): State {
    match e
    case ECreate(memory, stack) => Create(s, memory, stack)
    case ESleep(ticks) => Sleep(s, WakeTick(ticks, 1))
    case EWaitTicks(ticks, waitFor) => if waitFor == 0 then s else WaitTicks(s, WakeTick(ticks, waitFor))
    case EWaitTail => WaitTail(s)
    case EExit => Exit(s)
    case EKill(t) => Kill(s, t)
    case EReap => Reap(s)
    case ESchedule => Schedule(s)
    case ETimer(now, wakeLock, lock) => Tick(Woken(s, now, wakeLock), lock)
  }

  function Run(s: State, es: seq<Event>): State
    decreases |es|
  {
    if es == [] then s else Run(Step(s, es[0]), es[1..])
  }

  /** What the control flow of the callers rules out: a thread that exits between marking itself as
      sleeping and calling the scheduler. */
  predicate Enabled(s: State, e: Event) {
    e.EExit? ==> !s.Is(s.current, Blocked)
  }

  predicate Possible(s: State, es: seq<Event>)
    decreases |es|
  {
    es == [] || (Enabled(s, es[0]) && Possible(Step(s, es[0]), es[1..]))
  }

  // ----- What every run keeps

  ghost predicate Distinct(q: seq<nat>) {
    forall i, j :: 0 <= i < j < |q| ==> q[i] != q[j]
  }

  /** Queued exactly when ready, on the wake list exactly when blocked, running only as current. */
  ghost predicate Fits(s: State, t: nat, th: Thread) {
    && (t in s.rq <==> th.state == Ready)
    && (t in s.wl <==> th.state == Blocked)
    && (th.state == Running ==> t == s.current)
    && t < s.next && th.quantum <= TIME_SLICE
  }

  ghost predicate Inv(s: State) {
    && Distinct(s.rq) && Distinct(s.wl)
    && (forall t :: t in s.threads ==> Fits(s, t, s.threads[t]))
    && (forall t :: t in s.rq || t in s.wl ==> t in s.threads)
    && (s.current == -1 || (s.current == s.cpu && s.current >= 0 && s.current in s.threads))
    && s.next <= MAX_THREADS
  }

  lemma {:induction false} WithoutMembers(q: seq<nat>, t: nat)
    requires Distinct(q)
    ensures forall u: nat :: u in Without(q, t) <==> u in q && u != t
    ensures Distinct(Without(q, t))
  {
    if q != [] {
      WithoutMembers(q[1..], t);
      assert forall u: nat :: u in q <==> u == q[0] || u in q[1..];
      assert q[0] !in q[1..];
    }
  }

  lemma CreateKeeps(s: State, memory: bool, stack: bool)
    requires Inv(s)
    ensures Inv(Create(s, memory, stack))
  {
  }

  lemma NewIdUnused(s: State)
    requires Inv(s)
    ensures s.next !in s.threads
  {
  }

  lemma SleepKeeps(s: State, wake: nat)
    requires Inv(s)
    ensures Inv(Sleep(s, wake)) && Inv(WaitTicks(s, wake))
  {
    if s.current >= 0 { WithoutMembers(s.rq, s.current); }
  }

  lemma WaitTailKeeps(s: State)
    requires Inv(s)
    ensures Inv(WaitTail(s))
  {
    if s.cpu >= 0 {
      WithoutMembers(s.rq, s.cpu);
      WithoutMembers(s.wl, s.cpu);
    }
  }

  /** `thread_exit_current` does not look at the wake list: a thread that exits while it is still
      marked as sleeping would be freed while linked. Otherwise it keeps everything. */
  lemma ExitKeeps(s: State)
    requires Inv(s)
    ensures Inv(Exit(s)) <==> !s.Is(s.current, Blocked)
  {
    if s.current >= 0 { WithoutMembers(s.rq, s.current); }
    if s.Is(s.current, Blocked) {
      var t: nat := s.current;
      assert !Fits(Exit(s), t, Exit(s).threads[t]);
    }
  }

  lemma KillKeeps(s: State, t: nat)
    requires Inv(s)
    ensures Inv(Kill(s, t))
  {
    WithoutMembers(s.rq, t);
    WithoutMembers(s.wl, t);
  }

  lemma ReapKeeps(s: State)
    requires Inv(s)
    ensures Inv(Reap(s))
  {
  }

  /** Reaping has come to id `i`. */
  function ReapUpTo(s: State, i: nat): State {
    s.(threads := map t | t in s.threads && (t >= i || s.threads[t].state != Terminated || t == s.current) :: s.threads[t])
  }

  lemma ReapSteps(s: State, i: nat)
    requires Inv(s)
    ensures ReapUpTo(s, 0) == s
    ensures ReapUpTo(s, i).current == s.current
    ensures var r := ReapUpTo(s, i);
      if r.Is(i, Terminated) && i != r.current
      then ReapUpTo(s, i + 1) == r.(threads := r.threads - {i}) && i !in r.rq && i !in r.wl && Without(r.rq, i) == r.rq
      else ReapUpTo(s, i + 1) == r
  {
    if s.Is(i, Terminated) {
      assert Fits(s, i, s.threads[i]);
      WithoutNone(s.rq, i);
    }
    ReapStart(s);
    ReapNext(s, i);
    hide Inv, Fits, Without, Distinct;
  }

  lemma ReapStart(s: State)
    ensures ReapUpTo(s, 0) == s
  {
    assert ReapUpTo(s, 0).threads == s.threads;
  }

  lemma ReapNext(s: State, i: nat)
    ensures var r := ReapUpTo(s, i);
      ReapUpTo(s, i + 1) == if r.Is(i, Terminated) && i != r.current then r.(threads := r.threads - {i}) else r
  {
    var r := ReapUpTo(s, i);
    if r.Is(i, Terminated) && i != r.current {
      assert ReapUpTo(s, i + 1).threads == r.threads - {i};
    } else {
      assert ReapUpTo(s, i + 1).threads == r.threads;
    }
  }

  lemma ReapAll(s: State)
    requires Inv(s)
    ensures ReapUpTo(s, MAX_THREADS) == Reap(s)
  {
  }

  lemma RequeueCurrent(s: State)
    ensures Requeue(s).current == s.current && Reap(s).current == s.current
  {
  }

  lemma QueueHead(s: State)
    requires Inv(s)
    ensures s.rq != [] ==> s.rq[0] in s.threads
    ensures s.current >= 0 ==> s.current == s.cpu
  {
    if s.rq != [] { assert s.rq[0] in s.rq; }
  }

  lemma {:induction false} WithoutNone(q: seq<nat>, t: nat)
    requires t !in q
    ensures Without(q, t) == q
  {
    if q != [] { WithoutNone(q[1..], t); }
  }

  lemma RequeueKeeps(s: State)
    requires Inv(s)
    ensures Inv(Requeue(s)) && !Requeue(s).Is(s.current, Running)
  {
  }

  lemma DispatchKeeps(s: State)
    requires Inv(s) && !s.Is(s.current, Running)
    ensures Inv(Dispatch(s))
  {
    if s.rq != [] {
      assert s.rq[0] in s.rq;
      assert forall u: nat :: u in s.rq <==> u == s.rq[0] || u in s.rq[1..];
    }
  }

  lemma ScheduleKeeps(s: State)
    requires Inv(s)
    ensures Inv(Schedule(s))
  {
    ReapKeeps(s);
    RequeueKeeps(Reap(s));
    DispatchKeeps(Requeue(Reap(s)));
  }

  lemma WakeOneKeeps(s: State, t: nat, now: nat)
    requires Inv(s)
    ensures Inv(WakeOne(s, t, now))
  {
    WithoutMembers(s.wl, t);
  }

  lemma {:induction false} WakePassKeeps(s: State, todo: seq<nat>, now: nat)
    requires Inv(s)
    ensures Inv(WakePass(s, todo, now))
    decreases |todo|
  {
    if todo != [] {
      WakeOneKeeps(s, todo[0], now);
      WakePassKeeps(WakeOne(s, todo[0], now), todo[1..], now);
    }
  }

  lemma TickKeeps(s: State, lock: bool)
    requires Inv(s)
    ensures Inv(Tick(s, lock))
  {
    assert Inv(Charged(s));
    ScheduleKeeps(Charged(s));
  }

  lemma StepKeeps(s: State, e: Event)
    requires Inv(s) && Enabled(s, e)
    ensures Inv(Step(s, e))
  {
    hide Inv, Create, Sleep, WaitTicks, WaitTail, Exit, Kill, Reap, Schedule, Tick, WakePass;
    match e
    case ECreate(memory, stack) => CreateKeeps(s, memory, stack);
    case ESleep(ticks) => SleepKeeps(s, WakeTick(ticks, 1));
    case EWaitTicks(ticks, waitFor) => SleepKeeps(s, WakeTick(ticks, waitFor));
    case EWaitTail => WaitTailKeeps(s);
    case EExit => ExitKeeps(s);
    case EKill(t) => KillKeeps(s, t);
    case EReap => ReapKeeps(s);
    case ESchedule => ScheduleKeeps(s);
    case ETimer(now, wakeLock, lock) =>
      WakePassKeeps(s, s.wl, now);
      TickKeeps(Woken(s, now, wakeLock), lock);
  }

  /** Every state of every run from the start fits together. */
  lemma {:induction false} RunKeeps(s: State, es: seq<Event>)
    requires Inv(s) && Possible(s, es)
    ensures Inv(Run(s, es))
    decreases |es|
  {
    if es != [] {
      StepKeeps(s, es[0]);
      RunKeeps(Step(s, es[0]), es[1..]);
    }
  }

  /** At most one thread runs, and it is the current one and the one the processor executes; what
      reaping frees is on no list. */
  lemma RunIsSafe(es: seq<Event>)
    requires Possible(START, es)
    ensures var s := Run(START, es);
      && (forall t, u: nat :: s.Is(t, Running) && s.Is(u, Running) ==> t == u == s.current == s.cpu)
      && (forall t: nat :: t in s.threads && t !in Reap(s).threads ==> t !in s.rq && t !in s.wl && t != s.current)
      && |s.rq| == |Queued(s)|
  {
    var s := Run(START, es);
    RunKeeps(START, es);
    assert Queued(s) == Elems(s.rq);
    DistinctSize(s.rq);
  }

  function Queued(s: State): set<nat> {
    set t | t in s.threads && s.threads[t].state == Ready
  }

  function Elems(q: seq<nat>): set<nat> {
    set t | t in q
  }

  lemma {:induction false} DistinctSize(q: seq<nat>)
    requires Distinct(q)
    ensures |Elems(q)| == |q|
  {
    if q != [] {
      DistinctSize(q[1..]);
      assert Elems(q) == Elems(q[1..]) + {q[0]};
      assert q[0] !in q[1..];
    }
  }

  ghost predicate Runs(s: State, t: int) {
    s.Is(t, Running) && s.current == t
  }

  // ----- The wake pass

  predicate Due(threads: map<nat, Thread>, t: nat, now: nat) {
    t in threads && threads[t].state == Blocked && 0 < threads[t].wake <= now
  }

  /** The members of `q` that are due, or those that are not, in order. */
  function Select(threads: map<nat, Thread>, q: seq<nat>, now: nat, due: bool): seq<nat> {
    if q == [] then []
    else (if Due(threads, q[0], now) == due then [q[0]] else []) + Select(threads, q[1..], now, due)
  }

  function AfterPass(threads: map<nat, Thread>, todo: seq<nat>, t: nat, now: nat): Thread
    requires t in threads
  {
    if t in todo && Due(threads, t, now) then threads[t].(state := Ready, wake := 0) else threads[t]
  }

  lemma {:induction false} SelectSame(m: map<nat, Thread>, m': map<nat, Thread>, q: seq<nat>, now: nat, due: bool)
    requires forall t :: t in q ==> Due(m, t, now) == Due(m', t, now)
    ensures Select(m, q, now, due) == Select(m', q, now, due)
  {
    if q != [] { SelectSame(m, m', q[1..], now, due); }
  }

  lemma {:induction false} WithoutFirst(kept: seq<nat>, t: nat, rest: seq<nat>)
    requires t !in kept
    ensures Without(kept + [t] + rest, t) == kept + rest
  {
    if kept != [] {
      assert (kept + [t] + rest)[1..] == kept[1..] + [t] + rest;
      WithoutFirst(kept[1..], t, rest);
    }
  }

  lemma ListDistinct(s: State, kept: seq<nat>, todo: seq<nat>)
    requires Inv(s) && s.wl == kept + todo && todo != []
    ensures Without(s.wl, todo[0]) == kept + todo[1..]
    ensures s.wl == kept + [todo[0]] + todo[1..]
  {
    NotTwice(kept, todo);
    assert s.wl == kept + [todo[0]] + todo[1..];
    WithoutFirst(kept, todo[0], todo[1..]);
  }

  /** The pass over the rest of the wake list: who is due becomes ready, queued in order; nobody
      else changes. */
  lemma {:induction false} WakePassIs(s: State, kept: seq<nat>, todo: seq<nat>, now: nat)
    requires Distinct(s.wl) && s.wl == kept + todo && forall t :: t in todo ==> t !in s.rq
    ensures var w := WakePass(s, todo, now);
      && w.rq == s.rq + Select(s.threads, todo, now, true)
      && w.wl == kept + Select(s.threads, todo, now, false)
      && w.threads.Keys == s.threads.Keys && w.current == s.current && w.cpu == s.cpu && w.next == s.next
      && forall t :: t in s.threads ==> w.threads[t] == AfterPass(s.threads, todo, t, now)
    decreases |todo|
  {
    if todo == [] {
      assert kept + todo == kept;
    } else {
      var t, rest := todo[0], todo[1..];
      var s1 := WakeOne(s, t, now);
      assert t !in kept && t !in rest by { NotTwice(kept, todo); }
      var kept1 := if Due(s.threads, t, now) then kept else kept + [t];
      assert s.wl == kept + [t] + rest;
      WithoutFirst(kept, t, rest);
      assert Distinct(kept1 + rest) by { if Due(s.threads, t, now) { WithoutMembers(s.wl, t); } }
      WakePassIs(s1, kept1, rest, now);
      SelectSame(s.threads, s1.threads, rest, now, true);
      SelectSame(s.threads, s1.threads, rest, now, false);
      hide WakePass, Select;
    }
  }

  lemma NotTwice(kept: seq<nat>, todo: seq<nat>)
    requires Distinct(kept + todo) && todo != []
    ensures todo[0] !in kept && todo[0] !in todo[1..]
  {
    var q := kept + todo;
    assert q[|kept|] == todo[0];
    forall i | 0 <= i < |kept|
      ensures kept[i] != todo[0]
    {
      assert q[i] == kept[i];
    }
    forall i | 0 <= i < |todo[1..]|
      ensures todo[1..][i] != todo[0]
    {
      assert q[|kept| + 1 + i] == todo[1..][i];
    }
  }

  /** A wake pass wakes exactly the sleepers at or past their tick, but for those whose tick is zero:
      of the sleepers it finds expired it leaves one blocked if and only if its wake tick is zero. */
  lemma WakeLeavesNone(s: State, now: nat)
    requires Inv(s)
    ensures var w := WakePass(s, s.wl, now);
      && (forall t: nat :: w.Is(t, Blocked) <==> s.Is(t, Blocked) && (s.threads[t].wake > now || s.threads[t].wake == 0))
      && (forall t: nat :: w.Is(t, Ready) <==> s.Is(t, Ready) || Expired(s, t, now))
      && (forall t: nat :: s.Is(t, Blocked) && s.threads[t].wake <= now ==> (w.Is(t, Blocked) <==> s.threads[t].wake == 0))
      && s.rq <= w.rq
  {
    WakePassIs(s, [], s.wl, now);
    hide WakePass, Select, Distinct;
    forall t: nat
      ensures Expired(s, t, now) <==> t in s.wl && Due(s.threads, t, now)
    {
    }
    hide Inv;
  }

  /** The sleeper stays blocked through a pass at tick `now`. */
  ghost predicate SleepsOn(s: State, t: nat, now: Word) {
    WakePass(s, s.wl, now).Is(t, Blocked)
  }

  /** What a running thread gets that waits: it is never woken if and only if its waiting time and the
      tick count add up to 2^64, and it is never woken early if and only if they add up to no more. */
  lemma WaitIsKept(s: State, ticks: Word, waitFor: Word)
    requires Inv(s) && Runs(s, s.current) && waitFor > 0
    ensures var t: nat, s' := s.current, Step(s, EWaitTicks(ticks, waitFor));
      && s'.Is(t, Blocked)
      && ((forall now: Word :: SleepsOn(s', t, now)) <==> ticks + waitFor == TWO64)
      && ((forall now: Word :: ticks <= now < ticks + waitFor ==> SleepsOn(s', t, now)) <==> ticks + waitFor <= TWO64)
      && (ticks + waitFor < TWO64 ==> forall now: Word :: SleepsOn(s', t, now) <==> now < ticks + waitFor)
  {
    var t: nat, s' := s.current, Step(s, EWaitTicks(ticks, waitFor));
    var wake := WakeTick(ticks, waitFor);
    StepKeeps(s, EWaitTicks(ticks, waitFor));
    assert s'.threads[t] == s.threads[t].(state := Blocked, wake := wake);
    forall now: Word
      ensures SleepsOn(s', t, now) <==> now < wake || wake == 0
    {
      WakeLeavesNone(s', now);
    }
    hide Inv, SleepsOn;
    if ticks + waitFor != TWO64 { assert !SleepsOn(s', t, wake); }
    if ticks + waitFor > TWO64 { assert wake <= ticks && !SleepsOn(s', t, ticks); }
  }

  /** The step puts nobody to sleep with a wake tick of zero. */
  predicate Timely(e: Event) {
    match e
    case ESleep(ticks) => ticks + 1 != TWO64
    case EWaitTicks(ticks, waitFor) => ticks + waitFor != TWO64
    case _ => true
  }

  ghost predicate Wakable(s: State) {
    forall t: nat :: s.Is(t, Blocked) ==> s.threads[t].wake > 0
  }

  /** Nobody falls asleep in the scheduler. */
  lemma ScheduleSleepers(s: State, t: nat)
    requires Inv(s) && Schedule(s).Is(t, Blocked)
    ensures s.Is(t, Blocked) && Schedule(s).threads[t] == s.threads[t]
  {
    ReapKeeps(s);
    RequeueKeeps(Reap(s));
    var r := Requeue(Reap(s));
    assert r.rq != [] ==> r.rq[0] in r.rq;
  }

  lemma TimerSleepers(s: State, now: Word, wakeLock: bool, lock: bool, t: nat)
    requires Inv(s) && Step(s, ETimer(now, wakeLock, lock)).Is(t, Blocked)
    ensures s.Is(t, Blocked) && Step(s, ETimer(now, wakeLock, lock)).threads[t] == s.threads[t]
  {
    hide Inv, WakePass, Select, Schedule;
    var w := Woken(s, now, wakeLock);
    WakePassKeeps(s, s.wl, now);
    ChargedKeeps(w);
    if Preempts(w, lock) { ScheduleSleepers(Charged(w), t); }
    assert w.Is(t, Blocked);
    if s.wl != [] && wakeLock { PassSleepers(s, now, t); }
  }

  lemma PassSleepers(s: State, now: nat, t: nat)
    requires Inv(s) && WakePass(s, s.wl, now).Is(t, Blocked)
    ensures s.Is(t, Blocked) && WakePass(s, s.wl, now).threads[t] == s.threads[t]
  {
    WakePassIs(s, [], s.wl, now);
    hide WakePass, Select, Inv;
  }

  lemma StepWakable(s: State, e: Event)
    requires Inv(s) && Wakable(s) && Timely(e)
    ensures Wakable(Step(s, e))
  {
    hide Inv, Schedule, Tick, Woken, Without;
    var s' := Step(s, e);
    forall t: nat | s'.Is(t, Blocked)
      ensures s'.threads[t].wake > 0
    {
      match e
      case ETimer(now, wakeLock, lock) => TimerSleepers(s, now, wakeLock, lock, t);
      case ESchedule => ScheduleSleepers(s, t);
      case _ =>
    }
  }

  /** In every state of a run in which no sum of tick count and waiting time is 2^64, a wake pass
      leaves no sleeper blocked that is at or past its tick. */
  lemma {:induction false} RunWakes(s: State, es: seq<Event>, now: nat)
    requires Inv(s) && Wakable(s) && Possible(s, es) && forall i :: 0 <= i < |es| ==> Timely(es[i])
    ensures var r := Run(s, es);
      Inv(r) && Wakable(r) && forall t: nat :: WakePass(r, r.wl, now).Is(t, Blocked) ==> r.Is(t, Blocked) && r.threads[t].wake > now
    decreases |es|
  {
    if es == [] {
      WakeLeavesNone(s, now);
      hide Inv, WakePass;
    } else {
      StepKeeps(s, es[0]);
      StepWakable(s, es[0]);
      RunWakes(Step(s, es[0]), es[1..], now);
    }
  }

  // ----- Bounded waiting

  function IndexOf(q: seq<nat>, t: nat): (k: nat)
    requires t in q
    ensures k < |q| && q[k] == t && t !in q[..k]
  {
    if q[0] == t then 0 else 1 + IndexOf(q[1..], t)
  }

  lemma {:induction false} IndexIs(q: seq<nat>, t: nat, k: nat)
    requires Distinct(q) && k < |q| && q[k] == t
    ensures IndexOf(q, t) == k
  {
    var i := IndexOf(q, t);
    assert q[i] == t == q[k];
  }

  /** Members that leave the queue move the others up. */
  lemma {:induction false} MovesUp(q: seq<nat>, u: nat, t: nat)
    requires t in q && t != u
    ensures t in Without(q, u) && IndexOf(Without(q, u), t) <= IndexOf(q, t)
  {
    if q[0] != u && q[0] != t { MovesUp(q[1..], u, t); }
  }

  lemma {:induction false} StaysPut(q: seq<nat>, more: seq<nat>, t: nat)
    requires t in q
    ensures IndexOf(q + more, t) == IndexOf(q, t)
  {
    if q[0] != t {
      assert (q + more)[1..] == q[1..] + more;
      StaysPut(q[1..], more, t);
    }
  }

  /** The step calls `schedule_core`. */
  predicate Calls(s: State, e: Event) {
    e.ESchedule? || (e.ETimer? && Preempts(Woken(s, e.now, e.wakeLock), e.lock))
  }

  function CallCount(s: State, es: seq<Event>): nat
    decreases |es|
  {
    if es == [] then 0 else (if Calls(s, es[0]) then 1 else 0) + CallCount(Step(s, es[0]), es[1..])
  }

  /** The step neither kills `t` nor is `t` going to sleep or exiting. */
  predicate Leaves(s: State, e: Event, t: nat) {
    e != EKill(t) && ((e.ESleep? || e.EWaitTicks? || e.EExit?) ==> s.current != t)
  }

  /** Ready, at or before position `k`. */
  ghost predicate Waits(s: State, t: nat, k: int) {
    t in s.rq && IndexOf(s.rq, t) <= k
  }

  lemma DispatchAdvances(s: State, t: nat)
    requires t in s.rq && s.rq[0] in s.threads
    ensures Runs(Dispatch(s), t) || Waits(Dispatch(s), t, IndexOf(s.rq, t) - 1)
  {
  }

  lemma RequeueAdvances(s: State, t: nat)
    requires Inv(s) && t in s.rq
    ensures t in Requeue(s).rq && IndexOf(Requeue(s).rq, t) == IndexOf(s.rq, t)
    ensures Requeue(s).rq[0] in Requeue(s).threads
  {
    RequeueKeeps(s);
    assert Requeue(s).rq == s.rq || Requeue(s).rq == s.rq + [s.current];
    if s.current >= 0 { StaysPut(s.rq, [s.current], t); }
    assert Requeue(s).rq[0] in Requeue(s).rq;
  }

  /** One call of `schedule_core` dispatches the head of the queue and moves the rest up. */
  lemma ScheduleAdvances(s: State, t: nat)
    requires Inv(s) && t in s.rq
    ensures Runs(Schedule(s), t) || Waits(Schedule(s), t, IndexOf(s.rq, t) - 1)
  {
    hide Inv, Dispatch, Requeue;
    ReapKeeps(s);
    RequeueAdvances(Reap(s), t);
    DispatchAdvances(Requeue(Reap(s)), t);
  }

  /** Any other step leaves a waiting thread where it is or moves it up, or it runs. */
  lemma StepAdvances(s: State, e: Event, t: nat)
    requires Inv(s) && Enabled(s, e) && Leaves(s, e, t) && t in s.rq
    ensures Runs(Step(s, e), t) || Waits(Step(s, e), t, IndexOf(s.rq, t) - if Calls(s, e) then 1 else 0)
  {
    hide Inv, IndexOf, Schedule, WakePass, Without;
    match e
    case ECreate(memory, stack) => StaysPut(s.rq, [s.next], t);
    case ESleep(ticks) => if s.current >= 0 { MovesUp(s.rq, s.current, t); }
    case EWaitTicks(ticks, waitFor) => if s.current >= 0 { MovesUp(s.rq, s.current, t); }
    case EWaitTail => if s.cpu >= 0 && s.cpu != t { MovesUp(s.rq, s.cpu, t); }
    case EExit => if s.current >= 0 { MovesUp(s.rq, s.current, t); }
    case EKill(u) => MovesUp(s.rq, u, t);
    case EReap =>
    case ESchedule => ScheduleAdvances(s, t);
    case ETimer(now, wakeLock, lock) => TimerAdvances(s, now, wakeLock, lock, t);
  }

  lemma WokenAdvances(s: State, now: nat, lock: bool, t: nat)
    requires Inv(s) && t in s.rq
    ensures Inv(Woken(s, now, lock)) && s.rq <= Woken(s, now, lock).rq
    ensures t in Woken(s, now, lock).rq && IndexOf(Woken(s, now, lock).rq, t) == IndexOf(s.rq, t)
    ensures s.Is(s.current, Running) ==> Woken(s, now, lock).current == s.current && Woken(s, now, lock).threads[s.current] == s.threads[s.current]
  {
    hide WakePass, Select, IndexOf;
    var w := Woken(s, now, lock);
    WakePassIs(s, [], s.wl, now);
    WakePassKeeps(s, s.wl, now);
    var more := if w == s then [] else Select(s.threads, s.wl, now, true);
    StaysPut(s.rq, more, t);
    assert w.rq == s.rq + more;
  }

  lemma TimerAdvances(s: State, now: Word, wakeLock: bool, lock: bool, t: nat)
    requires Inv(s) && t in s.rq
    ensures var e := ETimer(now, wakeLock, lock);
            Runs(Step(s, e), t) || Waits(Step(s, e), t, IndexOf(s.rq, t) - if Calls(s, e) then 1 else 0)
  {
    hide Inv, IndexOf, Schedule, Woken;
    WokenAdvances(s, now, wakeLock, t);
    var w := Woken(s, now, wakeLock);
    ChargedKeeps(w);
    ScheduleAdvances(Charged(w), t);
  }

  lemma ChargedKeeps(s: State)
    requires Inv(s)
    ensures Inv(Charged(s)) && Charged(s).rq == s.rq
  {
  }

  /** A ready thread at position `k` runs within `k + 1` calls of `schedule_core`, whatever else
      arrives, is woken, sleeps or is killed meanwhile; or some step of the run is its own: it is
      killed or, woken before it gave the processor up, goes to sleep again or exits. */
  lemma {:induction false} BoundedWait(s: State, es: seq<Event>, t: nat)
    requires Inv(s) && Possible(s, es)
    requires t in s.rq && CallCount(s, es) > IndexOf(s.rq, t)
    ensures (exists i :: 0 < i <= |es| && Runs(Run(s, es[..i]), t)) || (exists i :: 0 <= i < |es| && !Leaves(Run(s, es[..i]), es[i], t))
    decreases |es|
  {
    var s' := Step(s, es[0]);
    RunNone(s, es);
    StepKeeps(s, es[0]);
    if !Leaves(s, es[0], t) {
      assert !Leaves(Run(s, es[..0]), es[0], t);
    } else {
      StepAdvances(s, es[0], t);
      if Runs(s', t) {
        RunOne(s, es);
      } else {
        BoundedWait(s', es[1..], t);
        if i :| 0 < i <= |es[1..]| && Runs(Run(s', es[1..][..i]), t) {
          RunMore(s, es, i);
        } else {
          var i :| 0 <= i < |es[1..]| && !Leaves(Run(s', es[1..][..i]), es[1..][i], t);
          RunMore(s, es, i);
          assert es[i + 1] == es[1..][i];
        }
      }
    }
  }

  // ----- The time slice

  /** A dispatched thread starts with one to eight ticks. */
  lemma FreshQuantum(s: State)
    requires Inv(s)
    ensures var s' := Schedule(s); s'.current >= 0 ==> Runs(s', s'.current) && 1 <= s'.threads[s'.current].quantum <= TIME_SLICE
    ensures Schedule(s).current >= -1
    ensures Schedule(s).current == -1 <==> s.rq == [] && !s.Is(s.current, Running)
  {
    ReapKeeps(s);
    RequeueKeeps(Reap(s));
    var r := Requeue(Reap(s));
    assert r.rq != [] ==> r.rq[0] in r.rq;
  }

  /** A timer tick that finds both locks free. */
  predicate FreeTick(e: Event) {
    e.ETimer? && e.wakeLock && e.lock
  }

  /** A running thread is handed to the scheduler within as many ticks as its quantum, and a ready
      thread at position `k` runs within `8 * k` more. */
  lemma {:induction false} ServedWithin(s: State, es: seq<Event>, t: nat)
    requires Inv(s) && Runs(s, s.current) && t in s.rq && forall i :: 0 <= i < |es| ==> FreeTick(es[i])
    requires |es| >= TIME_SLICE * IndexOf(s.rq, t) + Left(s)
    ensures exists i :: 0 < i <= |es| && Runs(Run(s, es[..i]), t)
    decreases |es|
  {
    hide Inv, IndexOf;
    var e := es[0];
    var s' := Step(s, e);
    StepKeeps(s, e);
    TimerAdvances(s, e.now, true, true, t);
    SliceGoesDown(s, e, t);
    if Runs(s', t) {
      RunOne(s, es);
    } else {
      ServedWithin(s', es[1..], t);
      var i :| 0 < i <= |es[1..]| && Runs(Run(s', es[1..][..i]), t);
      RunMore(s, es, i);
    }
  }

  /** Ticks left to the current thread; a tick with nothing left counts as the last one. While nobody is
      current, whoever comes next has a whole slice at most. */
  function Left(s: State): int {
    if s.current < 0 || s.current !in s.threads then TIME_SLICE
    else if s.threads[s.current].quantum > 1 then s.threads[s.current].quantum
    else 1
  }

  /** A timer tick that is charged to a running thread and finds the scheduler free. */
  predicate Charges(s: State, e: Event) {
    e.ETimer? && e.lock && s.Is(s.current, Running)
  }

  function ChargeCount(s: State, es: seq<Event>): nat
    decreases |es|
  {
    if es == [] then 0 else (if Charges(s, es[0]) then 1 else 0) + ChargeCount(Step(s, es[0]), es[1..])
  }

  lemma WokenCurrent(s: State, now: nat, lock: bool)
    requires Inv(s)
    ensures var w := Woken(s, now, lock); w.current == s.current && Left(w) == Left(s)
    ensures Woken(s, now, lock).Is(s.current, Running) <==> s.Is(s.current, Running)
    ensures Inv(Woken(s, now, lock))
  {
    hide WakePass, Inv;
    PassCurrent(s, now);
    WakePassKeeps(s, s.wl, now);
  }

  lemma PassCurrent(s: State, now: nat)
    requires Inv(s)
    ensures var w := WakePass(s, s.wl, now); w.current == s.current && Left(w) == Left(s)
    ensures WakePass(s, s.wl, now).Is(s.current, Running) <==> s.Is(s.current, Running)
  {
    hide WakePass, Select;
    WakePassIs(s, [], s.wl, now);
  }

  /** What a step does to the slice: a call of the scheduler grants a new one, a charged tick without a
      call takes one off, nothing else adds to it. */
  lemma LeftAfter(s: State, e: Event, t: nat)
    requires Inv(s) && Enabled(s, e) && t in s.rq
    ensures Left(Step(s, e)) <= if Calls(s, e) then TIME_SLICE else Left(s) - if Charges(s, e) then 1 else 0
  {
    hide Schedule, Woken, Without, WakePass;
    StepKeeps(s, e);
    match e
    case ETimer(now, wakeLock, lock) => WokenCurrent(s, now, wakeLock);
    case _ =>
  }

  /** A ready thread at position `k` runs within `8 * k` charged ticks and those left to the current
      thread, whatever is created, woken, killed, puts itself to sleep or exits meanwhile; or some step
      of the run is its own. */
  lemma {:induction false} ServedInRun(s: State, es: seq<Event>, t: nat)
    requires Inv(s) && Possible(s, es)
    requires t in s.rq && ChargeCount(s, es) >= TIME_SLICE * IndexOf(s.rq, t) + Left(s)
    ensures (exists i :: 0 < i <= |es| && Runs(Run(s, es[..i]), t)) || (exists i :: 0 <= i < |es| && !Leaves(Run(s, es[..i]), es[i], t))
    decreases |es|
  {
    hide Inv, Left, Calls, Charges;
    LeftPositive(s);
    var s' := Step(s, es[0]);
    RunNone(s, es);
    StepKeeps(s, es[0]);
    if !Leaves(s, es[0], t) {
      assert !Leaves(Run(s, es[..0]), es[0], t);
    } else {
      StepAdvances(s, es[0], t);
      LeftAfter(s, es[0], t);
      if Runs(s', t) {
        RunOne(s, es);
      } else {
        ServedInRun(s', es[1..], t);
        if i :| 0 < i <= |es[1..]| && Runs(Run(s', es[1..][..i]), t) {
          RunMore(s, es, i);
        } else {
          var i :| 0 <= i < |es[1..]| && !Leaves(Run(s', es[1..][..i]), es[1..][i], t);
          RunMore(s, es, i);
          assert es[i + 1] == es[1..][i];
        }
      }
    }
  }

  lemma LeftPositive(s: State)
    ensures Left(s) >= 1
  {
  }

  lemma SliceGoesDown(s: State, e: Event, t: nat)
    requires Inv(s) && Runs(s, s.current) && t in s.rq && FreeTick(e)
    ensures Runs(Step(s, e), Step(s, e).current)
    ensures if Calls(s, e) then Left(Step(s, e)) <= TIME_SLICE else Left(Step(s, e)) == Left(s) - 1
    ensures Calls(s, e) <==> Left(s) == 1
  {
    hide Inv, IndexOf, Schedule, Woken;
    WokenAdvances(s, e.now, true, t);
    var w := Woken(s, e.now, true);
    ChargedKeeps(w);
    FreshQuantum(Charged(w));
    assert Charged(w).rq != [];
  }

  lemma RunNone(s: State, es: seq<Event>)
    ensures Run(s, es[..0]) == s
  {
    assert es[..0] == [];
  }

  lemma RunOne(s: State, es: seq<Event>)
    requires es != []
    ensures Run(s, es[..1]) == Step(s, es[0])
  {
    var one := es[..1];
    assert one[1..] == [];
    assert Run(Step(s, one[0]), one[1..]) == Step(s, one[0]);
  }

  lemma RunMore(s: State, es: seq<Event>, i: nat)
    requires es != [] && i <= |es[1..]|
    ensures Run(s, es[..i + 1]) == Run(Step(s, es[0]), es[1..][..i])
  {
    assert es[..i + 1][1..] == es[1..][..i];
  }

  // ----- Runs that show where a property ends

  lemma RunStep(s: State, e: Event, es: seq<Event>)
    ensures Run(s, [e] + es) == Run(Step(s, e), es) && Possible(s, [e] + es) == (Enabled(s, e) && Possible(Step(s, e), es))
  {
    assert ([e] + es)[1..] == es;
  }

  lemma RunEnd(s: State)
    ensures Run(s, []) == s && Possible(s, [])
  {
  }

  /** Two threads; the first runs. */
  const TWO := State(map[0 := Thread(Running, 0, TIME_SLICE), 1 := Thread(Ready, 0, TIME_SLICE)], [1], [], 0, 0, 2)

  /** One thread, running. */
  const ONE := State(map[0 := Thread(Running, 0, TIME_SLICE)], [], [], 0, 0, 1)

  const MAKE := ECreate(true, true)

  lemma ReachesOne(es: seq<Event>)
    ensures Run(START, [MAKE, ESchedule] + es) == Run(ONE, es) && Possible(START, [MAKE, ESchedule] + es) == Possible(ONE, es)
  {
    var s1 := Step(START, MAKE);
    assert s1 == State(map[0 := Thread(Ready, 0, TIME_SLICE)], [0], [], -1, -1, 1);
    assert Reap(s1).threads == s1.threads;
    assert Step(s1, ESchedule) == ONE;
    RunStep(s1, ESchedule, es);
    RunStep(START, MAKE, [ESchedule] + es);
    assert [MAKE] + ([ESchedule] + es) == [MAKE, ESchedule] + es;
  }

  lemma ReachesTwo(es: seq<Event>)
    ensures Run(START, [MAKE, MAKE, ESchedule] + es) == Run(TWO, es) && Possible(START, [MAKE, MAKE, ESchedule] + es) == Possible(TWO, es)
  {
    var s1 := Step(START, MAKE);
    var s2 := Step(s1, MAKE);
    assert s2 == State(map[0 := Thread(Ready, 0, TIME_SLICE), 1 := Thread(Ready, 0, TIME_SLICE)], [0, 1], [], -1, -1, 2);
    assert Reap(s2).threads == s2.threads;
    assert Step(s2, ESchedule) == TWO;
    RunStep(s2, ESchedule, es);
    RunStep(s1, MAKE, [ESchedule] + es);
    RunStep(START, MAKE, [MAKE] + ([ESchedule] + es));
    assert [MAKE] + ([MAKE] + ([ESchedule] + es)) == [MAKE, MAKE, ESchedule] + es;
  }

  /** A thread that waits until the tick count would be 2^64 sleeps for ever: no wake pass at any tick
      changes anything. */
  lemma SleepsForEver(ticks: Word)
    requires ticks > 0
    ensures var es := [MAKE, MAKE, ESchedule, EWaitTicks(ticks, TWO64 - ticks), ESchedule];
      var s := Run(START, es);
      Possible(START, es) && s.Is(0, Blocked) && s.wl == [0] && s.current == 1 && forall now: Word :: WakePass(s, s.wl, now) == s
  {
    var wait := EWaitTicks(ticks, TWO64 - ticks);
    ReachesTwo([wait, ESchedule]);
    var s1 := Step(TWO, wait);
    assert s1.threads == map[0 := Thread(Blocked, 0, TIME_SLICE), 1 := Thread(Ready, 0, TIME_SLICE)];
    assert Reap(s1).threads == s1.threads;
    var s2 := Step(s1, ESchedule);
    assert s2.threads == map[0 := Thread(Blocked, 0, TIME_SLICE), 1 := Thread(Running, 0, TIME_SLICE)] && s2.rq == [] && s2.wl == [0];
    RunStep(s1, ESchedule, []);
    RunStep(TWO, wait, [ESchedule]);
    assert [wait] + [ESchedule] == [wait, ESchedule] && [ESchedule] + [] == [ESchedule];
    assert [MAKE, MAKE, ESchedule] + [wait, ESchedule] == [MAKE, MAKE, ESchedule, wait, ESchedule];
    forall now: Word
      ensures WakePass(s2, s2.wl, now) == s2
    {
      assert s2.wl[1..] == [] && WakeOne(s2, 0, now) == s2;
    }
  }

  /** The state an exit would spoil is one a run reaches: a thread has marked itself as sleeping and not
      called the scheduler yet. If it exited there, the next schedule would free it on the wake list. */
  lemma ExitSpoils(ticks: Word)
    ensures var es := [MAKE, ESchedule, ESleep(ticks)];
      var s := Run(START, es);
      && Possible(START, es) && Inv(s) && s.Is(s.current, Blocked) && !Inv(Exit(s))
      && 0 !in Reap(Schedule(Exit(s))).threads && 0 in Reap(Schedule(Exit(s))).wl
  {
    hide Run, Possible, Inv;
    var nap := ESleep(ticks);
    var s := Step(ONE, nap);
    assert [nap] + [] == [nap] && [MAKE, ESchedule] + [nap] == [MAKE, ESchedule, nap];
    ReachesOne([nap]);
    RunStep(ONE, nap, []);
    RunEnd(s);
    assert Inv(START) by { InvStart(); }
    RunKeeps(START, [MAKE, ESchedule, nap]);
    ExitKeeps(s);
    SleepExits(s, WakeTick(ticks, 1));
  }

  lemma InvStart()
    ensures Inv(START)
  {
  }

  lemma SleepExits(s: State, wake: nat)
    requires s == State(map[0 := Thread(Blocked, wake, TIME_SLICE)], [], [0], 0, 0, 1)
    ensures 0 !in Reap(Schedule(Exit(s))).threads && 0 in Reap(Schedule(Exit(s))).wl
  {
    var x := Exit(s);
    assert x.threads == map[0 := Thread(Terminated, wake, TIME_SLICE)] && x.rq == [] && x.wl == [0];
    assert Reap(x).threads == x.threads;
    assert Schedule(x) == x.(current := -1);
  }

  /** Reaping frees the thread whose context the processor executes exactly when that thread has
      terminated and is no longer the current one. */
  lemma ReapFreesCpu(s: State)
    requires s.cpu >= 0 && s.cpu in s.threads
    ensures s.cpu !in Reap(s).threads <==> s.Is(s.cpu, Terminated) && s.current != s.cpu
  {
  }

  /** It happens when the last ready thread exits: its first call of the scheduler finds nobody to
      switch to, the second one frees the thread it runs on. */
  lemma LastExit()
    ensures var es := [MAKE, ESchedule, EExit, ESchedule];
      var s := Run(START, es);
      Possible(START, es) && s.cpu == 0 && 0 in s.threads && s.current == -1 && 0 !in Schedule(s).threads
  {
    ReachesOne([EExit, ESchedule]);
    var s1 := Step(ONE, EExit);
    assert s1.threads == map[0 := Thread(Terminated, 0, TIME_SLICE)] && s1.rq == [];
    assert Reap(s1).threads == s1.threads;
    var s2 := Step(s1, ESchedule);
    assert s2 == s1.(current := -1);
    RunStep(s1, ESchedule, []);
    RunStep(ONE, EExit, [ESchedule]);
    assert [EExit] + [ESchedule] == [EExit, ESchedule] && [ESchedule] + [] == [ESchedule];
    assert [MAKE, ESchedule] + [EExit, ESchedule] == [MAKE, ESchedule, EExit, ESchedule];
    ReapFreesCpu(s2);
  }

  /** A terminated thread comes back to life in exactly two ways: its own context goes on behind a tick
      wait, or it is still the current one and goes to sleep. */
  predicate Revives(s: State, e: Event, t: nat) {
    match e
    case EWaitTail => s.cpu == t
    case ESleep(ticks) => s.current == t
    case EWaitTicks(ticks, waitFor) => s.current == t && waitFor > 0
    case _ => false
  }

  lemma RevivedBy(s: State, e: Event, t: nat)
    requires Inv(s) && s.Is(t, Terminated)
    ensures (t in Step(s, e).threads && !Step(s, e).Is(t, Terminated)) <==> Revives(s, e, t)
  {
    hide Schedule, Tick, Woken, Without;
    match e
    case ETimer(now, wakeLock, lock) => TickedDead(s, now, wakeLock, lock, t);
    case ESchedule => ScheduledDead(s, t);
    case _ =>
  }

  lemma TickedDead(s: State, now: Word, wakeLock: bool, lock: bool, t: nat)
    requires Inv(s) && s.Is(t, Terminated)
    ensures var s' := Step(s, ETimer(now, wakeLock, lock)); t in s'.threads ==> s'.Is(t, Terminated)
  {
    hide WakePass, Select, Schedule, Inv;
    var w := Woken(s, now, wakeLock);
    PassedDead(s, now, t);
    WakePassKeeps(s, s.wl, now);
    ChargedKeeps(w);
    assert Charged(w).Is(t, Terminated);
    ScheduledDead(Charged(w), t);
  }

  lemma PassedDead(s: State, now: nat, t: nat)
    requires Inv(s) && s.Is(t, Terminated)
    ensures WakePass(s, s.wl, now).Is(t, Terminated)
  {
    WakePassIs(s, [], s.wl, now);
    hide WakePass, Select, Inv;
  }

  lemma ScheduledDead(s: State, t: nat)
    requires Inv(s) && s.Is(t, Terminated)
    ensures t in Schedule(s).threads ==> Schedule(s).Is(t, Terminated)
  {
    ReapKeeps(s);
    RequeueKeeps(Reap(s));
    var r := Requeue(Reap(s));
    assert r.rq != [] ==> r.rq[0] in r.rq;
  }

  /** A thread that is killed while it waits alone, still in its own context, runs again. */
  lemma KilledRunsAgain(ticks: Word, waitFor: Word)
    requires waitFor > 0
    ensures var es := [MAKE, ESchedule, EWaitTicks(ticks, waitFor), ESchedule, EKill(0), EWaitTail];
      Possible(START, es) && Runs(Run(START, es), 0)
  {
    hide Run, Possible;
    var wait := EWaitTicks(ticks, waitFor);
    assert [EWaitTail] + [] == [EWaitTail] && [EKill(0)] + [EWaitTail] == [EKill(0), EWaitTail];
    assert [ESchedule] + [EKill(0), EWaitTail] == [ESchedule, EKill(0), EWaitTail];
    assert [wait] + [ESchedule, EKill(0), EWaitTail] == [wait, ESchedule, EKill(0), EWaitTail];
    assert [MAKE, ESchedule] + [wait, ESchedule, EKill(0), EWaitTail] == [MAKE, ESchedule, wait, ESchedule, EKill(0), EWaitTail];
    ReachesOne([wait, ESchedule, EKill(0), EWaitTail]);
    var s1 := Step(ONE, wait);
    var s2 := Step(s1, ESchedule);
    var s3 := Step(s2, EKill(0));
    SleepsAlone(s1, WakeTick(ticks, waitFor));
    RunStep(ONE, wait, [ESchedule, EKill(0), EWaitTail]);
    RunStep(s1, ESchedule, [EKill(0), EWaitTail]);
    RunStep(s2, EKill(0), [EWaitTail]);
    RunStep(s3, EWaitTail, []);
    RunEnd(Step(s3, EWaitTail));
  }

  lemma SleepsAlone(s: State, wake: nat)
    requires s == State(map[0 := Thread(Blocked, wake, TIME_SLICE)], [], [0], 0, 0, 1)
    ensures Schedule(s) == s.(current := -1)
    ensures Runs(WaitTail(Kill(Schedule(s), 0)), 0)
  {
    assert Reap(s).threads == s.threads;
  }
}
