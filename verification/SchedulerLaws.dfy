/** What the steps of the scheduler do to the threads, said of the states before and after and without
    the functions that the steps are made of. */
module SchedulerLaws {
  import opened SchedulerSteps

  /** Who may run next, in order: the queue, and behind it the running thread. */
  function Candidates(s: State): seq<nat> {
    s.rq + if s.Is(s.current, Running) then [s.current] else []
  }

  /** A thread after a call of the scheduler that lets `first` run, or nobody if that is -1. */
  function Switched(s: State, first: int, t: nat): Thread
    requires t in s.threads
  {
    var th := s.threads[t];
    if t == first then Thread(Running, th.wake, if t == s.current || th.quantum <= 0 then TIME_SLICE else th.quantum)
    else if th.state == Running then Thread(Ready, th.wake, th.quantum)
    else th
  }

  /** One call of `schedule_core`: the first candidate runs, the others are the queue; dead threads but
      for the current one are gone, and nothing else happens to anyone. */
  ghost predicate Switches(s: State, s': State) {
    var q := Candidates(s);
    var first: int := if q == [] then -1 else q[0];
    && s'.wl == s.wl && s'.next == s.next && s'.current == first
    && s'.cpu == (if q == [] then s.cpu else first) && s'.rq == (if q == [] then [] else q[1..])
    && (forall t: nat :: t in s'.threads <==> t in s.threads && (s.threads[t].state == Terminated ==> t == s.current))
    && forall t: nat :: t in s'.threads ==> s'.threads[t] == Switched(s, first, t)
  }

  lemma Switch(s: State)
    requires Inv(s)
    ensures Switches(s, Schedule(s))
  {
    hide Inv, Dispatch, Requeue;
    var r, q := Reap(s), Candidates(s);
    ReapKeeps(s);
    Requeued(r);
    Dispatched(Requeue(r));
    RunsAsCurrent(s);
    assert Candidates(r) == q;
    var s' := Schedule(s);
    forall t: nat | t in s'.threads
      ensures s'.threads[t] == Switched(s, s'.current, t)
    {
      assert s.Is(t, Running) ==> t == s.current;
    }
  }

  lemma RunsAsCurrent(s: State)
    requires Inv(s)
    ensures forall t: nat :: s.Is(t, Running) ==> t == s.current
    ensures s.rq != [] ==> s.rq[0] in s.threads && s.threads[s.rq[0]].state == Ready
  {
    assert s.rq != [] ==> s.rq[0] in s.rq;
  }

  lemma Requeued(r: State)
    requires Inv(r)
    ensures var r' := Requeue(r);
      && r' == r.(threads := r'.threads, rq := Candidates(r)) && r'.threads.Keys == r.threads.Keys
      && (r'.rq != [] ==> r'.rq[0] in r'.threads)
      && forall t: nat :: t in r.threads ==>
           r'.threads[t] == if r.Is(r.current, Running) && t == r.current then r.threads[t].(state := Ready) else r.threads[t]
  {
    RequeueKeeps(r);
    var r' := Requeue(r);
    assert r'.rq != [] ==> r'.rq[0] in r'.rq;
  }

  lemma Dispatched(r: State)
    requires r.rq != [] ==> r.rq[0] in r.threads
    ensures var d := Dispatch(r);
      var first: int := if r.rq == [] then -1 else r.rq[0];
      && d == r.(threads := d.threads, rq := if r.rq == [] then [] else r.rq[1..], current := first, cpu := if r.rq == [] then r.cpu else first)
      && d.threads.Keys == r.threads.Keys
      && forall t: nat :: t in r.threads ==>
           d.threads[t] == if t != first then r.threads[t]
                           else Thread(Running, r.threads[t].wake, if t == r.current || r.threads[t].quantum <= 0 then TIME_SLICE else r.threads[t].quantum)
  {
  }

  /** The thread that had the processor keeps its quantum and its wake tick and goes to the end of the
      queue, or runs on with a full slice when nobody else is ready. */
  lemma Preempted(s: State)
    requires Inv(s) && s.Is(s.current, Running)
    ensures var s', t, th := Schedule(s), s.current, s.threads[s.current];
      && s'.rq == (s.rq + [t])[1..]
      && (s.rq != [] ==> s'.current == s.rq[0] && s'.rq[|s'.rq| - 1] == t && t in s'.threads && s'.threads[t] == Thread(Ready, th.wake, th.quantum))
      && (s.rq == [] ==> s'.current == t && t in s'.threads && s'.threads[t] == Thread(Running, th.wake, TIME_SLICE))
  {
    hide Schedule;
    Switch(s);
    NotQueued(s);
    assert Candidates(s) == s.rq + [s.current];
  }

  lemma NotQueued(s: State)
    requires Inv(s) && s.Is(s.current, Running)
    ensures s.rq != [] ==> s.rq[0] != s.current
  {
    assert s.rq != [] ==> s.rq[0] in s.rq;
  }

  /** A new thread waits behind all others with a whole slice, under an id that nobody has; when that
      cannot be done nobody is changed. */
  lemma Created(s: State, memory: bool, stack: bool)
    requires Inv(s)
    ensures var s' := Step(s, ECreate(memory, stack));
      && (forall t: nat :: t in s.threads ==> t in s'.threads && s'.threads[t] == s.threads[t])
      && (s'.threads.Keys != s.threads.Keys <==> memory && stack && s.next < MAX_THREADS)
      && (s'.threads.Keys == s.threads.Keys ==> s'.rq == s.rq)
      && (s'.threads.Keys != s.threads.Keys ==> s.next !in s.threads && s'.rq == s.rq + [s.next] && s'.Is(s.next, Ready) && s'.threads[s.next].quantum == 8)
  {
    NewIdUnused(s);
    if memory && stack && s.next < MAX_THREADS { assert s.next in Step(s, ECreate(memory, stack)).threads.Keys; }
  }

  // ----- What ends, stops and blocks a thread

  /** A living thread dies in exactly two ways: it is killed or it exits. */
  lemma DiesBy(s: State, e: Event, t: nat)
    requires Inv(s) && t in s.threads && s.threads[t].state != Terminated
    ensures (t !in Step(s, e).threads || Step(s, e).threads[t].state == Terminated) <==> e == EKill(t) || (e == EExit && s.current == t)
  {
    hide Schedule, Tick, Woken, Inv;
    match e
    case ETimer(now, wakeLock, lock) => TickIs(s, now, wakeLock, lock, t);
    case ESchedule => Switch(s);
    case _ =>
  }

  /** What a timer tick finds of a thread after the wake pass: a due sleeper is ready, all others are
      as before. */
  function Awake(s: State, now: nat, wakeLock: bool, t: nat): Thread
    requires t in s.threads
  {
    var th := s.threads[t];
    if wakeLock && th.state == Blocked && 0 < th.wake <= now then Thread(Ready, 0, th.quantum) else th
  }

  lemma WokenIs(s: State, now: Word, wakeLock: bool)
    requires Inv(s)
    ensures var w := Woken(s, now, wakeLock);
      Inv(w) && w.current == s.current && w.threads.Keys == s.threads.Keys && s.rq <= w.rq
      && forall t: nat :: t in s.threads ==> w.threads[t] == Awake(s, now, wakeLock, t)
  {
    PassIs(s, now);
    WakePassKeeps(s, s.wl, now);
    hide WakePass;
    if s.wl == [] { NoSleepers(s); }
  }

  lemma NoSleepers(s: State)
    requires Inv(s) && s.wl == []
    ensures forall t: nat :: t in s.threads ==> s.threads[t].state != Blocked
  {
  }

  lemma PassIs(s: State, now: Word)
    requires Inv(s)
    ensures var w := WakePass(s, s.wl, now);
      w.current == s.current && w.threads.Keys == s.threads.Keys && s.rq <= w.rq
      && forall t: nat :: t in s.threads ==> w.threads[t] == Awake(s, now, true, t)
  {
    hide WakePass, Select;
    WakePassIs(s, [], s.wl, now);
  }

  /** A tick finds the slice of the running thread used up and the scheduler free. */
  predicate UsedUp(s: State, lock: bool) {
    s.Is(s.current, Running) && s.threads[s.current].quantum <= 1 && lock
  }

  /** A tick wakes whoever is due and then charges the running thread, or, when that has used up its
      slice and the scheduler is free, hands over to the next one. */
  lemma TickIs(s: State, now: Word, wakeLock: bool, lock: bool, t: nat)
    requires Inv(s) && t in s.threads && s.threads[t].state != Terminated
    ensures var s', a := Step(s, ETimer(now, wakeLock, lock)), Awake(s, now, wakeLock, t);
      && t in s'.threads && s'.threads[t].wake == a.wake
      && (!UsedUp(s, lock) ==> s'.threads[t] == if s.Is(t, Running) then a.(quantum := a.quantum - 1) else a)
      && (UsedUp(s, lock) ==>
            s'.threads[t] == if t == s'.current then Thread(Running, a.wake, if t == s.current || a.quantum <= 0 then TIME_SLICE else a.quantum)
                             else if s.Is(t, Running) then Thread(Ready, a.wake, a.quantum - 1)
                             else a)
  {
    hide Schedule, Woken, Inv;
    var w := Woken(s, now, wakeLock);
    WokenIs(s, now, wakeLock);
    ChargedKeeps(w);
    RunsAsCurrent(s);
    RunsAsCurrent(w);
    Switch(Charged(w));
  }

  /** A thread falls asleep in exactly one way: it is the current one and asks for it. */
  lemma BlocksBy(s: State, e: Event, t: nat)
    requires Inv(s) && t in s.threads && s.threads[t].state != Blocked
    ensures Step(s, e).Is(t, Blocked) <==> s.current == t && (e.ESleep? || (e.EWaitTicks? && e.waitFor > 0))
  {
    hide Schedule, Tick, Woken, Inv;
    match e
    case ETimer(now, wakeLock, lock) => if s.threads[t].state == Terminated { TickedDead(s, now, wakeLock, lock, t); } else { TickIs(s, now, wakeLock, lock, t); }
    case ESchedule => Switch(s);
    case _ =>
  }

  /** Somebody is ready, or becomes ready in the wake pass of the step. */
  ghost predicate Competes(s: State, e: Event) {
    s.rq != [] || (e.ETimer? && e.wakeLock && exists u: nat :: s.Is(u, Blocked) && 0 < s.threads[u].wake <= e.now)
  }

  /** A running thread stops in exactly these ways: it is killed, exits or falls asleep, or it has to
      share the processor: on a call of the scheduler or at the end of its slice. */
  lemma StopsBy(s: State, e: Event, t: nat)
    requires Inv(s) && s.Is(t, Running)
    ensures !Step(s, e).Is(t, Running) <==>
      || e == EKill(t) || e == EExit || e.ESleep? || (e.EWaitTicks? && e.waitFor > 0)
      || (Competes(s, e) && (e == ESchedule || (e.ETimer? && UsedUp(s, e.lock))))
  {
    hide Schedule, Tick, Woken, Inv;
    RunsAsCurrent(s);
    NewIdUnused(s);
    match e
    case ETimer(now, wakeLock, lock) => StopsInTick(s, now, wakeLock, lock, t);
    case ESchedule => Preempted(s);
    case EWaitTail => CurrentOnCpu(s);
    case _ =>
  }

  lemma CurrentOnCpu(s: State)
    requires Inv(s)
    ensures s.current >= 0 ==> s.current == s.cpu
  {
  }

  lemma StopsInTick(s: State, now: Word, wakeLock: bool, lock: bool, t: nat)
    requires Inv(s) && s.Is(t, Running) && s.current == t
    ensures !Step(s, ETimer(now, wakeLock, lock)).Is(t, Running) <==> Competes(s, ETimer(now, wakeLock, lock)) && UsedUp(s, lock)
  {
    hide Schedule, Woken, Inv;
    var w := Woken(s, now, wakeLock);
    WokenIs(s, now, wakeLock);
    QueueIsReady(s);
    QueueIsReady(w);
    ChargedKeeps(w);
    if UsedUp(s, lock) { Preempted(Charged(w)); }
    if u: nat :| wakeLock && s.Is(u, Blocked) && 0 < s.threads[u].wake <= now {
      assert w.Is(u, Ready);
    } else {
      assert forall u: nat :: w.Is(u, Ready) ==> u in s.rq;
      assert w.rq != [] ==> w.rq[0] in w.rq;
    }
  }

  lemma QueueIsReady(s: State)
    requires Inv(s)
    ensures forall t: nat :: t in s.rq <==> s.Is(t, Ready)
  {
  }
}
