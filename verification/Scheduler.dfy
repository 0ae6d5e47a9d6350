/** The scheduler in its own form: threads linked into the ready queue and the wake list through
    their own fields, and every locked section as a method that refines its step. */
module Scheduler {
  import SchedulerLaws
  import opened SchedulerSteps
  import opened ThreadQueue

  class KThread {
    const id: nat
    var state: ThreadState
    var wakeTick: nat
    var quantum: int
    var rqNext: KThread?
    var rqPrev: KThread?
    var rqQueued: bool
    var wlNext: KThread?
    var wlPrev: KThread?
    var wlQueued: bool

    constructor (id: nat)
      ensures this.id == id && state == Ready && wakeTick == 0 && quantum == TIME_SLICE
      ensures rqNext == null && rqPrev == null && !rqQueued && wlNext == null && wlPrev == null && !wlQueued
    {
      this.id := id;
      state, wakeTick, quantum := Ready, 0, TIME_SLICE;
      rqNext, rqPrev, rqQueued := null, null, false;
      wlNext, wlPrev, wlQueued := null, null, false;
    }
  }

  function Id(p: KThread?): int {
    if p == null then -1 else p.id
  }

  class ThreadTable {
    const threads: array<KThread?>
    var current: int
    var next: nat
    var rqHead: KThread?
    var rqTail: KThread?
    var rqCount: int
    var wlHead: KThread?
    var wlTail: KThread?
    ghost var tab: map<nat, KThread>
    ghost var rq: seq<nat>
    ghost var wl: seq<nat>
    ghost var cpu: int

    /** `thread_init` */
    constructor ()
      ensures Valid() && Abs() == START && Inv(Abs())
    {
      threads := new KThread?[MAX_THREADS](_ => null);
      current, next, rqHead, rqTail, rqCount, wlHead, wlTail := -1, 0, null, null, 0, null, null;
      tab, rq, wl, cpu := map[], [], [], -1;
    }

    // ----- What the links mean

    /** The thread is in the table. */
    ghost predicate Live(t: KThread?)
      reads this`tab
    {
      t == null || (t.id in tab && tab[t.id] == t)
    }

    ghost predicate Table()
      reads this`tab
    {
      forall i :: i in tab ==> tab[i].id == i
    }

    ghost function RqLinks(): map<nat, Link>
      reads this`tab, tab.Values`rqNext, tab.Values`rqPrev, tab.Values`rqQueued
    {
      map i | i in tab :: Link(Id(tab[i].rqPrev), Id(tab[i].rqNext), tab[i].rqQueued)
    }

    ghost predicate RqLive()
      reads this`tab, tab.Values`rqNext, tab.Values`rqPrev
    {
      forall i :: i in tab ==> Live(tab[i].rqNext) && Live(tab[i].rqPrev)
    }

    ghost predicate RqValid()
      reads this`tab, this`rq, this`rqHead, this`rqTail, this`rqCount, tab.Values`rqNext, tab.Values`rqPrev, tab.Values`rqQueued
    {
      RqLive() && Live(rqHead) && Live(rqTail) && ListOf(rq, Id(rqHead), Id(rqTail), RqLinks()) && rqCount == |rq|
    }

    ghost function WlLinks(): map<nat, Link>
      reads this`tab, tab.Values`wlNext, tab.Values`wlPrev, tab.Values`wlQueued
    {
      map i | i in tab :: Link(Id(tab[i].wlPrev), Id(tab[i].wlNext), tab[i].wlQueued)
    }

    ghost predicate WlLive()
      reads this`tab, tab.Values`wlNext, tab.Values`wlPrev
    {
      forall i :: i in tab ==> Live(tab[i].wlNext) && Live(tab[i].wlPrev)
    }

    ghost predicate WlValid()
      reads this`tab, this`wl, this`wlHead, this`wlTail, tab.Values`wlNext, tab.Values`wlPrev, tab.Values`wlQueued
    {
      WlLive() && Live(wlHead) && Live(wlTail) && ListOf(wl, Id(wlHead), Id(wlTail), WlLinks())
    }

    // ----- The ready queue

    method SetRqNext(t: KThread, p: KThread?)
      requires Table() && RqLive() && t.id in tab && tab[t.id] == t && Live(p)
      modifies t`rqNext
      ensures RqLive() && t.id in old(RqLinks()) && RqLinks() == SetNext(old(RqLinks()), t.id, Id(p)) && t.rqNext == p
    {
      t.rqNext := p;
    }

    method SetRqPrev(t: KThread, p: KThread?)
      requires Table() && RqLive() && t.id in tab && tab[t.id] == t && Live(p)
      modifies t`rqPrev
      ensures RqLive() && t.id in old(RqLinks()) && RqLinks() == SetPrev(old(RqLinks()), t.id, Id(p)) && t.rqPrev == p
    {
      t.rqPrev := p;
    }

    method SetRqLink(t: KThread, prev: KThread?, next: KThread?, queued: bool)
      requires Table() && RqLive() && t.id in tab && tab[t.id] == t && Live(prev) && Live(next)
      modifies t`rqNext, t`rqPrev, t`rqQueued
      ensures RqLive() && RqLinks() == old(RqLinks())[t.id := Link(Id(prev), Id(next), queued)]
    {
      t.rqNext, t.rqPrev, t.rqQueued := next, prev, queued;
    }

    lemma RqLinkOf(t: KThread)
      requires Live(t) && RqLive()
      ensures Live(t.rqNext) && Live(t.rqPrev)
      ensures t.id in RqLinks() && RqLinks()[t.id] == Link(Id(t.rqPrev), Id(t.rqNext), t.rqQueued)
      ensures t in tab.Values
    {
    }

    /** Appends at the tail: the second half of `rq_enqueue`. */
    method RqLinkLast(t: KThread)
      requires Table() && RqValid() && Live(t) && t.id !in rq
      modifies this`rqHead, this`rqTail, this`rqCount, this`rq, tab.Values`rqNext, tab.Values`rqPrev, tab.Values`rqQueued
      ensures RqValid() && rq == old(rq) + [t.id]
    {
      hide ListOf, ThreadTable.RqLinks, ThreadTable.RqLive, SetNext, SetPrev, Without, Distinct;
      RqLinkOf(t);
      NullLinks(RqLinks()[t.id := Link(Id(rqTail), -1, true)], t.id);
      Appended(rq, Id(rqHead), Id(rqTail), RqLinks(), t.id);
      SetRqLink(t, rqTail, null, true);
      if rqTail != null {
        SetRqNext(rqTail, t);
      } else {
        rqHead := t;
      }
      rqTail := t;
      rqCount := rqCount + 1;
      rq := rq + [t.id];
    }

    /** The two neighbours of `rq_remove`, or the ends of the queue, are joined. */
    method RqJoin(prev: KThread?, next: KThread?)
      requires Table() && RqLive() && Live(prev) && Live(next)
      modifies this`rqHead, this`rqTail, tab.Values`rqNext, tab.Values`rqPrev
      ensures RqLive() && RqLinks() == SetPrev(SetNext(old(RqLinks()), Id(prev), Id(next)), Id(next), Id(prev))
      ensures rqHead == if prev == null then next else old(rqHead)
      ensures rqTail == if next == null then prev else old(rqTail)
    {
      hide ListOf, ThreadTable.RqLinks, ThreadTable.RqLive, SetNext, SetPrev, Without, Distinct;
      NullLinks(RqLinks(), Id(next));
      if prev != null {
        SetRqNext(prev, next);
      } else {
        rqHead := next;
      }
      NullLinks(RqLinks(), Id(prev));
      if next != null {
        SetRqPrev(next, prev);
      } else {
        rqTail := prev;
      }
    }

    /** Takes a queued thread out: the second half of `rq_remove`, and of `rq_dequeue` at the head. */
    method RqUnlink(t: KThread)
      requires Table() && RqValid() && Live(t) && t.id in rq
      modifies this`rqHead, this`rqTail, this`rqCount, this`rq, tab.Values`rqNext, tab.Values`rqPrev, tab.Values`rqQueued
      ensures RqValid() && rq == Without(old(rq), t.id)
    {
      hide ListOf, ThreadTable.RqLinks, ThreadTable.RqLive, SetNext, SetPrev, Without, Distinct;
      RqLinkOf(t);
      Removed(rq, Id(rqHead), Id(rqTail), RqLinks(), t.id);
      WithoutLess(rq, t.id);
      RqJoin(t.rqPrev, t.rqNext);
      SetRqLink(t, null, null, false);
      rqCount := rqCount - 1;
      rq := Without(rq, t.id);
    }

    lemma RqQueued(t: KThread)
      requires RqValid() && Live(t)
      ensures t.rqQueued <==> t.id in rq
    {
      hide ListOf;
      QueuedIffMember(rq, Id(rqHead), Id(rqTail), RqLinks(), t.id);
    }

    // ----- The wake list

    method SetWlNext(t: KThread, p: KThread?)
      requires Table() && WlLive() && t.id in tab && tab[t.id] == t && Live(p)
      modifies t`wlNext
      ensures WlLive() && t.id in old(WlLinks()) && WlLinks() == SetNext(old(WlLinks()), t.id, Id(p)) && t.wlNext == p
    {
      t.wlNext := p;
    }

    method SetWlPrev(t: KThread, p: KThread?)
      requires Table() && WlLive() && t.id in tab && tab[t.id] == t && Live(p)
      modifies t`wlPrev
      ensures WlLive() && t.id in old(WlLinks()) && WlLinks() == SetPrev(old(WlLinks()), t.id, Id(p)) && t.wlPrev == p
    {
      t.wlPrev := p;
    }

    method SetWlLink(t: KThread, prev: KThread?, next: KThread?, queued: bool)
      requires Table() && WlLive() && t.id in tab && tab[t.id] == t && Live(prev) && Live(next)
      modifies t`wlNext, t`wlPrev, t`wlQueued
      ensures WlLive() && WlLinks() == old(WlLinks())[t.id := Link(Id(prev), Id(next), queued)]
    {
      t.wlNext, t.wlPrev, t.wlQueued := next, prev, queued;
    }

    lemma WlLinkOf(t: KThread)
      requires Live(t) && WlLive()
      ensures Live(t.wlNext) && Live(t.wlPrev)
      ensures t.id in WlLinks() && WlLinks()[t.id] == Link(Id(t.wlPrev), Id(t.wlNext), t.wlQueued)
      ensures t in tab.Values
    {
    }

    /** Appends at the tail: the second half of `wake_list_add`. */
    method WlLinkLast(t: KThread)
      requires Table() && WlValid() && Live(t) && t.id !in wl
      modifies this`wlHead, this`wlTail, this`wl, tab.Values`wlNext, tab.Values`wlPrev, tab.Values`wlQueued
      ensures WlValid() && wl == old(wl) + [t.id]
    {
      hide ListOf, ThreadTable.WlLinks, ThreadTable.WlLive, SetNext, SetPrev, Without, Distinct;
      WlLinkOf(t);
      NullLinks(WlLinks()[t.id := Link(Id(wlTail), -1, true)], t.id);
      Appended(wl, Id(wlHead), Id(wlTail), WlLinks(), t.id);
      SetWlLink(t, wlTail, null, true);
      if wlTail != null {
        SetWlNext(wlTail, t);
      } else {
        wlHead := t;
      }
      wlTail := t;
      wl := wl + [t.id];
    }

    /** The two neighbours of `wake_list_remove`, or the ends of the list, are joined. */
    method WlJoin(prev: KThread?, next: KThread?)
      requires Table() && WlLive() && Live(prev) && Live(next)
      modifies this`wlHead, this`wlTail, tab.Values`wlNext, tab.Values`wlPrev
      ensures WlLive() && WlLinks() == SetPrev(SetNext(old(WlLinks()), Id(prev), Id(next)), Id(next), Id(prev))
      ensures wlHead == if prev == null then next else old(wlHead)
      ensures wlTail == if next == null then prev else old(wlTail)
    {
      hide ListOf, ThreadTable.WlLinks, ThreadTable.WlLive, SetNext, SetPrev, Without, Distinct;
      NullLinks(WlLinks(), Id(next));
      if prev != null {
        SetWlNext(prev, next);
      } else {
        wlHead := next;
      }
      NullLinks(WlLinks(), Id(prev));
      if next != null {
        SetWlPrev(next, prev);
      } else {
        wlTail := prev;
      }
    }

    /** Takes a listed thread out: the second half of `wake_list_remove`. */
    method WlUnlink(t: KThread)
      requires Table() && WlValid() && Live(t) && t.id in wl
      modifies this`wlHead, this`wlTail, this`wl, tab.Values`wlNext, tab.Values`wlPrev, tab.Values`wlQueued
      ensures WlValid() && wl == Without(old(wl), t.id)
    {
      hide ListOf, ThreadTable.WlLinks, ThreadTable.WlLive, SetNext, SetPrev, Without, Distinct;
      WlLinkOf(t);
      Removed(wl, Id(wlHead), Id(wlTail), WlLinks(), t.id);
      WlJoin(t.wlPrev, t.wlNext);
      SetWlLink(t, null, null, false);
      wl := Without(wl, t.id);
    }

    lemma WlListed(t: KThread)
      requires WlValid() && Live(t)
      ensures t.wlQueued <==> t.id in wl
    {
      hide ListOf;
      QueuedIffMember(wl, Id(wlHead), Id(wlTail), WlLinks(), t.id);
    }

    // ----- The whole table as a state

    ghost function Threads(): map<nat, Thread>
      reads this`tab, tab.Values`state, tab.Values`wakeTick, tab.Values`quantum
    {
      map i | i in tab :: Thread(tab[i].state, tab[i].wakeTick, tab[i].quantum)
    }

    lemma ThreadKeys()
      ensures Threads().Keys == tab.Keys
    {
    }

    ghost function Abs(): State
      reads this, tab.Values
    {
      State(Threads(), rq, wl, current, cpu, next)
    }

    /** `thread_list` holds exactly the threads of the table, each under its id. */
    ghost predicate Listed()
      reads this`tab, threads
    {
      && threads.Length == MAX_THREADS
      && (forall i :: i in tab ==> i < MAX_THREADS)
      && (forall i :: 0 <= i < MAX_THREADS ==> threads[i] == if i in tab then tab[i] else null)
    }

    ghost predicate Valid()
      reads this`tab, this`rq, this`rqHead, this`rqTail, this`rqCount, this`wl, this`wlHead, this`wlTail, threads, tab.Values
    {
      Table() && Listed() && RqValid() && WlValid()
    }

    /** `thread_list[tid]`, guarded against ids outside the table. */
    method Find(tid: int) returns (t: KThread?)
      requires Valid()
      ensures Live(t) && Id(t) == if tid >= 0 && tid in tab then tid else -1
      ensures t != null <==> tid >= 0 && tid in Threads()
      ensures t != null ==> Threads()[tid] == Thread(t.state, t.wakeTick, t.quantum)
    {
      hide ThreadTable.RqValid, ThreadTable.WlValid;
      t := if 0 <= tid < MAX_THREADS then threads[tid] else null;
    }

    method Mark(t: KThread, state: ThreadState, wake: nat, quantum: int)
      requires Valid() && Live(t)
      modifies t`state, t`wakeTick, t`quantum
      ensures Valid() && Threads() == old(Threads())[t.id := Thread(state, wake, quantum)]
      ensures t.state == state && t.wakeTick == wake && t.quantum == quantum
    {
      hide ThreadTable.RqValid, ThreadTable.WlValid, ThreadTable.Listed;
      t.state, t.wakeTick, t.quantum := state, wake, quantum;
    }

    /** `rq_enqueue` */
    method RqEnqueue(t: KThread)
      requires Valid() && Live(t)
      modifies this`rqHead, this`rqTail, this`rqCount, this`rq, tab.Values`rqNext, tab.Values`rqPrev, tab.Values`rqQueued
      ensures Valid() && Threads() == old(Threads()) && rq == Add(old(rq), t.id)
    {
      hide ThreadTable.RqValid, ThreadTable.WlValid, ThreadTable.Listed, ThreadTable.Threads;
      RqQueued(t);
      if t.rqQueued { return; }
      RqLinkLast(t);
    }

    /** `rq_remove` */
    method RqRemove(t: KThread)
      requires Valid() && Live(t)
      modifies this`rqHead, this`rqTail, this`rqCount, this`rq, tab.Values`rqNext, tab.Values`rqPrev, tab.Values`rqQueued
      ensures Valid() && Threads() == old(Threads()) && rq == Without(old(rq), t.id)
    {
      hide ThreadTable.RqValid, ThreadTable.WlValid, ThreadTable.Listed, ThreadTable.Threads, Without;
      RqQueued(t);
      if !t.rqQueued {
        WithoutNone(rq, t.id);
        return;
      }
      RqUnlink(t);
    }

    /** `rq_dequeue` */
    method RqDequeue() returns (t: KThread?)
      requires Valid()
      modifies this`rqHead, this`rqTail, this`rqCount, this`rq, tab.Values`rqNext, tab.Values`rqPrev, tab.Values`rqQueued
      ensures Valid() && Threads() == old(Threads()) && Live(t) && Id(t) == Nth(old(rq), 0)
      ensures rq == if old(rq) == [] then [] else old(rq)[1..]
    {
      hide ThreadTable.WlValid, ThreadTable.Listed, ThreadTable.Threads, Without, ListOf, ThreadTable.RqLive, ThreadTable.RqLinks;
      HeadIs(rq, Id(rqHead), Id(rqTail), RqLinks());
      t := rqHead;
      if t == null { return; }
      RqUnlink(t);
    }

    /** `wake_list_add` */
    method WlAdd(t: KThread)
      requires Valid() && Live(t)
      modifies this`wlHead, this`wlTail, this`wl, tab.Values`wlNext, tab.Values`wlPrev, tab.Values`wlQueued
      ensures Valid() && Threads() == old(Threads()) && wl == Add(old(wl), t.id)
    {
      hide ThreadTable.WlValid, ThreadTable.RqValid, ThreadTable.Listed, ThreadTable.Threads;
      WlListed(t);
      if t.wlQueued { return; }
      WlLinkLast(t);
    }

    /** `wake_list_remove` */
    method WlRemove(t: KThread)
      requires Valid() && Live(t)
      modifies this`wlHead, this`wlTail, this`wl, tab.Values`wlNext, tab.Values`wlPrev, tab.Values`wlQueued
      ensures Valid() && Threads() == old(Threads()) && wl == Without(old(wl), t.id)
    {
      hide ThreadTable.WlValid, ThreadTable.RqValid, ThreadTable.Listed, ThreadTable.Threads, Without;
      WlListed(t);
      if !t.wlQueued {
        WithoutNone(wl, t.id);
        return;
      }
      WlUnlink(t);
    }

    // ----- The steps

    /** The blocking part of `network_thread_block`, at tick count `ticks`. */
    method Sleep(ticks: Word)
      requires Valid()
      modifies this, tab.Values
      ensures Valid() && Abs() == Step(old(Abs()), ESleep(ticks)) && tab == old(tab)
    {
      hide ThreadTable.Valid, ThreadTable.Threads, Without, Add;
      var t := Find(current);
      if t != null && t.state != Blocked {
        Mark(t, Blocked, (ticks + 1) % TWO64, t.quantum);
        RqRemove(t);
        WlAdd(t);
      }
    }

    method Kill(tid: int) returns (code: int)
      requires Valid()
      modifies this, tab.Values
      ensures Valid() && Abs() == (if tid >= 0 then SchedulerSteps.Kill(old(Abs()), tid) else old(Abs())) && tab == old(tab)
      ensures code == if tid >= 0 && tid in old(tab) then 0 else -1
    {
      hide ThreadTable.Valid, ThreadTable.Threads, Without, Add;
      var t := Find(tid);
      if t == null { return -1; }
      WlRemove(t);
      RqRemove(t);
      Mark(t, Terminated, t.wakeTick, t.quantum);
      return 0;
    }

    /** INT80_WAIT_TICKS up to the call of the scheduler, at tick count `ticks`. */
    method WaitTicks(ticks: Word, waitFor: Word)
      requires Valid()
      modifies this, tab.Values
      ensures Valid() && Abs() == Step(old(Abs()), EWaitTicks(ticks, waitFor)) && tab == old(tab)
    {
      hide ThreadTable.Valid, ThreadTable.Threads, Without, Add;
      if waitFor == 0 { return; }
      var wake := (ticks + waitFor) % TWO64;
      var t := Find(current);
      if t != null {
        if t.state != Blocked {
          Mark(t, Blocked, wake, t.quantum);
          RqRemove(t);
          WlAdd(t);
        } else {
          Mark(t, Blocked, wake, t.quantum);
        }
      }
    }

    /** INT80_WAIT_TICKS after its waiting loop, in the context of thread `tid`. */
    method WaitTail(tid: int)
      requires Valid() && tid == cpu
      modifies this, tab.Values
      ensures Valid() && Abs() == SchedulerSteps.WaitTail(old(Abs())) && tab == old(tab)
    {
      hide ThreadTable.Valid, ThreadTable.Threads, Without, Add;
      var t := Find(tid);
      if t != null {
        WlRemove(t);
        Mark(t, Running, 0, t.quantum);
        RqRemove(t);
        current := tid;
      }
    }

    /** The locked part of `thread_exit_current`. */
    method Exit()
      requires Valid()
      modifies this, tab.Values
      ensures Valid() && Abs() == SchedulerSteps.Exit(old(Abs())) && tab == old(tab)
    {
      hide ThreadTable.Valid, ThreadTable.Threads, Without, Add;
      var t := Find(current);
      if t != null {
        RqRemove(t);
        Mark(t, Terminated, t.wakeTick, t.quantum);
      }
    }

    /** `thread_create`; `memory` and `stack` say whether the two allocations succeed. */
    method Create(memory: bool, stack: bool) returns (tid: int)
      requires Valid() && Inv(Abs())
      modifies this, threads, tab.Values
      ensures Valid() && Abs() == SchedulerSteps.Create(old(Abs()), memory, stack)
      ensures tid == if old(next) < MAX_THREADS && memory && stack then old(next) else -1
    {
      hide ThreadTable.Valid, ThreadTable.Threads, Without, Add, Inv;
      if next >= MAX_THREADS { return -1; }
      if !memory { return -1; }
      NewIdUnused(Abs());
      ThreadKeys();
      var id := next;
      next := next + 1;
      if !stack { return -1; }
      var t := new KThread(id);
      Enter(t);
      RqEnqueue(t);
      return id;
    }

    twostate predicate SameRq(t: KThread)
      reads t
    {
      t.rqNext == old(t.rqNext) && t.rqPrev == old(t.rqPrev) && t.rqQueued == old(t.rqQueued)
    }

    twostate lemma RqLinksEntered(new t: KThread)
      requires old(Table()) && t.id !in old(tab) && tab == old(tab)[t.id := t]
      requires t.rqNext == null && t.rqPrev == null && !t.rqQueued
      requires forall i :: i in old(tab) ==> SameRq(old(tab)[i])
      ensures RqLinks() == old(RqLinks())[t.id := UNLINKED]
    {
    }

    twostate lemma RqEntered(new t: KThread)
      requires old(RqValid()) && old(Table()) && t.id !in old(tab) && tab == old(tab)[t.id := t]
      requires t.rqNext == null && t.rqPrev == null && !t.rqQueued
      requires unchanged(this`rq, this`rqHead, this`rqTail, this`rqCount)
      requires forall i :: i in old(tab) ==> SameRq(old(tab)[i]) && old(tab)[i] != t
      ensures RqValid()
    {
      hide ListOf;
      MoreLinks(rq, Id(rqHead), Id(rqTail), old(RqLinks()), t.id);
      RqLinksEntered(t);
      hide ThreadTable.RqLinks;
    }

    twostate lemma RqLeft(t: KThread)
      requires old(RqValid()) && old(Table()) && old(Live(t)) && t.id !in rq && tab == old(tab) - {t.id}
      requires unchanged(this`rq, this`rqHead, this`rqTail, this`rqCount)
      requires forall i :: i in old(tab) ==> SameRq(old(tab)[i])
      ensures RqValid()
    {
      hide ListOf;
      FewerLinks(rq, Id(rqHead), Id(rqTail), old(RqLinks()), t.id);
      assert RqLinks() == old(RqLinks()) - {t.id};
      forall i | i in tab
        ensures Live(tab[i].rqNext) && Live(tab[i].rqPrev)
      {
        assert i in old(RqLinks());
      }
    }

    twostate predicate SameWl(t: KThread)
      reads t
    {
      t.wlNext == old(t.wlNext) && t.wlPrev == old(t.wlPrev) && t.wlQueued == old(t.wlQueued)
    }

    twostate lemma WlLinksEntered(new t: KThread)
      requires old(Table()) && t.id !in old(tab) && tab == old(tab)[t.id := t]
      requires t.wlNext == null && t.wlPrev == null && !t.wlQueued
      requires forall i :: i in old(tab) ==> SameWl(old(tab)[i])
      ensures WlLinks() == old(WlLinks())[t.id := UNLINKED]
    {
    }

    twostate lemma WlEntered(new t: KThread)
      requires old(WlValid()) && old(Table()) && t.id !in old(tab) && tab == old(tab)[t.id := t]
      requires t.wlNext == null && t.wlPrev == null && !t.wlQueued
      requires unchanged(this`wl, this`wlHead, this`wlTail)
      requires forall i :: i in old(tab) ==> SameWl(old(tab)[i]) && old(tab)[i] != t
      ensures WlValid()
    {
      hide ListOf;
      MoreLinks(wl, Id(wlHead), Id(wlTail), old(WlLinks()), t.id);
      WlLinksEntered(t);
      hide ThreadTable.WlLinks;
    }

    twostate lemma WlLeft(t: KThread)
      requires old(WlValid()) && old(Table()) && old(Live(t)) && t.id !in wl && tab == old(tab) - {t.id}
      requires unchanged(this`wl, this`wlHead, this`wlTail)
      requires forall i :: i in old(tab) ==> SameWl(old(tab)[i])
      ensures WlValid()
    {
      hide ListOf;
      FewerLinks(wl, Id(wlHead), Id(wlTail), old(WlLinks()), t.id);
      assert WlLinks() == old(WlLinks()) - {t.id};
      forall i | i in tab
        ensures Live(tab[i].wlNext) && Live(tab[i].wlPrev)
      {
        assert i in old(WlLinks());
      }
    }

    /** A fresh thread takes its place in the table, linked nowhere. */
    method Enter(t: KThread)
      requires Valid() && t.id !in tab && t.id < MAX_THREADS && t !in tab.Values
      requires t.rqNext == null && t.rqPrev == null && !t.rqQueued && t.wlNext == null && t.wlPrev == null && !t.wlQueued
      modifies threads, this`tab
      ensures Valid() && Live(t) && tab == old(tab)[t.id := t]
      ensures Threads() == old(Threads())[t.id := Thread(t.state, t.wakeTick, t.quantum)]
    {
      hide ThreadTable.RqValid, ThreadTable.WlValid;
      threads[t.id] := t;
      tab := tab[t.id := t];
      RqEntered(t);
      WlEntered(t);
    }

    /** A terminated thread leaves the table: `kfree`. */
    method Leave(t: KThread)
      requires Valid() && Live(t) && t.id !in rq && t.id !in wl
      modifies threads, this`tab
      ensures Valid() && tab == old(tab) - {t.id} && Threads() == old(Threads()) - {t.id}
    {
      hide ThreadTable.RqValid, ThreadTable.WlValid;
      threads[t.id] := null;
      tab := tab - {t.id};
      RqLeft(t);
      WlLeft(t);
    }

    /** `thread_reap_terminated`: frees every terminated thread but the current one. */
    method Reap()
      requires Valid() && Inv(Abs())
      modifies this, threads, tab.Values
      ensures Valid() && Abs() == SchedulerSteps.Reap(old(Abs())) && tab.Values <= old(tab.Values)
    {
      hide ThreadTable.Valid, ThreadTable.Threads, Without, Inv, ReapUpTo, SchedulerSteps.Reap;
      ghost var s := Abs();
      ReapSteps(s, 0);
      for i := 0 to MAX_THREADS
        invariant Valid() && Abs() == ReapUpTo(s, i) && tab.Values <= old(tab.Values)
      {
        var t := Find(i);
        ReapSteps(s, i);
        if t != null && t.state == Terminated && current != i {
          RqRemove(t);
          Leave(t);
        }
      }
      ReapAll(s);
    }

    /** The running thread queues up again: the middle of `schedule_core`. */
    method RequeueOld(was: KThread?)
      requires Valid() && Live(was) && Id(was) == if current >= 0 && current in tab then current else -1
      modifies this, tab.Values
      ensures Valid() && Abs() == Requeue(old(Abs())) && tab == old(tab)
    {
      hide ThreadTable.Valid, ThreadTable.Threads, Add;
      ThreadKeys();
      if was != null { ThreadOf(was); }
      if was != null && was.state == Running {
        Mark(was, Ready, was.wakeTick, was.quantum);
        RqEnqueue(was);
      }
    }

    /** The head of the queue runs: the end of `schedule_core`. */
    method DispatchHead() returns (switchTo: KThread?)
      requires Valid() && Inv(Abs())
      modifies this, tab.Values
      ensures Valid() && Abs() == Dispatch(old(Abs())) && tab == old(tab)
      ensures Live(switchTo) && Id(switchTo) == if current != old(current) then current else -1
    {
      hide ThreadTable.Valid, ThreadTable.Threads, Inv;
      QueueHead(Abs());
      var oldId := current;
      var head := RqDequeue();
      if head == null {
        current := -1;
        return null;
      }
      ThreadOf(head);
      var quantum := if oldId == head.id || head.quantum <= 0 then TIME_SLICE else head.quantum;
      Mark(head, Running, head.wakeTick, quantum);
      current, cpu := head.id, head.id;
      return if oldId == head.id then null else head;
    }

    lemma ThreadOf(t: KThread)
      requires Live(t)
      ensures t.id in Threads() && Threads()[t.id] == Thread(t.state, t.wakeTick, t.quantum)
    {
    }

    /** `schedule_core`: the thread to switch from and the one to switch to, if any. */
    method ScheduleCore() returns (was: KThread?, switchTo: KThread?)
      requires Valid() && Inv(Abs())
      modifies this, threads, tab.Values
      ensures Valid() && Abs() == Schedule(old(Abs())) && tab.Values <= old(tab.Values)
      ensures SchedulerLaws.Switches(old(Abs()), Abs())
      ensures Live(was) && Id(was) == if old(current) >= 0 && old(current) in tab then old(current) else -1
      ensures Live(switchTo) && Id(switchTo) == if current != old(current) then current else -1
    {
      hide ThreadTable.Valid, ThreadTable.Threads, Inv, SchedulerSteps.Reap, Requeue, Dispatch, SchedulerLaws.Switches;
      SchedulerLaws.Switch(Abs());
      ReapKeeps(Abs());
      RequeueKeeps(SchedulerSteps.Reap(Abs()));
      RequeueCurrent(Abs());
      RequeueCurrent(SchedulerSteps.Reap(Abs()));
      Reap();
      was := Find(current);
      ThreadKeys();
      RequeueOld(was);
      switchTo := DispatchHead();
    }

    /** The body of the wake loop. */
    method WakeThread(t: KThread, now: nat)
      requires Valid() && Live(t)
      modifies this, tab.Values
      ensures Valid() && Abs() == WakeOne(old(Abs()), t.id, now) && tab == old(tab)
    {
      hide ThreadTable.Valid, ThreadTable.Threads, Without, Add;
      ThreadOf(t);
      if t.state == Blocked && t.wakeTick > 0 && t.wakeTick <= now {
        Mark(t, Ready, 0, t.quantum);
        RqEnqueue(t);
        WlRemove(t);
      }
    }

    /** The wake pass of `timer_handler`. */
    method WakeExpired(now: nat)
      requires Valid() && Inv(Abs())
      modifies this, tab.Values
      ensures Valid() && Abs() == WakePass(old(Abs()), old(wl), now) && tab == old(tab)
    {
      hide ThreadTable.Valid, ThreadTable.Threads, Inv, Without, Add;
      ghost var s, todo, kept := Abs(), wl, [];
      WlWalk(0);
      var t := wlHead;
      while t != null
        invariant Valid() && Inv(Abs()) && tab == old(tab) && Live(t) && Id(t) == Nth(todo, 0)
        invariant wl == kept + todo && WakePass(Abs(), todo, now) == WakePass(s, s.wl, now)
        decreases |todo|
      {
        ghost var s1, rest := Abs(), todo[1..];
        WlWalk(|kept|);
        ListDistinct(s1, kept, todo);
        WakeOneKeeps(s1, t.id, now);
        var after := t.wlNext;
        WakeThread(t, now);
        if wl == s1.wl { kept := kept + [todo[0]]; }
        todo := rest;
        t := after;
      }
    }

    /** The head of the wake list and the links along it. */
    lemma WlWalk(k: nat)
      requires Valid()
      ensures Live(wlHead) && Id(wlHead) == Nth(wl, 0)
      ensures k < |wl| ==> wl[k] in tab && wl[k] in Threads() && tab[wl[k]].id == wl[k] && Live(tab[wl[k]].wlNext) && Id(tab[wl[k]].wlNext) == Nth(wl, k + 1)
      ensures k < |wl| ==> Threads()[wl[k]] == Thread(tab[wl[k]].state, tab[wl[k]].wakeTick, tab[wl[k]].quantum)
    {
      hide ThreadTable.RqValid;
      if k < |wl| { assert LinkedAt(wl, WlLinks(), k); }
    }

    /** `timer_handler` at tick `now`; `wakeLock` and `lock` say whether the two tries for the lock
        succeed. */
    method TimerHandler(now: Word, wakeLock: bool, lock: bool)
      requires Valid() && Inv(Abs())
      modifies this, threads, tab.Values
      ensures Valid() && Abs() == Step(old(Abs()), ETimer(now, wakeLock, lock)) && tab.Values <= old(tab.Values)
    {
      hide ThreadTable.Valid, ThreadTable.Threads, Inv, Schedule, WakePass;
      WlWalk(0);
      WakePassKeeps(Abs(), wl, now);
      if wlHead != null && wakeLock { WakeExpired(now); }
      ChargedKeeps(Abs());
      ChargeAndPreempt(lock);
    }

    /** The quantum of the running thread: the end of `timer_handler`. */
    method ChargeAndPreempt(lock: bool)
      requires Valid() && Inv(Abs()) && Inv(Charged(Abs()))
      modifies this, threads, tab.Values
      ensures Valid() && Abs() == Tick(old(Abs()), lock) && tab.Values <= old(tab.Values)
    {
      hide ThreadTable.Valid, ThreadTable.Threads, Inv, Schedule;
      var t := Find(current);
      if t != null && t.state == Running {
        Mark(t, Running, t.wakeTick, t.quantum - 1);
        if t.quantum <= 0 && lock {
          var was, switchTo := ScheduleCore();
        }
      }
    }
  }
}
