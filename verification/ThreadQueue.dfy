/** Doubly linked lists of threads, by thread id (-1 for a null pointer): what appending and
    unlinking do to the links. */
module ThreadQueue {
  import opened SchedulerSteps

  datatype Link = Link(prev: int, next: int, queued: bool)

  const UNLINKED := Link(-1, -1, false)

  function Nth(q: seq<nat>, i: int): int {
    if 0 <= i < |q| then q[i] else -1
  }

  ghost predicate LinkedAt(q: seq<nat>, links: map<nat, Link>, i: nat) {
    i < |q| && q[i] in links && links[q[i]] == Link(Nth(q, i - 1), Nth(q, i + 1), true)
  }

  /** Head, tail and links are those of the list `q`; threads that are not on it have no links. */
  ghost predicate ListOf(q: seq<nat>, head: int, tail: int, links: map<nat, Link>) {
    && Distinct(q) && head == Nth(q, 0) && tail == Nth(q, |q| - 1)
    && (forall i :: 0 <= i < |q| ==> LinkedAt(q, links, i))
    && (forall t :: t in links && t !in q ==> links[t] == UNLINKED)
  }

  function SetNext(links: map<nat, Link>, t: int, next: int): map<nat, Link> {
    if t >= 0 && t in links then links[t := links[t].(next := next)] else links
  }

  function SetPrev(links: map<nat, Link>, t: int, prev: int): map<nat, Link> {
    if t >= 0 && t in links then links[t := links[t].(prev := prev)] else links
  }

  lemma AppendedLink(q: seq<nat>, head: int, tail: int, links: map<nat, Link>, t: nat, i: nat)
    requires ListOf(q, head, tail, links) && t in links && t !in q && i <= |q|
    ensures var q', links' := q + [t], SetNext(links[t := Link(tail, -1, true)], tail, t);
            LinkedAt(q', links', i)
  {
    assert |q| > 0 ==> LinkedAt(q, links, |q| - 1);
    if i < |q| {
      assert LinkedAt(q, links, i);
      if i < |q| - 1 { assert q[i] != q[|q| - 1]; }
    }
  }

  lemma Appended(q: seq<nat>, head: int, tail: int, links: map<nat, Link>, t: nat)
    requires ListOf(q, head, tail, links) && t in links && t !in q
    ensures ListOf(q + [t], if tail >= 0 then head else t, t, SetNext(links[t := Link(tail, -1, true)], tail, t))
  {
    var q', links' := q + [t], SetNext(links[t := Link(tail, -1, true)], tail, t);
    assert tail >= 0 ==> tail in q;
    forall u | u in links' && u !in q'
      ensures links'[u] == UNLINKED
    {
    }
    forall i | 0 <= i < |q'|
      ensures LinkedAt(q', links', i)
    {
      AppendedLink(q, head, tail, links, t, i);
    }
    hide SetNext;
  }

  lemma {:induction false} WithoutAt(q: seq<nat>, k: nat)
    requires Distinct(q) && k < |q|
    ensures Without(q, q[k]) == q[..k] + q[k + 1..]
  {
    if k > 0 { WithoutAt(q[1..], k - 1); }
  }

  /** Unlinking in the middle or at an end, as `rq_remove` and `wake_list_remove` do it. */
  function Unlinked(links: map<nat, Link>, t: nat): map<nat, Link>
    requires t in links
  {
    SetPrev(SetNext(links, links[t].prev, links[t].next), links[t].next, links[t].prev)[t := UNLINKED]
  }

  lemma RemovedLink(q: seq<nat>, head: int, tail: int, links: map<nat, Link>, k: nat, i: nat)
    requires ListOf(q, head, tail, links) && k < |q| && i < |q| && i != k && q[k] in links
    ensures var links' := Unlinked(links, q[k]);
      q[i] in links' && links'[q[i]] ==
        Link(if i == k + 1 then Nth(q, k - 1) else Nth(q, i - 1), if i == k - 1 then Nth(q, k + 1) else Nth(q, i + 1), true)
  {
    assert LinkedAt(q, links, k) && LinkedAt(q, links, i);
    assert q[i] != q[k];
    if k > 0 && i != k - 1 { assert q[i] != q[k - 1]; }
    if k + 1 < |q| && i != k + 1 { assert q[i] != q[k + 1]; }
  }

  lemma OthersStay(q: seq<nat>, head: int, tail: int, links: map<nat, Link>, k: nat, u: nat)
    requires ListOf(q, head, tail, links) && k < |q| && u in links && (u !in q || u == q[k]) && q[k] in links
    ensures u in Unlinked(links, q[k]) && Unlinked(links, q[k])[u] == UNLINKED
  {
    assert LinkedAt(q, links, k);
    if k > 0 { assert q[k - 1] in q; }
    if k + 1 < |q| { assert q[k + 1] in q; }
  }

  lemma NthWithout(q: seq<nat>, k: nat, i: int)
    requires k < |q| && -1 <= i < |q|
    ensures Nth(q[..k] + q[k + 1..], i) == Nth(q, if i < k then i else i + 1)
  {
  }

  lemma RemovedAt(q: seq<nat>, head: int, tail: int, links: map<nat, Link>, k: nat, q': seq<nat>, i: nat)
    requires ListOf(q, head, tail, links) && k < |q| && q[k] in links && q' == q[..k] + q[k + 1..] && i < |q'|
    ensures LinkedAt(q', Unlinked(links, q[k]), i)
  {
    hide Unlinked, ListOf, Nth;
    NthWithout(q, k, i - 1);
    NthWithout(q, k, i);
    NthWithout(q, k, i + 1);
    RemovedLink(q, head, tail, links, k, if i < k then i else i + 1);
    assert q'[i] == q[if i < k then i else i + 1];
  }

  lemma EndsAfter(q: seq<nat>, head: int, tail: int, links: map<nat, Link>, k: nat, q': seq<nat>)
    requires ListOf(q, head, tail, links) && k < |q| && q[k] in links && q' == q[..k] + q[k + 1..]
    ensures Nth(q', 0) == if links[q[k]].prev >= 0 then head else links[q[k]].next
    ensures Nth(q', |q'| - 1) == if links[q[k]].next >= 0 then tail else links[q[k]].prev
  {
    assert LinkedAt(q, links, k);
  }

  lemma Removed(q: seq<nat>, head: int, tail: int, links: map<nat, Link>, t: nat)
    requires ListOf(q, head, tail, links) && t in links && t in q
    ensures ListOf(Without(q, t), if links[t].prev >= 0 then head else links[t].next,
                   if links[t].next >= 0 then tail else links[t].prev, Unlinked(links, t))
  {
    hide Unlinked, Without, Nth, LinkedAt;
    var k :| 0 <= k < |q| && q[k] == t;
    WithoutAt(q, k);
    WithoutMembers(q, t);
    var q', links' := q[..k] + q[k + 1..], Unlinked(links, t);
    EndsAfter(q, head, tail, links, k, q');
    UnlinkedKeys(links, t);
    forall u | u in links' && u !in q'
      ensures links'[u] == UNLINKED
    {
      OthersStay(q, head, tail, links, k, u);
    }
    forall i | 0 <= i < |q'|
      ensures LinkedAt(q', links', i)
    {
      RemovedAt(q, head, tail, links, k, q', i);
    }
  }

  lemma UnlinkedKeys(links: map<nat, Link>, t: nat)
    requires t in links
    ensures Unlinked(links, t).Keys == links.Keys
  {
  }

  lemma QueuedIffMember(q: seq<nat>, head: int, tail: int, links: map<nat, Link>, t: nat)
    requires ListOf(q, head, tail, links) && t in links
    ensures links[t].queued <==> t in q
  {
    if t in q {
      var i :| 0 <= i < |q| && q[i] == t;
      assert LinkedAt(q, links, i);
    }
  }

  lemma HeadIs(q: seq<nat>, head: int, tail: int, links: map<nat, Link>)
    requires ListOf(q, head, tail, links)
    ensures head == Nth(q, 0) && (head >= 0 <==> q != [])
    ensures q != [] ==> head in links && links[head].prev == -1 && Without(q, head) == q[1..]
  {
    if q != [] { assert LinkedAt(q, links, 0); }
  }

  lemma {:induction false} WithoutLess(q: seq<nat>, t: nat)
    requires t in q
    ensures |Without(q, t)| == |q| - 1
  {
    if q[0] != t { WithoutLess(q[1..], t); }
  }

  lemma NullLinks(links: map<nat, Link>, p: int)
    ensures SetNext(links, -1, p) == links && SetPrev(links, -1, p) == links
  {
  }

  /** A thread that is linked nowhere may come and go. */
  lemma MoreLinks(q: seq<nat>, head: int, tail: int, links: map<nat, Link>, t: nat)
    requires ListOf(q, head, tail, links) && t !in links
    ensures ListOf(q, head, tail, links[t := UNLINKED])
  {
    var more := links[t := UNLINKED];
    forall i | 0 <= i < |q|
      ensures LinkedAt(q, more, i)
    {
      assert LinkedAt(q, links, i);
    }
  }

  lemma FewerLinks(q: seq<nat>, head: int, tail: int, links: map<nat, Link>, t: nat)
    requires ListOf(q, head, tail, links) && t !in q
    ensures ListOf(q, head, tail, links - {t})
    ensures forall u :: u in links ==> links[u].prev != t && links[u].next != t && head != t && tail != t
  {
    var fewer := links - {t};
    forall i | 0 <= i < |q|
      ensures LinkedAt(q, fewer, i)
    {
      assert LinkedAt(q, links, i);
    }
    forall u | u in links
      ensures links[u].prev != t && links[u].next != t
    {
      if u in q {
        var i :| 0 <= i < |q| && q[i] == u;
        assert LinkedAt(q, links, i);
      }
    }
  }
}
