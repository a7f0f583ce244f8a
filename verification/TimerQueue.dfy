/** timerprocess.c: the doubly linked delta list of timers. */
module TimerQueue {
  import opened Lists
  import opened TimerList
  import opened TimerExpiry

  class ListNode {
    var dtime: real
    var port: int
    var byteSeqNum: int
    var prev: ListNode?
    var next: ListNode?

    constructor (dtime: real, port: int, byteSeqNum: int)
      ensures View() == Timer(dtime, port, byteSeqNum) && prev == null && next == null
    {
      this.dtime, this.port, this.byteSeqNum, prev, next := dtime, port, byteSeqNum, null, null;
    }

    ghost function View(): Timer
      reads this
    {
      Timer(dtime, port, byteSeqNum)
    }
  }

  ghost function Nth(nodes: seq<ListNode>, k: int): ListNode? {
    if 0 <= k < |nodes| then nodes[k] else null
  }

  /** prev and next run through the nodes in order, and the nodes show the timers. */
  ghost predicate Linked(nodes: seq<ListNode>, l: seq<Timer>)
    reads nodes
  {
    Distinct(nodes) && Forward(nodes) && Backward(nodes) && Shows(nodes, l)
  }

  class Queue {
    var head: ListNode?
    var tail: ListNode?
    var current: ListNode?
    ghost var nodes: seq<ListNode>
    ghost var timers: seq<Timer>

    ghost predicate Valid()
      reads this, nodes
    {
      && Linked(nodes, timers)
      && head == Nth(nodes, 0)
      && tail == Nth(nodes, |nodes| - 1)
    }

    constructor ()
      ensures Valid() && timers == [] && nodes == []
    {
      head, tail, current := null, null, null;
      nodes, timers := [], [];
    }

    /** timerprocess.c:62-76: where the traversal stops. */
    method Stop(dtime: real) returns (elapse: real, ghost k: int)
      requires Valid() && head != null
      modifies this`current
      ensures Valid() && 0 <= k < |nodes| == |timers| && current == nodes[k]
      ensures (k, elapse) == Traverse(timers, dtime)
    {
      elapse, k, current := 0.0, 0, head;
      if dtime == current.dtime {
        elapse := dtime;
      } else if current.next != null {
        while elapse + current.dtime < dtime
          invariant 0 <= k < |nodes| && current == nodes[k]
          invariant Walk(timers, k, elapse, dtime) == Walk(timers, 0, 0.0, dtime)
          decreases |nodes| - k
        {
          elapse := elapse + current.dtime;
          if current.next == null {
            break;
          } else {
            current := current.next;
            k := k + 1;
          }
        }
      }
    }

    /** The times of one node change. */
    method SetTime(node: ListNode, ghost i: int, dtime: real)
      requires Linked(nodes, timers) && 0 <= i < |nodes| && node == nodes[i]
      modifies this`timers, node`dtime
      ensures Linked(nodes, timers)
      ensures |old(timers)| == |nodes| && timers == old(timers)[i := old(timers)[i].(dtime := dtime)]
    {
      node.dtime := dtime;
      assert forall k | 0 <= k < |nodes| && k != i :: nodes[k] != node && nodes[k].View() == old(nodes[k].View());
      timers := timers[i := timers[i].(dtime := dtime)];
    }

    /** The case distinction of timerprocess.c:80, 86-122: the new node's time and its
        neighbours. */
    method Choose(dtime: real, elapse: real, ghost k: int)
      returns (ghost at: int, time: real, before: ListNode?, after: ListNode?)
      requires Valid() && head != null && 0 <= k < |nodes| == |timers| && current == nodes[k]
      requires (k, elapse) == Traverse(timers, dtime)
      ensures (at, time) == Place(timers, dtime)
      ensures before == Nth(nodes, at - 1) && after == Nth(nodes, at)
    {
      EndsOf(k);
      FrontStop(timers, dtime);
      hide Linked, Traverse;
      time := dtime - elapse;
      if dtime <= head.dtime {
        at, before, after := 0, null, current;
      } else if current.next != null {
        at, before, after := k + 1, current, current.next;
      } else if elapse + current.dtime <= dtime {
        if elapse == 0.0 {
          time := dtime - current.dtime;
        }
        at, before, after := |nodes|, current, null;
      } else {
        at, before, after := k, current.prev, current;
      }
    }

    /** The new node is linked in between its neighbours. */
    method Put(node: ListNode, ghost at: int, before: ListNode?, after: ListNode?)
      requires Valid() && 0 <= at <= |nodes| && nodes != [] && node !in nodes
      requires before == Nth(nodes, at - 1) && after == Nth(nodes, at)
      modifies this`head, this`tail, this`nodes, this`timers, nodes, node`prev, node`next
      ensures Valid() && node.View() == old(node.View())
      ensures |old(timers)| == |old(nodes)|
      ensures nodes == With(old(nodes), at, node) && timers == With(old(timers), at, node.View())
    {
      hide Linked, With;
      EndsOf(0);
      LinkIn(nodes, timers, at, before, after, node);
      if before == null {
        head := node;
      }
      if after == null {
        tail := node;
      }
      WithEnds(nodes, at, node);
      WithIndex(nodes, at, node);
      nodes, timers := With(nodes, at, node), With(timers, at, node.View());
    }

    lemma EndsOf(k: int)
      requires Valid() && 0 <= k < |nodes|
      ensures |nodes| == |timers|
      ensures head == nodes[0] && head.View() == timers[0] && tail == nodes[|nodes| - 1]
      ensures nodes[k].View() == timers[k]
      ensures nodes[k].next == Nth(nodes, k + 1) && nodes[k].prev == Nth(nodes, k - 1)
    {
    }

    twostate lemma Unlinked(new node: ListNode)
      requires old(Valid()) && fresh(node) && nodes == old(nodes)
      ensures node !in nodes
    {
    }

    /** timerprocess.c:46-131. */
    method InsertValue(dtime: real, port: int, byteSeqNum: int)
      requires Valid()
      modifies this, nodes
      ensures Valid() && timers == Insert(old(timers), dtime, port, byteSeqNum)
      ensures forall k | 0 <= k < |nodes| :: nodes[k] in old(nodes) || fresh(nodes[k])
    {
      current := head;
      if current == null {
        var node := new ListNode(dtime, port, byteSeqNum);
        head, tail, current := node, node, node;
        nodes, timers := [node], [node.View()];
      } else {
        InsertBeyondEmpty(dtime, port, byteSeqNum);
      }
    }

    method InsertBeyondEmpty(dtime: real, port: int, byteSeqNum: int)
      requires Valid() && head != null
      modifies this, nodes
      ensures Valid() && |old(timers)| > 0 && timers == Insert(old(timers), dtime, port, byteSeqNum)
      ensures forall k | 0 <= k < |nodes| :: nodes[k] in old(nodes) || fresh(nodes[k])
    {
      EndsOf(0);
      hide Linked, Place, With, InsertAt;
      var node, at := PutNew(dtime, port, byteSeqNum);
      WithIndex(old(nodes), at, node);
      current := node;
      Settle(old(nodes), old(timers), at);
    }

    /** timerprocess.c:62-122: the new node is made and linked in. */
    method PutNew(dtime: real, port: int, byteSeqNum: int) returns (node: ListNode, ghost at: int)
      requires Valid() && head != null
      modifies this, nodes
      ensures Valid() && fresh(node)
      ensures |old(timers)| == |old(nodes)| && |old(timers)| > 0
      ensures at == Place(old(timers), dtime).0
      ensures node.View() == Timer(Place(old(timers), dtime).1, port, byteSeqNum)
      ensures nodes == With(old(nodes), at, node) && timers == With(old(timers), at, node.View())
    {
      hide Linked, Traverse, Place, With;
      EndsOf(0);
      var elapse, k := Stop(dtime);
      var time, before, after;
      at, time, before, after := Choose(dtime, elapse, k);
      node := new ListNode(time, port, byteSeqNum);
      Unlinked(node);
      Put(node, at, before, after);
    }

    /** timerprocess.c:124-128: the successor's time is reduced. */
    method Settle(ghost was: seq<ListNode>, ghost before: seq<Timer>, ghost at: int)
      requires Valid() && current != null && 0 <= at <= |was| == |before|
      requires nodes == With(was, at, current) && timers == With(before, at, current.View())
      modifies this`timers, nodes
      ensures Valid() && nodes == old(nodes)
      ensures timers == InsertAt(before, at, old(current.View()))
    {
      ghost var t := current.View();
      WithIndex(was, at, current);
      WithIndex(before, at, t);
      WithReduced(before, at, t);
      EndsOf(at);
      hide Linked, With, InsertAt;
      if current.next != null {
        EndsOf(at + 1);
        SetTime(current.next, at + 1, current.next.dtime - current.dtime);
      }
    }

    /** The relinking of timerprocess.c:151-172. */
    method Unlink(node: ListNode, ghost i: int)
      requires Valid() && 0 <= i < |nodes| && node == nodes[i]
      modifies this`head, this`tail, this`nodes, this`timers, nodes
      ensures Valid() && |old(timers)| == |old(nodes)|
      ensures nodes == Without(old(nodes), i) && timers == Without(old(timers), i)
      ensures node.View() == old(node.View()) && node.next == old(node.next) && node.prev == old(node.prev)
    {
      hide Linked;
      EndsOf(i);
      WithoutEnds(nodes, i);
      var before, after := node.prev, node.next;
      LinkOut(nodes, timers, i, before, after, node);
      if before == null {
        head := after;
      }
      if after == null {
        tail := before;
      }
      nodes, timers := Without(nodes, i), Without(timers, i);
    }

    /** timerprocess.c:134-183. */
    method RemoveValue(byteSeqNum: int) returns (result: int)
      requires Valid()
      modifies this, nodes
      ensures Valid() && (timers, result) == Remove(old(timers), byteSeqNum)
      ensures forall k | 0 <= k < |nodes| :: nodes[k] in old(nodes)
    {
      hide Linked, RemoveAt, Without;
      current := head;
      NotEmpty();
      if current == null {
        return 0;
      }
      ghost var i := 0;
      EndsOf(0);
      while current.byteSeqNum != byteSeqNum
        invariant Valid() && nodes == old(nodes) && timers == old(timers)
        invariant 0 <= i < |nodes| == |timers| && current == nodes[i]
        invariant TimerExpiry.Find(timers, byteSeqNum, i) == TimerExpiry.Find(timers, byteSeqNum, 0)
        decreases |nodes| - i
      {
        EndsOf(i);
        if current.next == null {
          return -1;
        } else {
          current := current.next;
          i := i + 1;
        }
      }
      EndsOf(i);
      WithoutIndex(nodes, i);
      RemoveNode(i);
      return 0;
    }

    /** timerprocess.c:151-182, for the node found. */
    method RemoveNode(ghost i: int)
      requires Valid() && current != null && 0 <= i < |nodes| && current == nodes[i]
      modifies this, nodes
      ensures Valid() && i < |old(timers)| && timers == RemoveAt(old(timers), i)
      ensures nodes == Without(old(nodes), i)
    {
      hide Linked, Without, RemoveAt, Trunc;
      EndsOf(i);
      WithoutIndex(nodes, i);
      WithoutIndex(timers, i);
      WithoutRaised(timers, i);
      var node := current;
      Unlink(node, i);
      if node.next == null {
        current := tail;
      } else {
        var dtime := Trunc(node.dtime);
        current := node.next;
        Raise(i, dtime);
      }
    }

    /** timerprocess.c:180-181: the successor waits longer by whole seconds. */
    method Raise(ghost i: int, dtime: int)
      requires Valid() && current != null && 0 <= i < |nodes| && current == nodes[i]
      modifies this`timers, nodes
      ensures Valid() && |old(timers)| == |nodes|
      ensures timers == old(timers)[i := old(timers)[i].(dtime := old(timers)[i].dtime + dtime as real)]
    {
      hide Linked;
      EndsOf(i);
      SetTime(current, i, current.dtime + dtime as real);
    }

    /** timerprocess.c:217-255, for the time elapsed since the last call; the numbers
        whose expiration is sent are returned. */
    method Decrement(elapsed: real) returns (fired: seq<int>)
      requires Valid()
      modifies this, nodes
      ensures Valid() && (fired, timers) == TimerExpiry.Decrement(old(timers), elapsed)
      ensures forall k | 0 <= k < |nodes| :: nodes[k] in old(nodes)
    {
      fired := [];
      if head != null {
        EndsOf(0);
        hide Linked;
        SetTime(head, 0, head.dtime - elapsed);
        EndsOf(0);
        assert timers == Later(old(timers), elapsed);
        if head.dtime == 0.0 {
          FoundFirst(timers);
          fired := [head.byteSeqNum];
          var result := RemoveValue(head.byteSeqNum);
        } else if head.dtime < 0.0 {
          fired := FireOverdue();
        }
      }
    }

    /** The loop at timerprocess.c:238-249. */
    method FireOverdue() returns (fired: seq<int>)
      requires Valid() && head != null
      modifies this, nodes
      ensures Valid() && |old(timers)| > 0 && (fired, timers) == RunOut(old(timers))
      ensures forall k | 0 <= k < |nodes| :: nodes[k] in old(nodes)
    {
      hide Linked, RunOut, Overdue;
      EndsOf(0);
      fired := [];
      ghost var whole := RunOut(timers);
      RanStart(timers);
      while head.dtime <= 0.0
        invariant Valid() && head != null && |timers| > 0
        invariant forall k | 0 <= k < |nodes| :: nodes[k] in old(nodes)
        invariant Ran(whole, fired, timers)
        decreases |timers|
      {
        EndsOf(0);
        RanStep(whole, fired, timers);
        fired := fired + [head.byteSeqNum];
        if head.next == null {
          FoundFirst(timers);
          var result := RemoveValue(head.byteSeqNum);
          return;
        } else {
          PassOn();
        }
      }
      EndsOf(0);
      RanEnd(whole, fired, timers);
    }

    /** timerprocess.c:245-248. */
    method PassOn()
      requires Valid() && head != null && head.next != null
      modifies this, nodes
      ensures Valid() && head != null && |old(timers)| > 1 && timers == Overdue(old(timers))
      ensures forall k | 0 <= k < |nodes| :: nodes[k] in old(nodes)
    {
      hide Linked, RemoveAt;
      EndsOf(0);
      EndsOf(1);
      OverdueShifts(timers, 0);
      SetTime(head.next, 1, head.next.dtime + head.dtime);
      EndsOf(0);
      FoundFirst(timers);
      var result := RemoveValue(head.byteSeqNum);
      NotEmpty();
    }

    lemma NotEmpty()
      requires Valid()
      ensures |timers| > 0 <==> head != null
      ensures |timers| == |nodes|
    {
    }
  }

  /** A loop that has fired `fired` and has l left runs out as `whole`. */
  ghost predicate Ran(whole: (seq<int>, seq<Timer>), fired: seq<int>, l: seq<Timer>)
    requires |l| > 0
  {
    whole == (fired + RunOut(l).0, RunOut(l).1)
  }

  lemma RanStart(l: seq<Timer>)
    requires |l| > 0
    ensures Ran(RunOut(l), [], l)
  {
    assert [] + RunOut(l).0 == RunOut(l).0;
  }

  lemma RanStep(whole: (seq<int>, seq<Timer>), fired: seq<int>, l: seq<Timer>)
    requires |l| > 0 && Ran(whole, fired, l) && l[0].dtime <= 0.0
    ensures |l| == 1 ==> whole == (fired + [l[0].bsn], []) && RemoveAt(l, 0) == []
    ensures |l| > 1 ==> |Overdue(l)| == |l| - 1 && Ran(whole, fired + [l[0].bsn], Overdue(l))
  {
    if |l| > 1 {
      assert fired + ([l[0].bsn] + RunOut(Overdue(l)).0) == fired + [l[0].bsn] + RunOut(Overdue(l)).0;
    }
  }

  lemma RanEnd(whole: (seq<int>, seq<Timer>), fired: seq<int>, l: seq<Timer>)
    requires |l| > 0 && Ran(whole, fired, l) && l[0].dtime > 0.0
    ensures whole == (fired, l)
  {
    assert fired + [] == fired;
  }

  lemma FoundFirst(l: seq<Timer>)
    requires |l| > 0
    ensures TimerExpiry.Find(l, l[0].bsn, 0) == 0
  {
  }

  lemma WithoutIndex<T>(s: seq<T>, i: int)
    requires 0 <= i < |s|
    ensures |Without(s, i)| == |s| - 1
    ensures forall k | 0 <= k < |s| - 1 :: Without(s, i)[k] in s
    ensures i + 1 < |s| ==> Without(s, i)[i] == s[i + 1]
  {
  }

  lemma WithoutRaised(l: seq<Timer>, i: int)
    requires 0 <= i < |l|
    ensures var m := Without(l, i);
      RemoveAt(l, i) == if i + 1 == |l| then m else m[i := m[i].(dtime := m[i].dtime + Trunc(l[i].dtime) as real)]
  {
  }

  lemma WithoutEnds(s: seq<ListNode>, i: int)
    requires 0 <= i < |s|
    ensures Nth(Without(s, i), 0) == if i == 0 then Nth(s, 1) else Nth(s, 0)
    ensures Nth(Without(s, i), |s| - 2) == if i + 1 == |s| then Nth(s, |s| - 2) else Nth(s, |s| - 1)
  {
  }

  lemma WithoutForward(was: seq<ListNode>, i: int)
    requires 0 <= i < |was|
    requires forall k {:trigger was[k].next} | 0 <= k < |was| && k != i :: was[k].next == Nth(was, if k + 1 == i then i + 1 else k + 1)
    ensures Forward(Without(was, i))
  {
  }

  lemma WithoutBackward(was: seq<ListNode>, i: int)
    requires 0 <= i < |was|
    requires forall k {:trigger was[k].prev} | 0 <= k < |was| && k != i :: was[k].prev == Nth(was, if k == i + 1 then i - 1 else k - 1)
    ensures Backward(Without(was, i))
  {
  }

  lemma WithoutShows(was: seq<ListNode>, l: seq<Timer>, i: int)
    requires Shows(was, l) && Distinct(was) && 0 <= i < |was|
    ensures Shows(Without(was, i), Without(l, i)) && Distinct(Without(was, i))
  {
  }

  method LinkOut(ghost nodes: seq<ListNode>, ghost l: seq<Timer>, ghost i: int, before: ListNode?, after: ListNode?, node: ListNode)
    requires Linked(nodes, l) && 0 <= i < |nodes| && node == nodes[i]
    requires before == Nth(nodes, i - 1) && after == Nth(nodes, i + 1)
    modifies nodes
    ensures |nodes| == |l| && Linked(Without(nodes, i), Without(l, i))
    ensures node.View() == old(node.View()) && node.next == old(node.next) && node.prev == old(node.prev)
  {
    if before != null {
      before.next := after;
    }
    if after != null {
      after.prev := before;
    }
    WithoutForward(nodes, i);
    WithoutBackward(nodes, i);
    assert forall k | 0 <= k < |nodes| :: nodes[k].View() == old(nodes[k].View());
    WithoutShows(nodes, l, i);
  }

  /** Nothing is passed over in front of the head. */
  lemma FrontStop(l: seq<Timer>, dtime: real)
    requires |l| > 0
    ensures dtime <= l[0].dtime ==> Traverse(l, dtime).0 == 0
  {
  }

  lemma WithEnds<T>(s: seq<T>, at: int, x: T)
    requires 0 <= at <= |s| && s != []
    ensures With(s, at, x)[0] == if at == 0 then x else s[0]
    ensures With(s, at, x)[|s|] == if at == |s| then x else s[|s| - 1]
  {
  }

  lemma WithIndex<T>(s: seq<T>, at: int, x: T)
    requires 0 <= at <= |s|
    ensures |With(s, at, x)| == |s| + 1 && With(s, at, x)[at] == x
    ensures forall k | 0 <= k < |s| + 1 && k != at :: With(s, at, x)[k] in s
  {
  }

  lemma WithReduced(l: seq<Timer>, at: int, t: Timer)
    requires 0 <= at <= |l|
    ensures var m := With(l, at, t);
      InsertAt(l, at, t) == if at == |l| then m else m[at + 1 := m[at + 1].(dtime := m[at + 1].dtime - t.dtime)]
  {
  }

  ghost predicate Distinct(nodes: seq<ListNode>) {
    forall i, j | 0 <= i < j < |nodes| :: nodes[i] != nodes[j]
  }

  ghost predicate Forward(nodes: seq<ListNode>)
    reads nodes
  {
    forall i {:trigger nodes[i].next} | 0 <= i < |nodes| :: nodes[i].next == Nth(nodes, i + 1)
  }

  ghost predicate Backward(nodes: seq<ListNode>)
    reads nodes
  {
    forall i {:trigger nodes[i].prev} | 0 <= i < |nodes| :: nodes[i].prev == Nth(nodes, i - 1)
  }

  ghost predicate Shows(nodes: seq<ListNode>, l: seq<Timer>)
    reads nodes
  {
    |nodes| == |l| && forall i | 0 <= i < |nodes| :: nodes[i].View() == l[i]
  }

  lemma WithForward(was: seq<ListNode>, at: int, node: ListNode)
    requires 0 <= at <= |was| && node.next == Nth(was, at)
    requires forall k {:trigger was[k].next} | 0 <= k < |was| :: was[k].next == if k + 1 == at then node else Nth(was, k + 1)
    ensures Forward(With(was, at, node))
  {
  }

  lemma WithBackward(was: seq<ListNode>, at: int, node: ListNode)
    requires 0 <= at <= |was| && node.prev == Nth(was, at - 1)
    requires forall k {:trigger was[k].prev} | 0 <= k < |was| :: was[k].prev == if k == at then node else Nth(was, k - 1)
    ensures Backward(With(was, at, node))
  {
  }

  lemma WithShows(was: seq<ListNode>, l: seq<Timer>, at: int, node: ListNode)
    requires Shows(was, l) && Distinct(was) && node !in was && 0 <= at <= |was|
    ensures Shows(With(was, at, node), With(l, at, node.View())) && Distinct(With(was, at, node))
  {
  }

  /** The list with a node put in at `at`: the relinking of timerprocess.c:88-90,
      95-98, 109-111 and 117-120. */
  method LinkIn(ghost nodes: seq<ListNode>, ghost l: seq<Timer>, ghost at: int, before: ListNode?, after: ListNode?, node: ListNode)
    requires Linked(nodes, l) && 0 <= at <= |nodes|
    requires before == Nth(nodes, at - 1) && after == Nth(nodes, at)
    requires node !in nodes
    modifies node`prev, node`next, nodes
    ensures Linked(With(nodes, at, node), With(l, at, node.View()))
    ensures node.View() == old(node.View())
  {
    node.prev := before;
    node.next := after;
    if after != null {
      after.prev := node;
    }
    if before != null {
      before.next := node;
    }
    WithForward(nodes, at, node);
    WithBackward(nodes, at, node);
    assert forall k | 0 <= k < |nodes| :: nodes[k].View() == old(nodes[k].View());
    WithShows(nodes, l, at, node);
  }
}
