/** The timer queue as the linked list of the source (Common/XtGlue.c:442-531, 922-936), proved against the state
    machine of module Timers. */
module TimerQueue {
  import opened Timers

  /** timeout_t.  The number identifies the timer to its owner, like the address in the source. */
  class Node {
    const id: nat
    const due: Time
    var next: Node?
    var inPlay: bool

    constructor (id: nat, due: Time)
      ensures this.id == id && this.due == due && next == null && !inPlay
    {
      this.id, this.due, next, inPlay := id, due, null, false;
    }
  }

  function TimerOf(n: Node): Timer { Timer(n.id, n.due) }

  function TimersOf(q: seq<Node>): (r: Queue)
    ensures |r| == |q| && forall i :: 0 <= i < |q| ==> r[i] == TimerOf(q[i])
  {
    seq(|q|, i requires 0 <= i < |q| => TimerOf(q[i]))
  }

  // Where a new timer goes.
  function Place(q: Queue, due: Time): (i: nat)
    ensures i <= |q|
    ensures forall k :: 0 <= k < i ==> !Later(q[k].due, due)
    ensures i < |q| ==> Later(q[i].due, due)
  {
    if q == [] || Later(q[0].due, due) then 0 else Place(q[1..], due) + 1
  }

  lemma {:induction false} InsertedAt(q: Queue, t: Timer, i: nat)
    requires i <= |q| && (forall k :: 0 <= k < i ==> !Later(q[k].due, t.due))
    requires i < |q| ==> Later(q[i].due, t.due)
    ensures Inserted(q, t) == q[..i] + [t] + q[i..]
  {
    if i > 0 {
      InsertedAt(q[1..], t, i - 1);
      assert [q[0]] + (q[1..][..i - 1] + [t] + q[1..][i - 1..]) == q[..i] + [t] + q[i..];
    } else {
      assert q[..0] + [t] + q[0..] == [t] + q;
    }
  }

  lemma {:induction false} RemovedAt(q: Queue, i: nat)
    requires i < |q| && forall k :: 0 <= k < i ==> q[k].id != q[i].id
    ensures Removed(q, q[i].id) == q[..i] + q[i + 1..]
  {
    if i > 0 {
      RemovedAt(q[1..], i - 1);
      assert [q[0]] + (q[1..][..i - 1] + q[1..][i..]) == q[..i] + q[i + 1..];
    }
  }

  // The nodes of a queue are distinct, like their numbers.
  lemma DistinctNodes(q: seq<Node>)
    requires Distinct(TimersOf(q))
    ensures forall i, j :: 0 <= i < j < |q| ==> q[i] != q[j]
  {
    var t := TimersOf(q);
    forall i, j | 0 <= i < j < |q|
      ensures q[i] != q[j]
    {
      assert t[i].id != t[j].id;
    }
  }

  function NodeAt(q: seq<Node>, i: nat): Node? { if i < |q| then q[i] else null }

  // The list of nodes that starts at a node.
  ghost predicate Chain(head: Node?, q: seq<Node>)
    reads q
  {
    head == NodeAt(q, 0) && forall i {:trigger q[i].next} :: 0 <= i < |q| ==> q[i].next == NodeAt(q, i + 1)
  }

  lemma TimersOfParts(q: seq<Node>, i: nat, t: Node)
    requires i <= |q|
    ensures TimersOf(q[..i] + [t] + q[i..]) == TimersOf(q)[..i] + [TimerOf(t)] + TimersOf(q)[i..]
    ensures i < |q| ==> TimersOf(q[..i] + q[i + 1..]) == TimersOf(q)[..i] + TimersOf(q)[i + 1..]
  {
  }

  lemma AddedNode(st: State, q: seq<Node>, t: Node, r: Request, i: nat)
    requires Inv(st) && st.queue == TimersOf(q) && TimerOf(t) == Timer(|st.requests|, Due(r))
    requires i <= |q| && forall k :: 0 <= k < i ==> !Later(q[k].due, t.due)
    requires i < |q| ==> Later(q[i].due, t.due)
    ensures var st1 := Acted(st, Add(r));
            && Inv(st1) && st1.queue == TimersOf(q[..i] + [t] + q[i..])
            && |st1.requests| == |st.requests| + 1 && st1.fired == st.fired
  {
    hide Inv, Inserted, Later;
    AddKeeps(st, r);
    InsertedAt(st.queue, TimerOf(t), i);
    TimersOfParts(q, i, t);
  }

  lemma RemovedNode(st: State, q: seq<Node>, i: nat)
    requires Inv(st) && st.queue == TimersOf(q) && i < |q|
    ensures var st1 := Acted(st, Remove(q[i].id));
            && Inv(st1) && st1.queue == TimersOf(q[..i] + q[i + 1..])
            && st1.requests == st.requests && st1.fired == st.fired
  {
    hide Inv, Removed;
    InvParts(st);
    RemoveKeeps(st, q[i].id);
    assert st.queue[i] in st.queue;
    RemovedAt(st.queue, i);
    TimersOfParts(q, i, q[i]);
  }

  lemma UnknownTimer(st: State, id: nat)
    ensures id !in QueueIds(st.queue) ==> Acted(st, Remove(id)) == st
  {
  }

  class EventLoop {
    var timeouts: Node?
    // The timers handed out so far.
    var handles: seq<Node>
    var firings: nat
    ghost var Repr: set<Node>
    ghost var queue: seq<Node>
    ghost var st: State

    constructor ()
      ensures Valid() && st == START && handles == [] && Repr == {}
    {
      timeouts, handles, firings, Repr, queue, st := null, [], 0, {}, [], START;
      new;
      StartInv();
      assert TimersOf(queue) == [];
    }

    ghost predicate Valid()
      reads this, Repr
    {
      && (forall i :: 0 <= i < |queue| ==> queue[i] in Repr)
      && (forall i :: 0 <= i < |handles| ==> handles[i] in Repr)
      && (forall n :: n in Repr ==> n in handles)
      && (forall n :: n in queue ==> !n.inPlay)
      && Chain(timeouts, queue)
      && (forall i :: 0 <= i < |handles| ==> handles[i].id == i)
      && |handles| == |st.requests| && firings == |st.fired|
      && st.queue == TimersOf(queue)
      && Inv(st)
    }

    // Putting a timer into the list, between two others.
    method Link(t: Node, prev: Node?, cur: Node?, ghost q: seq<Node>, ghost i: nat)
      requires Chain(timeouts, q) && i <= |q| && t !in q
      requires forall j, k :: 0 <= j < k < |q| ==> q[j] != q[k]
      requires cur == NodeAt(q, i)
      requires prev == (if i > 0 then q[i - 1] else null)
      modifies this`timeouts, t`next, q`next
      ensures Chain(timeouts, q[..i] + [t] + q[i..])
    {
      if prev == null {
        t.next := timeouts;
        timeouts := t;
      } else if cur == null {
        t.next := null;
        prev.next := t;
      } else {
        t.next := cur;
        prev.next := t;
      }
    }

    // Taking a timer out of the list.
    method Unlink(prev: Node?, cur: Node, ghost q: seq<Node>, ghost i: nat)
      requires Chain(timeouts, q) && i < |q| && cur == q[i]
      requires forall j, k :: 0 <= j < k < |q| ==> q[j] != q[k]
      requires prev == (if i > 0 then q[i - 1] else null)
      modifies this`timeouts, q`next
      ensures Chain(timeouts, q[..i] + q[i + 1..])
    {
      if prev != null {
        prev.next := cur.next;
      } else {
        timeouts := cur.next;
      }
    }

    // The search for the first timer that is later, and the one before it.
    method Search(due: Time) returns (prev: Node?, cur: Node?, ghost i: nat)
      requires Valid()
      ensures i <= |queue| && cur == NodeAt(queue, i) && prev == (if i > 0 then queue[i - 1] else null)
      ensures forall k :: 0 <= k < i ==> !Later(queue[k].due, due)
      ensures i < |queue| ==> Later(queue[i].due, due)
    {
      hide Inv, Later;
      prev, cur, i := null, timeouts, 0;
      while cur != null && !Later(cur.due, due)
        invariant i <= |queue| && cur == NodeAt(queue, i) && prev == (if i > 0 then queue[i - 1] else null)
        invariant forall k :: 0 <= k < i ==> !Later(queue[k].due, due)
        decreases |queue| - i
      {
        prev, cur, i := cur, cur.next, i + 1;
      }
    }

    // AddTimeOut
    method AddTimeOut(clock: Time, ms: nat) returns (t: Node)
      requires Valid()
      modifies this, Repr
      ensures Valid() && fresh(t) && handles == old(handles) + [t] && Repr == old(Repr) + {t}
      ensures st == Acted(old(st), Add(Request(clock, ms)))
    {
      hide Inv, Acted, Deadline, Later, TimersOf, Chain, NodeAt, Sorted, Precedes;
      ghost var q := queue;
      ghost var i: nat;
      InvParts(st);
      DistinctNodes(q);
      var prev: Node?, cur: Node?;
      prev, cur, i := Search(Deadline(clock, ms));
      t := new Node(|handles|, Deadline(clock, ms));
      AddedNode(st, q, t, Request(clock, ms), i);
      Link(t, prev, cur, q, i);
      queue := q[..i] + [t] + q[i..];
      handles, Repr := handles + [t], Repr + {t};
      st := Acted(st, Add(Request(clock, ms)));
    }

    // The search for a timer, and the one before it.
    method Find(n: Node) returns (found: bool, prev: Node?, ghost i: nat)
      requires Valid()
      ensures found ==> i < |queue| && queue[i] == n && prev == (if i > 0 then queue[i - 1] else null)
      ensures !found ==> n !in queue
    {
      hide Inv;
      var cur := timeouts;
      prev, i := null, 0;
      while cur != null
        invariant i <= |queue| && cur == NodeAt(queue, i) && prev == (if i > 0 then queue[i - 1] else null)
        invariant n !in queue[..i]
        decreases |queue| - i
      {
        if cur == n {
          return true, prev, i;
        }
        prev, cur, i := cur, cur.next, i + 1;
      }
      found := false;
    }

    // RemoveTimeOut
    method RemoveTimeOut(n: Node)
      requires Valid() && n in Repr
      modifies this, Repr
      ensures Valid() && handles == old(handles) && Repr == old(Repr)
      ensures st == Acted(old(st), Remove(n.id))
    {
      hide Inv, Acted, TimersOf, QueueIds, Chain, NodeAt, Sorted, Precedes;
      ghost var q := queue;
      ghost var i: nat;
      InvParts(st);
      DistinctNodes(q);
      OneHandle(n);
      UnknownTimer(st, n.id);
      if n.inPlay {
        return;
      }
      var found: bool, prev: Node?;
      found, prev, i := Find(n);
      if found {
        RemovedNode(st, q, i);
        Unlink(prev, n, q, i);
        queue := q[..i] + q[i + 1..];
        st := Acted(st, Remove(n.id));
      }
    }

    // A handle waits in the queue if and only if its number does.
    lemma OneHandle(n: Node)
      requires Valid() && n in Repr
      ensures n in queue <==> n.id in QueueIds(st.queue)
    {
      hide Inv;
      if n.id in QueueIds(st.queue) {
        var x :| x in st.queue && x.id == n.id;
        var k :| 0 <= k < |st.queue| && st.queue[k] == x;
        assert queue[k] in handles;
      }
      if n in queue {
        var k :| 0 <= k < |queue| && queue[k] == n;
        assert st.queue[k] in st.queue;
      }
    }

    // A callback; it can remove only timers that were handed out.
    method Call(s: seq<Action>)
      requires Valid()
      modifies this, Repr
      ensures Valid() && fresh(Repr - old(Repr))
      ensures st == ActedAll(old(st), s)
    {
      hide Inv, Acted;
      ghost var spec := ActedAll(st, s);
      assert s[0..] == s;
      for i := 0 to |s|
        invariant Valid() && fresh(Repr - old(Repr))
        invariant spec == ActedAll(st, s[i..])
      {
        assert s[i..][0] == s[i] && s[i..][1..] == s[i + 1..];
        match s[i] {
          case Add(r) =>
            var t := AddTimeOut(r.clock, r.ms);
          case Remove(id) =>
            if id < |handles| {
              RemoveTimeOut(handles[id]);
            } else {
              UnknownHandle(id);
            }
        }
      }
    }

    lemma UnknownHandle(id: nat)
      requires Valid() && id >= |handles|
      ensures Acted(st, Remove(id)) == st
    {
      BelowNext(st);
    }

    // The expiry loop of process_some_events, with the clock read once before it.
    method Drain(now: Time, script: Script)
      requires Valid() && ScriptOk(script, now)
      modifies this, Repr
      ensures Valid() && fresh(Repr - old(Repr))
      ensures st == Drained(old(st), now, script)
    {
      hide Inv, ActedAll, ScriptOk, CountExpired, Expired, Sorted, Precedes, Distinct;
      ghost var spec := Drained(st, now, script);
      while timeouts != null
        invariant Valid() && fresh(Repr - old(Repr))
        invariant spec == Drained(st, now, script)
        decreases CountExpired(st.queue, now)
      {
        var t := timeouts;
        if !Expired(t.due, now) {
          break;
        }
        assert st.queue[0] == TimerOf(t);
        FiredCount(st, now, script);
        PopKeeps(st, now);
        InvParts(st);
        DistinctNodes(queue);
        timeouts := t.next;
        t.inPlay := true;
        queue := queue[1..];
        st := st.(queue := st.queue[1..], fired := st.fired + [Firing(st.queue[0], now)]);
        firings := firings + 1;
        assert st.queue == TimersOf(queue);
        Call(script(firings - 1));
      }
    }
  }
}
