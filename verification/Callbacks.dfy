/**
 Callback lists for state changes (Common/event.c:36-129) on the circular doubly linked lists of the source
 (Common/llist.c:39-65, include/utils.h:92-104).
 */
module Callbacks {
  import opened Bytes

  const ORDER_DONTCARE := 65534
  const ORDER_LAST := 65535

  // --- Circular lists -----------------------------------------------------------------------------

  /** llist_t, together with the callback that contains it. */
  class Link {
    const func: nat
    const order: nat
    var next: Link
    var prev: Link

    // llist_init
    constructor (func: nat, order: nat)
      ensures this.func == func && this.order == order && next == this && prev == this
    {
      this.func, this.order, next, prev := func, order, this, this;
    }
  }

  function Succ(i: nat, n: nat): nat { if i + 1 == n then 0 else i + 1 }

  function Pred(i: nat, n: nat): nat
    requires i < n
  {
    if i == 0 then n - 1 else i - 1
  }

  predicate AllDistinct(c: seq<Link>) { forall i, j :: 0 <= i < j < |c| ==> c[i] != c[j] }

  /** A well-formed circle: following either link from any element leads to its neighbour. */
  ghost predicate Ring(c: seq<Link>)
    reads c
  {
    && c != [] && AllDistinct(c)
    && (forall i {:trigger c[i].next} :: 0 <= i < |c| ==> c[i].next == c[Succ(i, |c|)])
    && (forall i {:trigger c[i].prev} :: 0 <= i < |c| ==> c[i].prev == c[Pred(i, |c|)])
  }

  // The neighbours of an element.
  lemma RingStep(c: seq<Link>, i: nat)
    requires Ring(c) && i < |c|
    ensures c[i].next == c[Succ(i, |c|)] && c[i].prev == c[Pred(i, |c|)]
  {
  }

  // llist_isempty
  method IsEmpty(l: Link, ghost c: seq<Link>) returns (r: bool)
    requires Ring(c) && c[0] == l
    ensures r <==> |c| == 1
  {
    RingStep(c, 0);
    r := l.next == l && l.prev == l;
  }

  // The circle with an element added at a position.
  function Added(c: seq<Link>, k: nat, l: Link): (d: seq<Link>)
    requires k <= |c|
    ensures |d| == |c| + 1
    ensures forall i :: 0 <= i < |d| ==> d[i] == if i < k then c[i] else if i == k then l else c[i - 1]
  {
    c[..k] + [l] + c[k..]
  }

  // The circle without the element at a position.
  function Without(c: seq<Link>, k: nat): (d: seq<Link>)
    requires k < |c|
    ensures |d| == |c| - 1
    ensures forall i :: 0 <= i < |d| ==> d[i] == if i < k then c[i] else c[i + 1]
  {
    c[..k] + c[k + 1..]
  }

  lemma AddedDistinct(c: seq<Link>, k: nat, l: Link)
    requires k <= |c| && AllDistinct(c) && l !in c
    ensures AllDistinct(Added(c, k, l))
  {
  }

  lemma WithoutDistinct(c: seq<Link>, k: nat)
    requires k < |c| && AllDistinct(c)
    ensures AllDistinct(Without(c, k))
  {
  }

  /** llist_insert_before: a lone element goes in front of position `k`, or to the end of the circle. */
  method InsertBefore(element: Link, before: Link, ghost c: seq<Link>, ghost k: nat)
    requires Ring(c) && element !in c && 0 < k <= |c| && before == c[if k == |c| then 0 else k]
    modifies element, before, before.prev
    ensures Ring(Added(c, k, element))
  {
    ghost var d := Added(c, k, element);
    AddedDistinct(c, k, element);
    RingStep(c, if k == |c| then 0 else k);
    assert before.prev == c[k - 1];
    element.next := before;
    element.prev := before.prev;
    before.prev.next := element;
    before.prev := element;
    forall i | 0 <= i < |d|
      ensures d[i].next == d[Succ(i, |d|)]
    {
    }
    forall i | 0 <= i < |d|
      ensures d[i].prev == d[Pred(i, |d|)]
    {
    }
  }

  /** llist_unlink: the circle without the element at position `k`. */
  method Unlink(element: Link, ghost c: seq<Link>, ghost k: nat)
    requires Ring(c) && 0 < k < |c| && element == c[k]
    modifies element.next, element.prev
    ensures Ring(Without(c, k))
  {
    RingStep(c, k);
    ghost var d := Without(c, k);
    WithoutDistinct(c, k);
    element.next.prev := element.prev;
    element.prev.next := element.next;
    forall i | 0 <= i < |d|
      ensures d[i].next == d[Succ(i, |d|)]
    {
      ghost var j := if i < k then i else i + 1;
      assert d[i] == c[j] && old(c[j].next) == c[Succ(j, |c|)];
      if i == k - 1 {
        assert d[i].next == c[Succ(k, |c|)];
      }
    }
    forall i | 0 <= i < |d|
      ensures d[i].prev == d[Pred(i, |d|)]
    {
      ghost var j := if i < k then i else i + 1;
      assert d[i] == c[j] && old(c[j].prev) == c[Pred(j, |c|)];
      if j == Succ(k, |c|) {
        assert d[i].prev == c[k - 1] == d[k - 1];
      }
    }
  }

  /** Unlinking undoes inserting. */
  lemma UnlinkUndoesInsert(c: seq<Link>, k: nat, l: Link)
    requires k <= |c|
    ensures Without(Added(c, k, l), k) == c
  {
    assert Without(Added(c, k, l), k) == c;
  }

  // --- Registrations --------------------------------------------------------------------------------

  datatype Callback = Callback(func: nat, order: nat)

  // A new callback goes before the first with a higher order.
  function Registered(q: seq<Callback>, e: Callback): seq<Callback>
  {
    if q == [] then [e]
    else if e.order < q[0].order then [e] + q
    else [q[0]] + Registered(q[1..], e)
  }

  function RegisteredAll(q: seq<Callback>, es: seq<Callback>): seq<Callback>
    decreases |es|
  {
    if es == [] then q else RegisteredAll(Registered(q, es[0]), es[1..])
  }

  // The callbacks with an order, in the order of the list.
  function OfOrder(q: seq<Callback>, order: nat): seq<Callback>
  {
    if q == [] then [] else (if q[0].order == order then [q[0]] else []) + OfOrder(q[1..], order)
  }

  predicate Sorted(q: seq<Callback>) { forall i, j :: 0 <= i < j < |q| ==> q[i].order <= q[j].order }

  lemma {:induction false} RegisteredSorted(q: seq<Callback>, e: Callback)
    requires Sorted(q)
    ensures Sorted(Registered(q, e))
    ensures forall x :: x in Registered(q, e) ==> x == e || x in q
  {
    if q == [] {
    } else if e.order < q[0].order {
      assert forall i, j :: 0 <= i < j < |q| + 1 ==> ([e] + q)[i].order <= ([e] + q)[j].order;
    } else {
      RegisteredSorted(q[1..], e);
      var r := Registered(q[1..], e);
      forall i | 0 <= i < |r|
        ensures q[0].order <= r[i].order
      {
        assert r[i] in r;
      }
    }
  }

  lemma {:induction false} RegisteredOnce(q: seq<Callback>, e: Callback)
    ensures multiset(Registered(q, e)) == multiset(q) + multiset{e}
  {
    if q != [] && e.order >= q[0].order {
      RegisteredOnce(q[1..], e);
      assert q == [q[0]] + q[1..];
    }
  }

  lemma {:induction false} OfOrderAppend(q: seq<Callback>, e: Callback, order: nat)
    requires Sorted(q)
    ensures OfOrder(Registered(q, e), order) == OfOrder(q, order) + if e.order == order then [e] else []
  {
    var tail := if e.order == order then [e] else [];
    if q == [] {
      assert OfOrder([e], order) == tail + OfOrder([], order);
    } else if e.order < q[0].order {
      assert ([e] + q)[1..] == q;
      if e.order == order {
        NoneOfOrder(q, order);
        assert tail + OfOrder(q, order) == OfOrder(q, order) + tail;
      }
    } else {
      OfOrderAppend(q[1..], e, order);
      Assoc(if q[0].order == order then [q[0]] else [], OfOrder(q[1..], order), tail);
    }
  }

  lemma {:induction false} NoneOfOrder(q: seq<Callback>, order: nat)
    requires Sorted(q) && (q == [] || order < q[0].order)
    ensures OfOrder(q, order) == []
  {
    if q != [] {
      NoneOfOrder(q[1..], order);
    }
  }

  /** After any registrations the list is sorted by order, and callbacks with equal orders are in the order of
      their registration. */
  lemma {:induction false} RegistrationsOrdered(q: seq<Callback>, es: seq<Callback>, order: nat)
    requires Sorted(q)
    ensures var r := RegisteredAll(q, es);
            Sorted(r) && OfOrder(r, order) == OfOrder(q, order) + OfOrder(es, order)
    decreases |es|
  {
    hide Registered, Sorted;
    if es == [] {
      assert OfOrder(q, order) + [] == OfOrder(q, order);
    } else {
      RegisteredSorted(q, es[0]);
      OfOrderAppend(q, es[0], order);
      RegistrationsOrdered(Registered(q, es[0]), es[1..], order);
      Assoc(OfOrder(q, order), if es[0].order == order then [es[0]] else [], OfOrder(es[1..], order));
    }
  }

  /** The list holds every callback once for each of its registrations. */
  lemma {:induction false} RegistrationsComplete(q: seq<Callback>, es: seq<Callback>)
    ensures multiset(RegisteredAll(q, es)) == multiset(q) + multiset(es)
    decreases |es|
  {
    hide Registered;
    if es != [] {
      RegisteredOnce(q, es[0]);
      RegistrationsComplete(Registered(q, es[0]), es[1..]);
      assert es == [es[0]] + es[1..];
    }
  }

  /** Callbacks registered for the end come after all others, and don't-care callbacks just before those. */
  lemma LastOrders(q: seq<Callback>, i: nat, j: nat)
    requires Sorted(q) && i < |q| && j < |q| && forall c :: c in q ==> c.order <= ORDER_LAST
    ensures q[i].order == ORDER_LAST && q[j].order < ORDER_LAST ==> j < i
    ensures q[i].order == ORDER_DONTCARE && q[j].order < ORDER_DONTCARE ==> j < i
  {
    assert q[i] in q && q[j] in q;
  }

  // --- The list of one kind of state change -------------------------------------------------------------

  function CallbackOf(l: Link): Callback { Callback(l.func, l.order) }

  function CallbacksOf(c: seq<Link>): (r: seq<Callback>)
    ensures |r| == |c| && forall i :: 0 <= i < |r| ==> r[i] == CallbackOf(c[i])
  {
    seq(|c|, i requires 0 <= i < |c| => CallbackOf(c[i]))
  }

  lemma {:induction false} RegisteredAt(q: seq<Callback>, e: Callback, i: nat)
    requires i <= |q| && (forall k :: 0 <= k < i ==> e.order >= q[k].order)
    requires i < |q| ==> e.order < q[i].order
    ensures Registered(q, e) == q[..i] + [e] + q[i..]
  {
    if i > 0 {
      RegisteredAt(q[1..], e, i - 1);
      assert [q[0]] + (q[1..][..i - 1] + [e] + q[1..][i - 1..]) == q[..i] + [e] + q[i..];
    } else {
      assert q[..0] + [e] + q[0..] == [e] + q;
    }
  }

  lemma CallbacksOfParts(ring: seq<Link>, l: Link, i: nat)
    requires i <= |ring|
    ensures CallbacksOf(ring[..i] + [l] + ring[i..])
            == CallbacksOf(ring)[..i] + [CallbackOf(l)] + CallbacksOf(ring)[i..]
  {
  }

  lemma RingDistinct(c: seq<Link>)
    requires Ring(c)
    ensures forall i :: 0 < i < |c| ==> c[i] != c[0]
  {
  }

  lemma AddedAfterHead(head: Link, ring: seq<Link>, i: nat, l: Link)
    requires i <= |ring|
    ensures Added([head] + ring, i + 1, l) == [head] + (ring[..i] + [l] + ring[i..])
  {
  }

  class CallbackList {
    const head: Link
    // The registered callbacks.
    ghost var ring: seq<Link>

    constructor ()
      ensures Valid() && fresh(head) && Contents() == []
    {
      head := new Link(0, 0);
      ring := [];
      new;
    }

    ghost predicate Valid()
      reads this, head, ring
    {
      Ring([head] + ring) && Sorted(Contents())
    }

    ghost function Contents(): seq<Callback>
      reads this
    {
      CallbacksOf(ring)
    }

    // The search for the first callback with a higher order, or else the head.
    method Search(order: nat) returns (before: Link, ghost i: nat)
      requires Valid()
      ensures i <= |ring| && before == (if i < |ring| then ring[i] else head)
      ensures forall k :: 0 <= k < i ==> order >= ring[k].order
      ensures i < |ring| ==> order < ring[i].order
    {
      hide Ring, Sorted;
      ghost var c := [head] + ring;
      RingStep(c, 0);
      RingDistinct(c);
      before, i := head.next, 0;
      while before != head
        invariant i <= |ring| && before == c[Succ(i, |c|)]
        invariant forall k :: 0 <= k < i ==> order >= ring[k].order
        decreases |ring| - i
      {
        assert i < |ring| && c[i + 1] == ring[i];
        if order < before.order {
          return;
        }
        RingStep(c, i + 1);
        before, i := before.next, i + 1;
      }
    }

    // register_schange_ordered
    method Register(func: nat, order: nat)
      requires Valid()
      modifies this, head, ring
      ensures Valid() && Contents() == Registered(old(Contents()), Callback(func, order))
      ensures forall l :: l in ring ==> l in old(ring) || fresh(l)
    {
      hide Registered, CallbacksOf, Sorted, Ring, Added;
      ghost var i;
      ghost var c, q := [head] + ring, Contents();
      var st := new Link(func, order);
      var before: Link;
      before, i := Search(order);
      RegisteredAt(q, Callback(func, order), i);
      RegisteredSorted(q, Callback(func, order));
      CallbacksOfParts(ring, st, i);
      assert before == c[if i + 1 == |c| then 0 else i + 1];
      RingStep(c, if i + 1 == |c| then 0 else i + 1);
      InsertBefore(st, before, c, i + 1);
      AddedAfterHead(head, ring, i, st);
      ring := ring[..i] + [st] + ring[i..];
    }

    // st_changed, with callbacks that register nothing: the functions called
    method Changed() returns (called: seq<nat>)
      requires Valid()
      ensures |called| == |ring| && forall i :: 0 <= i < |ring| ==> called[i] == Contents()[i].func
    {
      hide Sorted;
      ghost var c := [head] + ring;
      called := [];
      assert c[0].next == c[Succ(0, |c|)];
      var elt := head.next;
      ghost var i := 0;
      while elt != head
        invariant i <= |ring| && elt == c[Succ(i, |c|)] && |called| == i
        invariant forall k :: 0 <= k < i ==> called[k] == ring[k].func
        decreases |ring| - i
      {
        assert i < |ring| && c[i + 1] == ring[i];
        assert c[i + 1].next == c[Succ(i + 1, |c|)];
        var next := elt.next;
        called := called + [elt.func];
        elt, i := next, i + 1;
      }
      assert i == |ring|;
    }
  }
}
