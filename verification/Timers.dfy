/**
 The timer queue (AddTimeOut, RemoveTimeOut and the expiry loop of process_some_events,
 Common/XtGlue.c:456-531, 922-936) as a state machine.  A callback is given by what it does: the timers it adds
 and removes.  Timers are numbered in the order in which they were added.
 */
module Timers {
  import opened Bytes

  const MILLION := 1000000

  /** A time as the source keeps it: seconds and microseconds. */
  datatype Time = Time(sec: int, usec: int)

  function Instant(t: Time): int { t.sec * MILLION + t.usec }

  // What gettimeofday returns.
  predicate ClockTime(t: Time) { 0 <= t.usec < MILLION }

  // The microseconds of a deadline may be a whole million.
  predicate DeadlineTime(t: Time) { 0 <= t.usec <= MILLION }

  predicate Later(a: Time, b: Time) { a.sec > b.sec || (a.sec == b.sec && a.usec > b.usec) }

  // EXPIRED
  predicate Expired(due: Time, now: Time) { Later(now, due) }

  // The deadline of a timer that is added at a time, in milliseconds from then.
  function Deadline(clock: Time, ms: nat): Time
  {
    var sec, usec := clock.sec + ms / 1000, clock.usec + ms % 1000 * 1000;
    if usec > MILLION then Time(sec + usec / MILLION, usec % MILLION) else Time(sec, usec)
  }

  /** The deadline is the right instant, though not always in normal form. */
  lemma DeadlineInstant(clock: Time, ms: nat)
    requires ClockTime(clock)
    ensures Instant(Deadline(clock, ms)) == Instant(clock) + ms * 1000
    ensures DeadlineTime(Deadline(clock, ms))
    ensures Deadline(clock, ms).usec == MILLION <==> clock.usec + ms % 1000 * 1000 == MILLION
  {
    assert ms == ms / 1000 * 1000 + ms % 1000;
  }

  /** A timer counts as expired strictly after its deadline, or at its deadline when that is not in normal form;
      so no timer fires early. */
  lemma ExpiredMeans(due: Time, now: Time)
    requires DeadlineTime(due) && ClockTime(now)
    ensures Expired(due, now)
            <==> Instant(due) < Instant(now) || (Instant(due) == Instant(now) && due.usec == MILLION)
  {
  }

  /** The order of the queue is the order of instants, except between the two forms of one instant. */
  lemma LaterMeans(a: Time, b: Time)
    requires DeadlineTime(a) && DeadlineTime(b)
    ensures Later(a, b)
            <==> Instant(a) > Instant(b) || (Instant(a) == Instant(b) && a.usec == 0 && b.usec == MILLION)
  {
  }

  // --- The queue --------------------------------------------------------------------------------

  datatype Timer = Timer(id: nat, due: Time)

  type Queue = seq<Timer>

  // A new timer goes before the first that is later.
  function Inserted(q: Queue, t: Timer): Queue
  {
    if q == [] then [t]
    else if Later(q[0].due, t.due) then [t] + q
    else [q[0]] + Inserted(q[1..], t)
  }

  function Removed(q: Queue, id: nat): Queue
  {
    if q == [] then [] else if q[0].id == id then q[1..] else [q[0]] + Removed(q[1..], id)
  }

  // Sorted by deadline, and timers with equal deadlines in the order in which they were added.
  predicate Precedes(a: Timer, b: Timer)
  {
    Later(b.due, a.due) || (a.due == b.due && a.id < b.id)
  }

  predicate Sorted(q: Queue)
  {
    forall i, j :: 0 <= i < j < |q| ==> Precedes(q[i], q[j])
  }

  predicate Has(q: Queue, id: nat) { exists i :: 0 <= i < |q| && q[i].id == id }

  lemma {:induction false} InsertedTimers(q: Queue, t: Timer)
    ensures |Inserted(q, t)| == |q| + 1
    ensures forall x :: x in Inserted(q, t) <==> x == t || x in q
  {
    if q != [] && !Later(q[0].due, t.due) {
      InsertedTimers(q[1..], t);
      assert forall x :: x in q <==> x == q[0] || x in q[1..];
    }
  }

  lemma SortedTail(q: Queue)
    requires Sorted(q) && q != []
    ensures Sorted(q[1..]) && forall x :: x in q[1..] ==> Precedes(q[0], x)
  {
  }

  lemma SortedCons(t: Timer, q: Queue)
    requires Sorted(q) && forall x :: x in q ==> Precedes(t, x)
    ensures Sorted([t] + q)
  {
    var s := [t] + q;
    forall i, j | 0 <= i < j < |s|
      ensures Precedes(s[i], s[j])
    {
      assert s[j] == q[j - 1] && s[j] in q;
      if i > 0 {
        assert s[i] == q[i - 1];
      }
    }
  }

  lemma {:induction false} InsertedSorted(q: Queue, t: Timer)
    requires Sorted(q) && forall x :: x in q ==> x.id < t.id
    ensures Sorted(Inserted(q, t))
  {
    hide Sorted;
    if q == [] {
      assert Sorted([]) && [t] == [t] + [];
      SortedCons(t, []);
    } else {
      SortedTail(q);
      assert q[0] in q && forall x :: x in q <==> x == q[0] || x in q[1..];
      if Later(q[0].due, t.due) {
        SortedCons(t, q);
      } else {
        InsertedSorted(q[1..], t);
        InsertedTimers(q[1..], t);
        SortedCons(q[0], Inserted(q[1..], t));
      }
    }
  }

  lemma {:induction false} RemovedTimers(q: Queue, id: nat)
    requires Sorted(q)
    requires forall i, j :: 0 <= i < j < |q| ==> q[i].id != q[j].id
    ensures forall x :: x in Removed(q, id) <==> x in q && x.id != id
    ensures Sorted(Removed(q, id)) && |Removed(q, id)| <= |q|
    ensures forall i, j :: 0 <= i < j < |Removed(q, id)| ==> Removed(q, id)[i].id != Removed(q, id)[j].id
  {
    hide Sorted, Precedes;
    if q != [] {
      SortedTail(q);
      var rest := q[1..];
      assert forall x :: x in q <==> x == q[0] || x in rest;
      assert forall i :: 0 <= i < |rest| ==> rest[i] == q[i + 1];
      if q[0].id != id {
        RemovedTimers(rest, id);
        SortedCons(q[0], Removed(rest, id));
        assert forall x :: x in rest ==> x.id != q[0].id;
      }
    }
  }

  // --- The state machine ----------------------------------------------------------------------------

  /** A request for a timer: the clock at that time and the interval. */
  datatype Request = Request(clock: Time, ms: nat)

  // A timer that fired in a drain with this clock.
  datatype Firing = Firing(timer: Timer, now: Time)

  datatype Action = Add(request: Request) | Remove(id: nat)

  /** The queue, and what happened so far: all requests, all timers that fired, all that were removed. */
  datatype State = State(queue: Queue, requests: seq<Request>, fired: seq<Firing>, removed: set<nat>)

  const START := State([], [], [], {})

  function Numbers(n: nat): (r: set<nat>)
    ensures forall i: nat :: i in r <==> i < n
  {
    if n == 0 then {} else Numbers(n - 1) + {n - 1}
  }

  function QueueIds(q: Queue): set<nat> { set t | t in q :: t.id }

  function FiredIds(f: seq<Firing>): set<nat> { set x | x in f :: x.timer.id }

  function Due(r: Request): Time { Deadline(r.clock, r.ms) }

  function Acted(st: State, a: Action): State
  {
    match a
    case Add(r) =>
      st.(queue := Inserted(st.queue, Timer(|st.requests|, Due(r))), requests := st.requests + [r])
    case Remove(id) =>
      if id in QueueIds(st.queue) then
        st.(queue := Removed(st.queue, id), removed := st.removed + {id})
      else st
  }

  function ActedAll(st: State, s: seq<Action>): State
    decreases |s|
  {
    if s == [] then st else ActedAll(Acted(st, s[0]), s[1..])
  }

  // What the callbacks do, in the order in which they are called.
  type Script = nat -> seq<Action>

  predicate ActionOk(a: Action, since: Time)
  {
    a.Add? ==> ClockTime(a.request.clock) && Instant(a.request.clock) >= Instant(since)
  }

  predicate ActionsOk(s: seq<Action>, since: Time)
  {
    forall i :: 0 <= i < |s| ==> ActionOk(s[i], since)
  }

  // A clock that does not run backwards.
  ghost predicate ScriptOk(script: Script, now: Time)
  {
    ClockTime(now) && forall k :: ActionsOk(script(k), now)
  }

  // The first timer leaves the queue, and its callback runs.
  function Fired(st: State, now: Time, script: Script): State
    requires st.queue != []
  {
    var st1 := st.(queue := st.queue[1..], fired := st.fired + [Firing(st.queue[0], now)]);
    ActedAll(st1, script(|st.fired|))
  }

  function CountExpired(q: Queue, now: Time): nat
  {
    if q == [] then 0 else (if Expired(q[0].due, now) then 1 else 0) + CountExpired(q[1..], now)
  }

  // The expiry loop; it ends because new timers are not expired.
  ghost function Drained(st: State, now: Time, script: Script): State
    requires ScriptOk(script, now)
    decreases CountExpired(st.queue, now)
  {
    if st.queue == [] || !Expired(st.queue[0].due, now) then st
    else
      FiredCount(st, now, script);
      Drained(Fired(st, now, script), now, script)
  }

  // --- Termination ----------------------------------------------------------------------------------

  lemma NewNotExpired(r: Request, now: Time)
    requires ClockTime(r.clock) && ClockTime(now) && Instant(r.clock) >= Instant(now)
    ensures !Expired(Due(r), now)
  {
    DeadlineInstant(r.clock, r.ms);
    ExpiredMeans(Due(r), now);
  }

  lemma {:induction false} InsertedCount(q: Queue, t: Timer, now: Time)
    requires !Expired(t.due, now)
    ensures CountExpired(Inserted(q, t), now) == CountExpired(q, now)
  {
    if q == [] {
    } else if Later(q[0].due, t.due) {
      assert ([t] + q)[1..] == q;
    } else {
      InsertedCount(q[1..], t, now);
    }
  }

  lemma {:induction false} RemovedCount(q: Queue, id: nat, now: Time)
    ensures CountExpired(Removed(q, id), now) <= CountExpired(q, now)
  {
    if q != [] && q[0].id != id {
      RemovedCount(q[1..], id, now);
    }
  }

  lemma {:induction false} ActedCount(st: State, s: seq<Action>, now: Time)
    requires ClockTime(now) && ActionsOk(s, now)
    ensures CountExpired(ActedAll(st, s).queue, now) <= CountExpired(st.queue, now)
    decreases |s|
  {
    hide CountExpired, Expired, Inserted, Removed;
    if s != [] {
      match s[0] {
        case Add(r) =>
          NewNotExpired(r, now);
          InsertedCount(st.queue, Timer(|st.requests|, Due(r)), now);
        case Remove(id) => RemovedCount(st.queue, id, now);
      }
      ActedCount(Acted(st, s[0]), s[1..], now);
    }
  }

  lemma FiredCount(st: State, now: Time, script: Script)
    requires ScriptOk(script, now) && st.queue != [] && Expired(st.queue[0].due, now)
    ensures CountExpired(Fired(st, now, script).queue, now) < CountExpired(st.queue, now)
  {
    var st1 := st.(queue := st.queue[1..], fired := st.fired + [Firing(st.queue[0], now)]);
    ActedCount(st1, script(|st.fired|), now);
  }

  // --- The invariant --------------------------------------------------------------------------------

  predicate Distinct(q: Queue)
  {
    forall i, j :: 0 <= i < j < |q| ==> q[i].id != q[j].id
  }

  /** Every timer has the deadline that was asked for. */
  predicate DeadlinesKept(st: State)
  {
    && (forall t :: t in st.queue ==> t.id < |st.requests| && t.due == Due(st.requests[t.id]))
    && (forall f :: f in st.fired ==> f.timer.id < |st.requests| && f.timer.due == Due(st.requests[f.timer.id]))
  }

  /** No timer fired before its deadline. */
  predicate NoneEarly(st: State)
  {
    forall f :: f in st.fired ==> Expired(f.timer.due, f.now)
  }

  predicate FiredOnce(f: seq<Firing>)
  {
    forall i, j :: 0 <= i < j < |f| ==> f[i].timer.id != f[j].timer.id
  }

  /** Every timer ever added is waiting, or fired once, or was removed in time: exactly one of these. */
  predicate Accounted(st: State)
  {
    && Distinct(st.queue) && FiredOnce(st.fired)
    && QueueIds(st.queue) !! FiredIds(st.fired) && QueueIds(st.queue) !! st.removed
    && FiredIds(st.fired) !! st.removed
    && QueueIds(st.queue) + FiredIds(st.fired) + st.removed == Numbers(|st.requests|)
  }

  predicate Inv(st: State)
  {
    Sorted(st.queue) && DeadlinesKept(st) && NoneEarly(st) && Accounted(st)
  }

  lemma AddKeeps(st: State, r: Request)
    requires Inv(st)
    ensures Inv(Acted(st, Add(r)))
  {
    hide Inserted, Precedes, Due, Sorted, Expired;
    var t := Timer(|st.requests|, Due(r));
    var st1 := Acted(st, Add(r));
    BelowNext(st);
    InsertedSorted(st.queue, t);
    InsertedTimers(st.queue, t);
    assert QueueIds(st1.queue) == QueueIds(st.queue) + {t.id};
    InsertedDistinct(st.queue, t);
    assert Numbers(|st1.requests|) == Numbers(|st.requests|) + {t.id};
  }

  lemma BelowNext(st: State)
    requires Accounted(st)
    ensures forall x :: x in st.queue ==> x.id < |st.requests|
    ensures |st.requests| !in QueueIds(st.queue) + FiredIds(st.fired) + st.removed
  {
    forall x | x in st.queue
      ensures x.id < |st.requests|
    {
      assert x.id in QueueIds(st.queue) + FiredIds(st.fired) + st.removed;
    }
  }

  lemma {:induction false} InsertedDistinct(q: Queue, t: Timer)
    requires Distinct(q) && forall x :: x in q ==> x.id != t.id
    ensures Distinct(Inserted(q, t))
  {
    if q != [] && !Later(q[0].due, t.due) {
      InsertedDistinct(q[1..], t);
      InsertedTimers(q[1..], t);
      var r := Inserted(q[1..], t);
      forall i | 0 <= i < |r|
        ensures r[i].id != q[0].id
      {
        assert r[i] in r;
        assert q[0] in q;
      }
    }
  }

  lemma RemoveKeeps(st: State, id: nat)
    requires Inv(st)
    ensures Inv(Acted(st, Remove(id)))
  {
    hide Removed, Precedes, Due, Sorted, Expired;
    if id in QueueIds(st.queue) {
      var st1 := Acted(st, Remove(id));
      RemovedTimers(st.queue, id);
      assert QueueIds(st1.queue) == QueueIds(st.queue) - {id};
      assert Distinct(st1.queue);
    }
  }

  lemma PopKeeps(st: State, now: Time)
    requires Inv(st) && st.queue != [] && Expired(st.queue[0].due, now)
    ensures Inv(st.(queue := st.queue[1..], fired := st.fired + [Firing(st.queue[0], now)]))
  {
    hide Precedes, Due, Expired, Sorted;
    var t := st.queue[0];
    var st1 := st.(queue := st.queue[1..], fired := st.fired + [Firing(t, now)]);
    SortedTail(st.queue);
    assert t in st.queue;
    assert forall x :: x in st1.queue ==> x in st.queue && x.id != t.id;
    assert forall x :: x in st.queue ==> x == t || x in st1.queue;
    assert QueueIds(st1.queue) == QueueIds(st.queue) - {t.id};
    assert FiredIds(st1.fired) == FiredIds(st.fired) + {t.id};
    assert t.id in QueueIds(st.queue);
    forall i | 0 <= i < |st.fired|
      ensures st.fired[i].timer.id != t.id
    {
      assert st.fired[i].timer.id in FiredIds(st.fired);
    }
  }

  lemma {:induction false} ActedKeeps(st: State, s: seq<Action>)
    requires Inv(st)
    ensures Inv(ActedAll(st, s))
    ensures st.fired == ActedAll(st, s).fired
    decreases |s|
  {
    hide Inv;
    if s != [] {
      match s[0] {
        case Add(r) => AddKeeps(st, r);
        case Remove(id) => RemoveKeeps(st, id);
      }
      ActedKeeps(Acted(st, s[0]), s[1..]);
    }
  }

  // --- Drains ---------------------------------------------------------------------------------------

  /** A drain keeps the invariant, and leaves no expired timer behind. */
  lemma {:induction false} DrainedKeeps(st: State, now: Time, script: Script)
    requires ScriptOk(script, now) && Inv(st)
    ensures var st1 := Drained(st, now, script);
            && Inv(st1)
            && st.fired <= st1.fired
            && (forall i :: |st.fired| <= i < |st1.fired| ==> st1.fired[i].now == now)
            && (forall t :: t in st1.queue ==> !Expired(t.due, now))
    decreases CountExpired(st.queue, now)
  {
    if st.queue == [] || !Expired(st.queue[0].due, now) {
      NoneExpired(st.queue, now);
    } else {
      hide Inv, ScriptOk, Expired, Acted;
      PopKeeps(st, now);
      var st1 := st.(queue := st.queue[1..], fired := st.fired + [Firing(st.queue[0], now)]);
      ActedKeeps(st1, script(|st.fired|));
      FiredCount(st, now, script);
      DrainedKeeps(Fired(st, now, script), now, script);
    }
  }

  lemma NoneExpired(q: Queue, now: Time)
    requires Sorted(q) && (q == [] || !Expired(q[0].due, now))
    ensures forall t :: t in q ==> !Expired(t.due, now)
  {
  }

  lemma {:induction false} ActedQueue(st: State, s: seq<Action>, now: Time)
    requires ClockTime(now) && ActionsOk(s, now) && Inv(st)
    ensures forall t :: t in ActedAll(st, s).queue ==> t in st.queue || !Expired(t.due, now)
    ensures st.requests <= ActedAll(st, s).requests
    decreases |s|
  {
    hide Expired, Inv;
    if s != [] {
      match s[0] {
        case Add(r) =>
          NewNotExpired(r, now);
          InsertedTimers(st.queue, Timer(|st.requests|, Due(r)));
          AddKeeps(st, r);
        case Remove(id) =>
          InvParts(st);
          RemovedTimers(st.queue, id);
          RemoveKeeps(st, id);
      }
      ActedQueue(Acted(st, s[0]), s[1..], now);
    }
  }

  lemma InvParts(st: State)
    requires Inv(st)
    ensures Sorted(st.queue) && Distinct(st.queue)
  {
  }

  /** A drain fires timers that were waiting when it began, in the order of the queue. */
  lemma {:induction false} DrainedInOrder(st: State, now: Time, script: Script)
    requires ScriptOk(script, now) && Inv(st)
    ensures var f := Drained(st, now, script).fired;
            && st.fired <= f
            && (forall i :: |st.fired| <= i < |f| ==> f[i].timer in st.queue && Expired(f[i].timer.due, now))
            && (forall i, j :: |st.fired| <= i < j < |f| ==> Precedes(f[i].timer, f[j].timer))
    ensures st.requests <= Drained(st, now, script).requests
    decreases CountExpired(st.queue, now)
  {
    if st.queue != [] && Expired(st.queue[0].due, now) {
      hide Inv, ScriptOk, Expired, Precedes, Acted, Fired;
      var t := st.queue[0];
      FiredQueue(st, now, script);
      var st2 := Fired(st, now, script);
      FiredCount(st, now, script);
      DrainedInOrder(st2, now, script);
      var f := Drained(st2, now, script).fired;
      assert f[|st.fired|] == st2.fired[|st.fired|];
      assert forall i :: |st2.fired| <= i < |f| ==> f[i].timer in st2.queue;
    }
  }

  lemma FiredQueue(st: State, now: Time, script: Script)
    requires ScriptOk(script, now) && Inv(st) && st.queue != [] && Expired(st.queue[0].due, now)
    ensures var st2 := Fired(st, now, script);
            && Inv(st2) && st2.fired == st.fired + [Firing(st.queue[0], now)]
            && st.requests <= st2.requests
            && (forall t :: t in st2.queue && Expired(t.due, now) ==> t in st.queue && Precedes(st.queue[0], t))
  {
    hide Expired, Precedes, Acted, CountExpired;
    PopKeeps(st, now);
    InvParts(st);
    SortedTail(st.queue);
    var st1 := st.(queue := st.queue[1..], fired := st.fired + [Firing(st.queue[0], now)]);
    ActedKeeps(st1, script(|st.fired|));
    ActedQueue(st1, script(|st.fired|), now);
  }

  /** Every timer that is expired when a drain begins has fired or been removed when it ends. */
  lemma DrainedAll(st: State, now: Time, script: Script, t: Timer)
    requires ScriptOk(script, now) && Inv(st) && t in st.queue && Expired(t.due, now)
    ensures var st1 := Drained(st, now, script); t.id in FiredIds(st1.fired) || t.id in st1.removed
  {
    hide Expired, Drained, ScriptOk, Precedes;
    var st1 := Drained(st, now, script);
    DrainedKeeps(st, now, script);
    DrainedInOrder(st, now, script);
    BelowNext(st);
    assert t.id in QueueIds(st1.queue) + FiredIds(st1.fired) + st1.removed;
    assert st1.requests[t.id] == st.requests[t.id];
    assert forall x :: x in st1.queue && x.id == t.id ==> x.due == t.due;
  }

  // --- Runs -----------------------------------------------------------------------------------------

  datatype Command = Act(a: Action) | Drain(now: Time, script: Script)

  ghost predicate CommandOk(c: Command)
  {
    match c
    case Act(a) => a.Add? ==> ClockTime(a.request.clock)
    case Drain(now, script) => ScriptOk(script, now)
  }

  ghost function Next(st: State, c: Command): State
    requires CommandOk(c)
  {
    match c
    case Act(a) => Acted(st, a)
    case Drain(now, script) => Drained(st, now, script)
  }

  ghost function Run(st: State, cs: seq<Command>): State
    requires forall i :: 0 <= i < |cs| ==> CommandOk(cs[i])
    decreases |cs|
  {
    if cs == [] then st else Run(Next(st, cs[0]), cs[1..])
  }

  /** Over every run the queue stays sorted, every timer is accounted for, and none fires early. */
  lemma {:induction false} RunKeeps(st: State, cs: seq<Command>)
    requires Inv(st) && forall i :: 0 <= i < |cs| ==> CommandOk(cs[i])
    ensures Inv(Run(st, cs))
    decreases |cs|
  {
    hide Inv, ScriptOk;
    if cs != [] {
      match cs[0] {
        case Act(a) => match a {
          case Add(r) => AddKeeps(st, r);
          case Remove(id) => RemoveKeeps(st, id);
        }
        case Drain(now, script) => DrainedKeeps(st, now, script);
      }
      RunKeeps(Next(st, cs[0]), cs[1..]);
    }
  }

  lemma StartInv()
    ensures Inv(START)
  {
  }

  /** In instants: no timer fires earlier than its interval after it was added. */
  lemma FiresInTime(st: State, f: Firing)
    requires Inv(st) && f in st.fired && ClockTime(f.now)
    requires forall i :: 0 <= i < |st.requests| ==> ClockTime(st.requests[i].clock)
    ensures f.timer.id < |st.requests|
    ensures var r := st.requests[f.timer.id]; Instant(f.now) >= Instant(r.clock) + r.ms * 1000
  {
    hide Expired;
    var r := st.requests[f.timer.id];
    DeadlineInstant(r.clock, r.ms);
    ExpiredMeans(f.timer.due, f.now);
  }

  /** Timers due at the same instant wait in the order in which they were added, unless the later one alone was
      given a whole million of microseconds. */
  lemma TiesInOrder(q: Queue, i: nat, j: nat)
    requires Sorted(q) && i < |q| && j < |q|
    requires DeadlineTime(q[i].due) && DeadlineTime(q[j].due) && Instant(q[i].due) == Instant(q[j].due)
    requires q[i].id < q[j].id
    ensures i < j <==> !(q[j].due.usec == MILLION && q[i].due.usec == 0)
  {
    LaterMeans(q[i].due, q[j].due);
    LaterMeans(q[j].due, q[i].due);
    if i > j {
      assert Precedes(q[j], q[i]);
    }
  }

  /** Such a pair: added at one second for a second, then at one and a half seconds for half a second. */
  lemma MillionBreaksTie()
    ensures var first, second := Request(Time(1, 0), 1000), Request(Time(1, 500000), 500);
            && Instant(Due(first)) == Instant(Due(second))
            && ActedAll(START, [Add(first), Add(second)]).queue == [Timer(1, Due(second)), Timer(0, Due(first))]
  {
    var first, second := Request(Time(1, 0), 1000), Request(Time(1, 500000), 500);
    assert Due(first) == Time(2, 0) && Due(second) == Time(1, MILLION);
    var st := Acted(START, Add(first));
    assert st.queue == [Timer(0, Due(first))];
    var s := [Add(first), Add(second)];
    assert s[1..] == [Add(second)] && s[1..][1..] == [];
    assert ActedAll(START, s) == ActedAll(st, [Add(second)]) == Acted(st, Add(second));
  }
}
