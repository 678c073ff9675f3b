/** The list of recent hosts (save_recent, Common/host.c:865-1057), with the lines of the last-connection file
    given as an input list. */
module RecentHosts {
  import opened Bytes

  const MAX_RECENT := 20

  datatype Entry = Entry(name: string, time: int)

  /** struct host.  Configured hosts come first in the list. */
  class Host {
    const name: string
    const recent: bool
    const time: int
    var prev: Host?
    var next: Host?

    constructor (name: string, recent: bool, time: int)
      ensures this.name == name && this.recent == recent && this.time == time
    {
      this.name, this.recent, this.time, prev, next := name, recent, time, null, null;
    }
  }

  function EntryOf(h: Host): Entry { Entry(h.name, h.time) }

  function EntriesOf(s: seq<Host>): (r: seq<Entry>)
    ensures |r| == |s| && forall i :: 0 <= i < |r| ==> r[i] == EntryOf(s[i])
  {
    seq(|s|, i requires 0 <= i < |s| => EntryOf(s[i]))
  }

  // --- Linked lists -------------------------------------------------------------------------------

  function NodeAt(s: seq<Host>, i: int): Host? { if 0 <= i < |s| then s[i] else null }

  /** The forward links lead from the first host to the last, and the backward links back. */
  ghost predicate Linked(first: Host?, last: Host?, s: seq<Host>)
    reads s
  {
    && first == NodeAt(s, 0) && last == NodeAt(s, |s| - 1)
    && (forall i {:trigger s[i].next} :: 0 <= i < |s| ==> s[i].next == NodeAt(s, i + 1))
    && (forall i {:trigger s[i].prev} :: 0 <= i < |s| ==> s[i].prev == NodeAt(s, i - 1))
  }

  predicate AllDistinct(s: seq<Host>) { forall i, j :: 0 <= i < j < |s| ==> s[i] != s[j] }

  // --- What is kept -------------------------------------------------------------------------------

  predicate NewestFirst(s: seq<Entry>) { forall i, j :: 0 <= i < j < |s| ==> s[i].time >= s[j].time }

  predicate Named(s: seq<Entry>, name: string) { exists i :: 0 <= i < |s| && s[i].name == name }

  predicate DistinctNames(s: seq<Entry>) { forall i, j :: 0 <= i < j < |s| ==> s[i].name != s[j].name }

  // The filter on the sorted array.
  function Kept(s: seq<Entry>, limit: int, kept: seq<Entry>): seq<Entry>
  {
    if s == [] then kept
    else Kept(s[1..], limit, if |kept| >= limit || Named(kept, s[0].name) then kept else kept + [s[0]])
  }

  /** The entries kept of some candidates: newest first, one for each name with its latest time, at most as many as
      the limit allows; and an entry whose name is not kept is no newer than any that is. */
  predicate Keeps(candidates: seq<Entry>, limit: int, kept: seq<Entry>)
  {
    && NewestFirst(kept) && DistinctNames(kept)
    && (|kept| <= limit || kept == [])
    && (forall e :: e in kept ==> e in candidates)
    && (forall c, e :: c in candidates && e in kept && c.name == e.name ==> e.time >= c.time)
    && (forall c :: c in candidates && !Named(kept, c.name) ==>
          |kept| >= limit && forall e :: e in kept ==> e.time >= c.time)
  }

  lemma {:induction false} KeptKeeps(done: seq<Entry>, s: seq<Entry>, limit: int, kept: seq<Entry>)
    requires NewestFirst(done + s) && Keeps(done, limit, kept)
    ensures Keeps(done + s, limit, Kept(s, limit, kept))
    decreases |s|
  {
    hide Keeps, NewestFirst, Named;
    if s == [] {
      assert done + s == done;
    } else {
      var kept1 := if |kept| >= limit || Named(kept, s[0].name) then kept else kept + [s[0]];
      var done1 := done + [s[0]];
      assert done1 + s[1..] == done + s;
      PrefixNewest(done1, s[1..]);
      KeepsStep(done, s[0], limit, kept);
      KeptKeeps(done1, s[1..], limit, kept1);
    }
  }

  lemma PrefixNewest(s: seq<Entry>, t: seq<Entry>)
    requires NewestFirst(s + t)
    ensures NewestFirst(s)
  {
    assert forall i :: 0 <= i < |s| ==> s[i] == (s + t)[i];
  }

  lemma NamedAppend(s: seq<Entry>, x: Entry, name: string)
    ensures Named(s + [x], name) <==> Named(s, name) || x.name == name
  {
    assert (s + [x])[|s|] == x;
    assert forall i :: 0 <= i < |s| ==> (s + [x])[i] == s[i];
  }

  // What was kept of earlier entries is no older than the next.
  lemma KeptNewer(done: seq<Entry>, x: Entry, limit: int, kept: seq<Entry>)
    requires NewestFirst(done + [x]) && Keeps(done, limit, kept)
    ensures forall e :: e in done ==> e.time >= x.time
    ensures forall i :: 0 <= i < |kept| ==> kept[i].time >= x.time
  {
    forall e | e in done
      ensures e.time >= x.time
    {
      var i :| 0 <= i < |done| && done[i] == e;
      assert (done + [x])[i] == e && (done + [x])[|done|] == x;
    }
    forall i | 0 <= i < |kept|
      ensures kept[i].time >= x.time
    {
      assert kept[i] in kept && kept[i] in done;
    }
  }

  lemma KeepsStep(done: seq<Entry>, x: Entry, limit: int, kept: seq<Entry>)
    requires NewestFirst(done + [x]) && Keeps(done, limit, kept)
    ensures Keeps(done + [x], limit, if |kept| >= limit || Named(kept, x.name) then kept else kept + [x])
  {
    KeptNewer(done, x, limit, kept);
    if |kept| >= limit || Named(kept, x.name) {
      KeepsDropped(done, x, limit, kept);
    } else {
      KeepsAppended(done, x, limit, kept);
    }
  }

  lemma KeepsDropped(done: seq<Entry>, x: Entry, limit: int, kept: seq<Entry>)
    requires Keeps(done, limit, kept) && (|kept| >= limit || Named(kept, x.name))
    requires forall i :: 0 <= i < |kept| ==> kept[i].time >= x.time
    ensures Keeps(done + [x], limit, kept)
  {
    hide NewestFirst, DistinctNames, Named;
    assert forall e :: e in kept ==> e.time >= x.time;
  }

  lemma KeepsAppended(done: seq<Entry>, x: Entry, limit: int, kept: seq<Entry>)
    requires Keeps(done, limit, kept) && |kept| < limit && !Named(kept, x.name)
    requires forall i :: 0 <= i < |kept| ==> kept[i].time >= x.time
    ensures Keeps(done + [x], limit, kept + [x])
  {
    var kept1 := kept + [x];
    assert NewestFirst(kept1);
    forall i, j | 0 <= i < j < |kept1|
      ensures kept1[i].name != kept1[j].name
    {
    }
    forall c | c in done
      ensures c.name != x.name
    {
      assert Named(kept, c.name);
    }
    assert forall c, e :: c in done + [x] && e in kept1 && c.name == e.name ==> e.time >= c.time;
    forall c | c in done + [x]
      ensures Named(kept1, c.name)
    {
      NamedAppend(kept, x, c.name);
    }
  }

  lemma NothingKept(limit: int)
    ensures Keeps([], limit, [])
  {
  }

  // Which candidates there are matters, not their order.
  lemma SameCandidates(c: seq<Entry>, d: seq<Entry>, limit: int, kept: seq<Entry>)
    requires Keeps(c, limit, kept) && forall e :: e in c <==> e in d
    ensures Keeps(d, limit, kept)
  {
    hide NewestFirst, DistinctNames, Named;
  }

  // --- The method -----------------------------------------------------------------------------------

  // The number of hosts in front of the first recent one.
  function Configured(s: seq<Host>): (n: nat)
    ensures n <= |s| && forall i :: 0 <= i < n ==> !s[i].recent
    ensures n < |s| ==> s[n].recent
  {
    if s == [] || s[0].recent then 0 else Configured(s[1..]) + 1
  }

  function NewEntry(hn: Option<string>, now: int): seq<Entry>
  {
    match hn case None => [] case Some(name) => [Entry(name, now)]
  }

  function Min(a: int, b: int): int { if a < b then a else b }

  // qsort with host_compare: some order with the latest times first.
  method SortByTime(s: seq<Host>) returns (r: seq<Host>)
    requires AllDistinct(s)
    ensures AllDistinct(r) && |r| == |s| && forall h :: h in r <==> h in s
    ensures NewestFirst(EntriesOf(r))
  {
    r := [];
    for i := 0 to |s|
      invariant |r| == i && AllDistinct(r) && forall h :: h in r <==> h in s[..i]
      invariant forall j, k :: 0 <= j < k < |r| ==> r[j].time >= r[k].time
    {
      var p := 0;
      while p < |r| && r[p].time >= s[i].time
        invariant p <= |r| && forall k :: 0 <= k < p ==> r[k].time >= s[i].time
      {
        p := p + 1;
      }
      SplicedSorted(r, s[i], p);
      SplicedHosts(r, s[i], p);
      assert s[i] !in r;
      r := Spliced(r, s[i], p);
      assert s[..i + 1] == s[..i] + [s[i]];
    }
    assert s[..|s|] == s;
  }

  function Spliced(r: seq<Host>, x: Host, p: nat): (d: seq<Host>)
    requires p <= |r|
    ensures |d| == |r| + 1
    ensures forall i :: 0 <= i < |d| ==> d[i] == if i < p then r[i] else if i == p then x else r[i - 1]
  {
    r[..p] + [x] + r[p..]
  }

  lemma SplicedSorted(r: seq<Host>, x: Host, p: nat)
    requires p <= |r| && (forall j, k :: 0 <= j < k < |r| ==> r[j].time >= r[k].time)
    requires (forall k :: 0 <= k < p ==> r[k].time >= x.time) && (p < |r| ==> r[p].time < x.time)
    ensures var d := Spliced(r, x, p); forall j, k :: 0 <= j < k < |d| ==> d[j].time >= d[k].time
  {
  }

  lemma SplicedHosts(r: seq<Host>, x: Host, p: nat)
    requires p <= |r|
    ensures forall h :: h in Spliced(r, x, p) <==> h == x || h in r
    ensures AllDistinct(r) && x !in r ==> AllDistinct(Spliced(r, x, p))
  {
    assert r == r[..p] + r[p..];
  }

  class HostList {
    var hosts: Host?
    var lastHost: Host?
    ghost var list: seq<Host>

    constructor ()
      ensures Valid() && list == []
    {
      hosts, lastHost, list := null, null, [];
    }

    ghost predicate Valid()
      reads this, list
    {
      Linked(hosts, lastHost, list) && AllDistinct(list)
    }

    // The hosts of the list, one by one.
    method ToArray() returns (h: seq<Host>)
      requires Valid()
      ensures h == list
    {
      h := [];
      var cur := hosts;
      while cur != null
        invariant |h| <= |list| && h == list[..|h|] && cur == NodeAt(list, |h|)
        decreases |list| - |h|
      {
        h := h + [cur];
        cur := cur.next;
      }
    }

    // Create a new host list.
    method Relink(h: seq<Host>)
      requires AllDistinct(h)
      modifies this, set x | x in h
      ensures Valid() && list == h
    {
      hosts, lastHost := null, null;
      for i := 0 to |h|
        invariant Linked(hosts, lastHost, h[..i])
      {
        LinkNext(h, i);
        h[i].next := null;
        if lastHost != null {
          lastHost.next := h[i];
        }
        h[i].prev := lastHost;
        lastHost := h[i];
        if hosts == null {
          hosts := h[i];
        }
        assert Linked(hosts, lastHost, h[..i + 1]);
      }
      assert h[..|h|] == h;
      list := h;
    }

    lemma LinkNext(h: seq<Host>, i: nat)
      requires i < |h| && AllDistinct(h)
      ensures h[i] !in h[..i] && h[..i + 1] == h[..i] + [h[i]]
    {
    }

    // Filter out duplicate names, and limit the number of recent hosts.
    method Filter(h: seq<Host>, limit: int) returns (kept: seq<Host>)
      requires AllDistinct(h)
      ensures EntriesOf(kept) == Kept(EntriesOf(h), limit, [])
      ensures AllDistinct(kept) && forall k :: k in kept ==> k in h
    {
      kept := [];
      assert EntriesOf(h)[0..] == EntriesOf(h);
      for i := 0 to |h|
        invariant Kept(EntriesOf(h)[i..], limit, EntriesOf(kept)) == Kept(EntriesOf(h), limit, [])
        invariant AllDistinct(kept) && forall k :: k in kept ==> k in h[..i]
      {
        var delete := |kept| >= limit;
        if !delete {
          var j := 0;
          while j < |kept|
            invariant j <= |kept| && forall k :: 0 <= k < j ==> kept[k].name != h[i].name
          {
            if kept[j].name == h[i].name {
              delete := true;
              assert EntriesOf(kept)[j].name == h[i].name;
              break;
            }
            j := j + 1;
          }
        }
        assert delete <==> |kept| >= limit || Named(EntriesOf(kept), h[i].name);
        assert EntriesOf(h)[i..][0] == EntryOf(h[i]) && EntriesOf(h)[i..][1..] == EntriesOf(h)[i + 1..];
        assert h[i] !in h[..i] && h[..i + 1] == h[..i] + [h[i]];
        if !delete {
          assert EntriesOf(kept + [h[i]]) == EntriesOf(kept) + [EntryOf(h[i])];
          kept := kept + [h[i]];
        }
      }
    }

    // The candidates for the recent hosts: the new one, those of the list and those of the file.
    method Gather(hn: Option<string>, now: int, recent: seq<Host>, file: seq<Entry>) returns (h: seq<Host>)
      requires AllDistinct(recent)
      ensures AllDistinct(h) && EntriesOf(h) == NewEntry(hn, now) + EntriesOf(recent) + file
      ensures forall k :: k in h ==> k in recent || fresh(k)
    {
      h := [];
      if hn.Some? {
        var new_ := new Host(hn.value, true, now);
        h := [new_];
      }
      ghost var first := h;
      h := h + recent;
      assert EntriesOf(h) == EntriesOf(first) + EntriesOf(recent);
      ghost var before := EntriesOf(h);
      assert before + file[..0] == before;
      for i := 0 to |file|
        invariant AllDistinct(h) && EntriesOf(h) == before + file[..i]
        invariant forall k :: k in h ==> k in recent || fresh(k)
      {
        var new_ := new Host(file[i].name, true, file[i].time);
        assert new_ !in h;
        assert EntriesOf(h + [new_]) == EntriesOf(h) + [file[i]];
        assert file[..i + 1] == file[..i] + [file[i]];
        Assoc(before, file[..i], [file[i]]);
        h := h + [new_];
      }
      assert file[..|file|] == file;
    }

    /** save_recent: the configured hosts stay in order, and after them come the recent hosts that are kept of all
        candidates. */
    method SaveRecent(hn: Option<string>, now: int, file: seq<Entry>, maxRecent: int)
      requires Valid()
      modifies this, set x | x in list
      ensures Valid()
      ensures var n := Configured(old(list));
              && n <= |list| && list[..n] == old(list)[..n]
              && Keeps(NewEntry(hn, now) + EntriesOf(old(list)[n..]) + file, Min(maxRecent, MAX_RECENT),
                       EntriesOf(list[n..]))
      // The new host is there, with this time or a later one, unless the list is full of hosts that are as new.
      ensures hn.Some? ==>
                var kept := EntriesOf(list[Configured(old(list))..]);
                || (exists e :: e in kept && e.name == hn.value && e.time >= now)
                || (|kept| >= Min(maxRecent, MAX_RECENT) && forall e :: e in kept ==> e.time >= now)
      // Nothing else is new: every other recent host was in the list or comes from the file.
      ensures forall e :: e in EntriesOf(list[Configured(old(list))..]) ==>
                || (hn == Some(e.name) && e.time == now) || e in file
                || e in EntriesOf(old(list)[Configured(old(list))..])
      ensures forall h :: h in list ==> h in old(list) || fresh(h)
    {
      hide Keeps, NewestFirst, EntriesOf, Kept, Linked;
      var limit := Min(maxRecent, MAX_RECENT);
      var all := ToArray();
      ghost var n := Configured(all);
      var nih := 0;
      assert all[0..] == all;
      while nih < |all| && !all[nih].recent
        invariant nih <= |all| && n == nih + Configured(all[nih..])
      {
        assert all[nih..][0] == all[nih] && all[nih..][1..] == all[nih + 1..];
        nih := nih + 1;
      }
      assert nih < |all| ==> all[nih..][0] == all[nih];
      var h := Gather(hn, now, all[nih..], file);
      var s := SortByTime(h);
      var kept := Filter(s, limit);
      KeptOf(h, s, limit);
      ConfiguredApart(all, nih, kept);
      var result := all[..nih] + kept;
      assert forall k :: k in all[nih..] ==> k in all;
      assert forall k :: k in result ==> k in list || fresh(k);
      Relink(result);
      assert list[nih..] == kept && list[..nih] == all[..nih];
      NewAndOld(hn, now, EntriesOf(all[nih..]), file, limit, EntriesOf(kept));
    }
  }

  lemma NewAndOld(hn: Option<string>, now: int, old_: seq<Entry>, file: seq<Entry>, limit: int, kept: seq<Entry>)
    requires Keeps(NewEntry(hn, now) + old_ + file, limit, kept)
    ensures hn.Some? ==>
              || (exists e :: e in kept && e.name == hn.value && e.time >= now)
              || (|kept| >= limit && forall e :: e in kept ==> e.time >= now)
    ensures forall e :: e in kept ==> (hn == Some(e.name) && e.time == now) || e in file || e in old_
  {
    hide Keeps, NewEntry;
    if hn.Some? {
      NewHostKept(hn.value, now, old_, file, limit, kept);
    }
    NothingElse(hn, now, old_, file, limit, kept);
  }

  lemma NewHostKept(name: string, now: int, old_: seq<Entry>, file: seq<Entry>, limit: int, kept: seq<Entry>)
    requires Keeps(NewEntry(Some(name), now) + old_ + file, limit, kept)
    ensures || (exists e :: e in kept && e.name == name && e.time >= now)
            || (|kept| >= limit && forall e :: e in kept ==> e.time >= now)
  {
    var x, candidates := Entry(name, now), NewEntry(Some(name), now) + old_ + file;
    assert candidates[0] == x;
    assert x in candidates;
    if Named(kept, name) {
      var i :| 0 <= i < |kept| && kept[i].name == name;
      assert kept[i] in kept;
    }
  }

  lemma NothingElse(hn: Option<string>, now: int, old_: seq<Entry>, file: seq<Entry>, limit: int, kept: seq<Entry>)
    requires Keeps(NewEntry(hn, now) + old_ + file, limit, kept)
    ensures forall e :: e in kept ==> (hn == Some(e.name) && e.time == now) || e in file || e in old_
  {
    forall e | e in kept ensures e in NewEntry(hn, now) || e in old_ || e in file {
      assert e in NewEntry(hn, now) + old_ + file;
    }
  }

  lemma KeptOf(h: seq<Host>, s: seq<Host>, limit: int)
    requires (forall k :: k in h <==> k in s) && NewestFirst(EntriesOf(s))
    ensures Keeps(EntriesOf(h), limit, Kept(EntriesOf(s), limit, []))
  {
    hide Keeps, NewestFirst;
    NothingKept(limit);
    assert [] + EntriesOf(s) == EntriesOf(s);
    KeptKeeps([], EntriesOf(s), limit, []);
    forall e
      ensures e in EntriesOf(s) <==> e in EntriesOf(h)
    {
      SameEntries(s, h, e);
      SameEntries(h, s, e);
    }
    SameCandidates(EntriesOf(s), EntriesOf(h), limit, Kept(EntriesOf(s), limit, []));
  }

  lemma SameEntries(s: seq<Host>, h: seq<Host>, e: Entry)
    requires forall k :: k in s ==> k in h
    ensures e in EntriesOf(s) ==> e in EntriesOf(h)
  {
    if e in EntriesOf(s) {
      var i :| 0 <= i < |s| && EntriesOf(s)[i] == e;
      assert s[i] in h;
      var j :| 0 <= j < |h| && h[j] == s[i];
      assert EntriesOf(h)[j] == e;
    }
  }

  lemma ConfiguredApart(all: seq<Host>, n: nat, kept: seq<Host>)
    requires AllDistinct(all) && AllDistinct(kept) && n <= |all|
    requires forall k :: k in kept ==> k in all[n..] || k !in all
    ensures AllDistinct(all[..n] + kept)
  {
    var s := all[..n] + kept;
    forall i, j | 0 <= i < n && n <= j < |s|
      ensures s[i] != s[j]
    {
      assert s[i] == all[i] && s[j] in kept;
      if s[j] in all[n..] {
        var k :| n <= k < |all| && all[k] == s[j];
      }
    }
  }
}
