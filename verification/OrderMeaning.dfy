/**
 What the orders that run over a range of cells mean for the fields of the screen: where Program
 Tab goes, what Repeat to Address fills, and when Erase Unprotected to Address erases exactly the
 unprotected cells on its way (Common/ctlr.c:523-539, 1477-1676).
 */
module OrderMeaning {
  import opened Bytes
  import opened Screen
  import opened DbcsLook
  import opened WriteOrders
  import opened Commands
  import opened DeviceInvariant

  // --- Program Tab ----------------------------------------------------------------------------

  // The first character of an unprotected field.
  predicate StartsUnprotected(cells: seq<Cell>, n: nat, b: nat)
    requires b < n <= |cells|
  {
    var p := cells[Dec(b, n)].fa;
    cells[b].fa == 0 && p != 0 && !IsProtected(p)
  }

  lemma {:induction false} NextFromNearest(cells: seq<Cell>, n: nat, a: nat, j: nat)
    requires a < n <= |cells| && j <= n
    ensures var r := NextUnprotectedFrom(cells, n, a, j);
            || (&& StartsUnprotected(cells, n, r) && Lap(a, r, n) <= j
                && forall k | 0 <= k < n && Lap(a, k, n) < Lap(a, r, n) ::
                     !StartsUnprotected(cells, n, k))
            || (r == 0 && forall k | 0 <= k < n && Lap(a, k, n) <= j ::
                            !StartsUnprotected(cells, n, k))
    decreases j
  {
    if j > 0 {
      var b := Inc(a, n);
      assert Dec(b, n) == a;
      assert Lap(a, b, n) == 1;
      assert forall k | 0 <= k < n :: Lap(a, k, n) == if k == b then 1 else Lap(b, k, n) + 1;
      if !StartsUnprotected(cells, n, b) {
        NextFromNearest(cells, n, b, j - 1);
      }
    }
  }

  /** The search gives the nearest start of an unprotected field behind `a`, going round the screen
      back to `a` itself if need be, and 0 only if that is the nearest or there is none. */
  lemma NextUnprotectedNearest(cells: seq<Cell>, n: nat, a: nat)
    requires a < n <= |cells|
    ensures var r := NextUnprotected(cells, n, a);
            if exists k :: 0 <= k < n && StartsUnprotected(cells, n, k) then
              && StartsUnprotected(cells, n, r)
              && forall k | 0 <= k < n && StartsUnprotected(cells, n, k) :: Lap(a, r, n) <= Lap(a, k, n)
            else r == 0
  {
    NextFromNearest(cells, n, a, n);
    assert forall k | 0 <= k < n :: Lap(a, k, n) <= n;
  }

  /** A tab goes forward to the next unprotected field, and to address 0 when there is none up to
      the end of the screen; except that it stays where it is when that is the start of the only
      unprotected field. */
  lemma TabTargetMeans(cfg: Cfg, w: Wr)
    requires Ready(cfg, w)
    ensures var t := TabTarget(cfg, w);
            && (t > w.addr ==>
                  && StartsUnprotected(w.cells, cfg.n, t)
                  && forall k | w.addr < k < t :: !StartsUnprotected(w.cells, cfg.n, k))
            && (t <= w.addr ==> forall k | w.addr < k < cfg.n :: !StartsUnprotected(w.cells, cfg.n, k))
            && (0 < t <= w.addr <==>
                  && t == w.addr > 0 && StartsUnprotected(w.cells, cfg.n, t)
                  && forall k | 0 <= k < cfg.n && k != t :: !StartsUnprotected(w.cells, cfg.n, k))
  {
    hide NextUnprotected, StartsUnprotected;
    NextUnprotectedNearest(w.cells, cfg.n, w.addr);
    var r := NextUnprotected(w.cells, cfg.n, w.addr);
    forall k | w.addr < k < cfg.n && (r <= w.addr || k < r)
      ensures !StartsUnprotected(w.cells, cfg.n, k)
    {
      assert Lap(w.addr, k, cfg.n) < Lap(w.addr, r, cfg.n);
    }
    if r == w.addr && StartsUnprotected(w.cells, cfg.n, r) {
      forall k | 0 <= k < cfg.n && k != r ensures !StartsUnprotected(w.cells, cfg.n, k) {
        assert Lap(w.addr, k, cfg.n) < Lap(w.addr, r, cfg.n);
      }
    }
  }

  // The first `m` cells from `a` on are those up to the next attribute or to `t`.
  predicate UpToAttribute(cells: seq<Cell>, n: nat, a: nat, t: nat, m: nat)
    requires a < n <= |cells| && t < n
  {
    && m <= Off(a, t, n)
    && (forall k :: 0 <= k < n && Off(a, k, n) < m ==> cells[k].fa == 0)
    && (m == Off(a, t, n) || cells[At(a, m, n)].fa != 0)
  }

  lemma {:induction false} NullCountMeans(cells: seq<Cell>, n: nat, a: nat, t: nat)
    requires a < n <= |cells| && t < n
    ensures UpToAttribute(cells, n, a, t, NullCount(cells, n, a, t))
    decreases Off(a, t, n)
  {
    if a != t && cells[a].fa == 0 {
      var b := Inc(a, n);
      NullCountMeans(cells, n, b, t);
      assert forall k | 0 <= k < n && k != a :: Off(a, k, n) == Off(b, k, n) + 1;
    }
  }

  /** Program Tab behind an unprotected attribute only steps over it.  Elsewhere it nulls the rest of
      the field up to its target, unless it follows a command or an order that is not a tab that
      nulled up to address 0; it nulls no attribute, and no cell behind one. */
  lemma TabNulls(cfg: Cfg, w: Wr, cp: nat)
    requires Ready(cfg, w)
    ensures var s, c := OrderPT(cfg, w, cp).w, w.cells[w.addr];
            if c.fa != 0 && !IsProtected(c.fa) then s.cells == w.cells && s.addr == Inc(w.addr, cfg.n)
            else if w.lastCmd && !w.lastZpt then s.cells == w.cells && s.addr == TabTarget(cfg, w)
            else
              && s.addr == TabTarget(cfg, w)
              && exists m :: UpToAttribute(w.cells, cfg.n, w.addr, s.addr, m)
                             && s.cells == NullRange(cfg, w.cells, w.addr, m)
  {
    hide TabTarget, NullCount, UpToAttribute, NullRange;
    NullCountMeans(w.cells, cfg.n, w.addr, TabTarget(cfg, w));
  }

  // --- Repeat to Address ------------------------------------------------------------------------

  /** A double-byte fill covers exactly the cells up to its target, in order, if and only if the
      screen has an even number of cells or the target lies ahead.  Otherwise it misses the target on
      the first lap, goes round once more, and replaces the whole screen, with the halves of the
      cells up to the target exchanged. */
  lemma DbcsFillMeans(cfg: Cfg, cells: seq<Cell>, a: nat, t: nat, c1: byte, c2: byte, cs: byte,
                      d: Defaults)
    requires a < cfg.n <= |cells| && t < cfg.n && (t + a) % 2 == 0
    ensures var l, r := Lap(a, t, cfg.n),
                        Fill(cfg, cells, a, DbcsFillCount(cfg.n, a, t), c1, c2, cs, d);
            && (DbcsFillCount(cfg.n, a, t) == l <==> cfg.n % 2 == 0 || a < t)
            && (forall k :: cfg.n <= k < |cells| ==> r[k] == cells[k])
            && (forall k :: 0 <= k < cfg.n ==>
                  var o := Off(a, k, cfg.n);
                  r[k] == if cfg.n % 2 == 0 || a < t then
                            if o >= l then cells[k]
                            else Stored(cfg.mode3279, cells[k], if o % 2 == 0 then c1 else c2, cs, d)
                          else Stored(cfg.mode3279, cells[k],
                                      if (o % 2 == 0) == (o < l) then c2 else c1, cs, d))
  {
    hide Fill, Stored;
    FillParity(a, t, cfg.n);
    var m := DbcsFillCount(cfg.n, a, t);
    forall k | 0 <= k < cfg.n {
      FilledCell(cfg, cells, a, m, c1, c2, cs, d, k);
    }
    FilledBeyond(cfg, cells, a, m, c1, c2, cs, d);
  }

  lemma FillParity(a: nat, t: nat, n: nat)
    requires a < n && t < n && (t + a) % 2 == 0
    ensures Lap(a, t, n) % 2 == 0 <==> n % 2 == 0 || a < t
  {
  }

  // One cell of a fill: what is stored last counts.
  lemma FilledCell(cfg: Cfg, cells: seq<Cell>, a: nat, m: nat, c1: byte, c2: byte, cs: byte, d: Defaults, k: nat)
    requires a < cfg.n <= |cells| && k < cfg.n
    ensures var o, c := Off(a, k, cfg.n), Fill(cfg, cells, a, m, c1, c2, cs, d)[k];
            && (o >= m ==> c == cells[k])
            && (o < m <= cfg.n ==> c == Stored(cfg.mode3279, cells[k], if o % 2 == 0 then c1 else c2, cs, d))
            && (m > cfg.n && cfg.n % 2 == 1 ==>
                  c == Stored(cfg.mode3279, cells[k],
                              if (o % 2 == 0) == (o < m - cfg.n) then c2 else c1, cs, d))
  {
    hide Stored;
  }

  lemma FilledBeyond(cfg: Cfg, cells: seq<Cell>, a: nat, m: nat, c1: byte, c2: byte, cs: byte, d: Defaults)
    requires a < cfg.n <= |cells|
    ensures forall k :: cfg.n <= k < |cells| ==> Fill(cfg, cells, a, m, c1, c2, cs, d)[k] == cells[k]
  {
  }

  // --- Erase Unprotected to Address -------------------------------------------------------------

  // Every attribute there is has set the formatted flag.
  predicate FlagHolds(cfg: Cfg, w: Wr)
    requires Ready(cfg, w)
  {
    HasField(w.cells, cfg.n) ==> w.formatted
  }

  /** The attribute that the interpreter carries along is as protected as the one that governs the
      buffer address.  Behind an attribute it does not matter. */
  predicate Tracks(cfg: Cfg, w: Wr)
    requires Ready(cfg, w)
  {
    && FlagHolds(cfg, w)
    && (w.cells[w.addr].fa == 0 ==> IsProtected(w.curFa) == IsProtected(AttrAt(cfg, w)))
  }

  lemma {:induction false} LongerSearch(cells: seq<Cell>, n: nat, a: nat, i: nat, j: nat)
    requires a < n <= |cells| && i <= j && FindBack(cells, n, a, i) >= 0
    ensures FindBack(cells, n, a, j) == FindBack(cells, n, a, i)
    decreases i
  {
    if cells[a].fa == 0 {
      LongerSearch(cells, n, Dec(a, n), i - 1, j - 1);
    }
  }

  // A cell without an attribute belongs to the field of the cell in front of it.
  lemma SameFieldAsBefore(cells: seq<Cell>, n: nat, formatted: bool, a: nat)
    requires a < n <= |cells| && cells[a].fa == 0
    ensures FieldAttr(cells, n, formatted, a) == FieldAttr(cells, n, formatted, Dec(a, n))
  {
    var b := Dec(a, n);
    var r := FindBack(cells, n, b, n - 1);
    assert FindBack(cells, n, a, n) == r;
    if r >= 0 {
      LongerSearch(cells, n, b, n - 1, n);
    } else {
      FindBackComplete(cells, n, a);
      FindBackComplete(cells, n, b);
    }
  }

  lemma AttributeGoverns(cells: seq<Cell>, n: nat, a: nat)
    requires a < n <= |cells| && cells[a].fa != 0
    ensures FieldAttr(cells, n, true, a) == cells[a].fa
  {
  }

  // No attribute on the way from `a` to the cell `o` steps ahead.
  predicate Unbroken(cells: seq<Cell>, n: nat, a: nat, o: nat)
    requires a < n <= |cells| && o < n
    decreases o
  {
    cells[At(a, o, n)].fa == 0 && (o == 0 || Unbroken(cells, n, a, o - 1))
  }

  // The attribute in force is the one carried along up to the first attribute on the way, and the
  // one that governs the cell after that.
  lemma {:induction false} RunningAttrMeans(cells: seq<Cell>, n: nat, formatted: bool, a: nat, o: nat, cur: byte)
    requires a < n <= |cells| && o < n && (HasField(cells, n) ==> formatted)
    ensures RunningAttr(cells, n, a, o, cur) ==
            if Unbroken(cells, n, a, o) then cur else FieldAttr(cells, n, formatted, At(a, o, n))
    ensures Unbroken(cells, n, a, o) ==>
              && cells[a].fa == 0
              && FieldAttr(cells, n, formatted, At(a, o, n)) == FieldAttr(cells, n, formatted, a)
    decreases o
  {
    hide FieldAttr;
    var b := At(a, o, n);
    if cells[b].fa != 0 {
      AttributeGoverns(cells, n, b);
    } else if o > 0 {
      SameFieldAsBefore(cells, n, formatted, b);
      assert Dec(b, n) == At(a, o - 1, n);
      RunningAttrMeans(cells, n, formatted, a, o - 1, cur);
    }
  }

  function ErasedChar(c: Cell): Cell { WithChar(c, EBC_NULL, CS_BASE) }

  // A character in an unprotected field.
  predicate Erasable(cfg: Cfg, w: Wr, k: nat)
    requires Ready(cfg, w) && k < cfg.n
  {
    w.cells[k].fa == 0 && !IsProtected(FieldAttr(w.cells, cfg.n, w.formatted, k))
  }

  // What the order is for: the unprotected cells on the way are erased, and no others.
  predicate ErasedProperly(cfg: Cfg, w: Wr, t: nat, after: seq<Cell>)
    requires Ready(cfg, w) && t < cfg.n && |after| == |w.cells|
  {
    forall k :: 0 <= k < |after| ==>
      after[k] == if k < cfg.n && Off(w.addr, k, cfg.n) < Lap(w.addr, t, cfg.n) && Erasable(cfg, w, k)
                  then ErasedChar(w.cells[k]) else w.cells[k]
  }

  // The cells before the first attribute on the way are erased already.
  predicate NothingToLose(cfg: Cfg, w: Wr, t: nat)
    requires Ready(cfg, w) && t < cfg.n
  {
    forall k :: 0 <= k < cfg.n && Off(w.addr, k, cfg.n) < Lap(w.addr, t, cfg.n)
                && Unbroken(w.cells, cfg.n, w.addr, Off(w.addr, k, cfg.n)) ==>
      w.cells[k] == ErasedChar(w.cells[k])
  }

  lemma ErasedCell(cfg: Cfg, w: Wr, t: nat, k: nat)
    requires Ready(cfg, w) && FlagHolds(cfg, w) && t < cfg.n && k < |w.cells|
    ensures var r, o := EraseRange(cfg, w.cells, w.addr, Lap(w.addr, t, cfg.n), w.curFa)[k],
                        if k < cfg.n then Off(w.addr, k, cfg.n) else 0;
            r == if k >= cfg.n || o >= Lap(w.addr, t, cfg.n) then w.cells[k]
                 else if if Unbroken(w.cells, cfg.n, w.addr, o) then !IsProtected(w.curFa)
                         else Erasable(cfg, w, k)
                 then ErasedChar(w.cells[k]) else w.cells[k]
    ensures k < cfg.n && Unbroken(w.cells, cfg.n, w.addr, Off(w.addr, k, cfg.n)) ==>
              && w.cells[k].fa == 0 == w.cells[w.addr].fa
              && FieldAttr(w.cells, cfg.n, w.formatted, k) == AttrAt(cfg, w)
  {
    hide FieldAttr, IsProtected, RunningAttr;
    if k < cfg.n {
      RunningAttrMeans(w.cells, cfg.n, w.formatted, w.addr, Off(w.addr, k, cfg.n), w.curFa);
    }
  }

  /** Erase Unprotected to Address erases exactly the unprotected cells on its way if and only if the
      attribute carried along tracks the buffer address, or the cells before the first attribute
      are erased already. */
  lemma EraseUnprotectedExact(cfg: Cfg, w: Wr, buf: seq<byte>, cp: nat)
    requires Ready(cfg, w) && FlagHolds(cfg, w) && OrderEUA(cfg, w, buf, cp).ok
    ensures var s, t := OrderEUA(cfg, w, buf, cp).w, DecodeAddr(buf[cp + 1], buf[cp + 2]);
            && s.addr == t
            && (ErasedProperly(cfg, w, t, s.cells) <==> Tracks(cfg, w) || NothingToLose(cfg, w, t))
  {
    hide FieldAttr, IsProtected, RunningAttr, DecodeAddr, EraseRange, LookAt, Unbroken, ErasedChar, FlagHolds;
    var t := DecodeAddr(buf[cp + 1], buf[cp + 2]);
    var after := EraseRange(cfg, w.cells, w.addr, Lap(w.addr, t, cfg.n), w.curFa);
    forall k | 0 <= k < |w.cells| { ErasedCell(cfg, w, t, k); }
    if ErasedProperly(cfg, w, t, after) && !Tracks(cfg, w) {
      forall k | 0 <= k < cfg.n && Off(w.addr, k, cfg.n) < Lap(w.addr, t, cfg.n)
                 && Unbroken(w.cells, cfg.n, w.addr, Off(w.addr, k, cfg.n))
        ensures w.cells[k] == ErasedChar(w.cells[k])
      {
        assert Erasable(cfg, w, k) <==> !IsProtected(AttrAt(cfg, w));
      }
    }
  }

  // --- Which orders keep track of the attribute ------------------------------------------------

  // The orders after which the attribute in force is looked up or set.
  predicate Settles(c: byte)
  {
    c in {ORDER_SF, ORDER_SFE, ORDER_SBA, ORDER_RA, ORDER_EUA, ORDER_GE}
  }

  predicate SameAttributes(n: nat, before: seq<Cell>, after: seq<Cell>)
    requires n <= |before| == |after|
  {
    forall k :: 0 <= k < n ==> after[k].fa == before[k].fa
  }

  predicate NoNewAttributes(n: nat, before: seq<Cell>, after: seq<Cell>)
    requires n <= |before| == |after|
  {
    forall k :: 0 <= k < n && before[k].fa == 0 ==> after[k].fa == 0
  }

  // The order settles the attribute, or it is no tab, removes and changes no attribute, and does not
  // step over one.
  predicate KeepsTrack(cfg: Cfg, w: Wr, buf: seq<byte>, cp: nat)
    requires Ready(cfg, w) && cp < |buf|
  {
    var s := Order(cfg, w, buf, cp).w;
    || Settles(buf[cp])
    || (&& buf[cp] != ORDER_PT
        && (s.addr == w.addr || w.cells[w.addr].fa == 0)
        && SameAttributes(cfg.n, w.cells, s.cells))
  }

  lemma FlagStays(cfg: Cfg, w: Wr, s: Wr)
    requires Ready(cfg, w) && Ready(cfg, s) && |s.cells| == |w.cells| && FlagHolds(cfg, w)
    requires NoNewAttributes(cfg.n, w.cells, s.cells) && s.formatted == w.formatted
    ensures FlagHolds(cfg, s)
  {
    if HasField(s.cells, cfg.n) {
      var k :| 0 <= k < cfg.n && s.cells[k].fa != 0;
      assert w.cells[k].fa != 0;
    }
  }

  // The first character of a field, right after its attribute was set.
  lemma FieldBegun(cfg: Cfg, w: Wr)
    requires Ready(cfg, w) && w.formatted
    requires w.cells[w.addr].fa != 0 && IsProtected(w.cells[w.addr].fa) == IsProtected(w.curFa)
    ensures Tracks(cfg, Advance(cfg, w))
  {
    var s := Advance(cfg, w);
    AttributeGoverns(w.cells, cfg.n, w.addr);
    if w.cells[s.addr].fa == 0 {
      assert Dec(s.addr, cfg.n) == w.addr;
      SameFieldAsBefore(w.cells, cfg.n, true, s.addr);
    }
  }

  lemma {:induction false} SfePairsField(cfg: Cfg, w: Wr, buf: seq<byte>, p: nat, na: nat, e: Defaults, any: bool)
    requires Ready(cfg, w)
    requires any ==> w.formatted && w.cells[w.addr].fa == Printable(w.curFa)
    ensures var r := SfePairs(cfg, w, buf, p, na, e, any);
            r.any ==> r.w.formatted && r.w.cells[r.w.addr].fa == Printable(r.w.curFa)
    decreases na
  {
    hide Printable, Gathered;
    if na > 0 && p + 1 < |buf| {
      if buf[p] == XA_3270 {
        SfePairsField(cfg, StartField(cfg, w, buf[p + 1]), buf, p + 2, na - 1, e, true);
      } else {
        SfePairsField(cfg, w, buf, p + 2, na - 1, Gathered(cfg, e, buf[p], buf[p + 1]), any);
      }
    }
  }

  lemma SfeTracks(cfg: Cfg, w: Wr, buf: seq<byte>, cp: nat)
    requires Ready(cfg, w) && OrderSFE(cfg, w, buf, cp).ok
    ensures Tracks(cfg, OrderSFE(cfg, w, buf, cp).w)
  {
    hide FieldAttr, IsProtected, Printable, SfePairs, Tracks;
    var r := SfePairs(cfg, w, buf, cp + 2, buf[cp + 1], NO_DEFAULTS, false);
    SfePairsField(cfg, w, buf, cp + 2, buf[cp + 1], NO_DEFAULTS, false);
    var w1 := if r.any then r.w else StartField(cfg, r.w, 0);
    var c := WithExtended(cfg.mode3279, w1.cells[w1.addr].(cs := r.efa.cs), r.efa);
    FieldBegun(cfg, Flags(Update(w1, c), true));
  }

  lemma SfTracks(cfg: Cfg, w: Wr, buf: seq<byte>, cp: nat)
    requires Ready(cfg, w) && OrderSF(cfg, w, buf, cp).ok
    ensures Tracks(cfg, OrderSF(cfg, w, buf, cp).w)
  {
    hide FieldAttr, IsProtected, Printable, Tracks;
    FieldBegun(cfg, Flags(StartField(cfg, w, buf[cp + 1]), true));
  }

  lemma RaTracks(cfg: Cfg, w: Wr, buf: seq<byte>, cp: nat)
    requires Ready(cfg, w) && FlagHolds(cfg, w) && OrderRA(cfg, w, buf, cp).ok
    ensures Tracks(cfg, OrderRA(cfg, w, buf, cp).w)
  {
    hide FieldAttr, IsProtected, LookAt, DecodeAddr, DbcsFillCount, Fill;
    var s := OrderRA(cfg, w, buf, cp).w;
    assert NoNewAttributes(cfg.n, w.cells, s.cells) by {
      forall m, c1, c2, cs ensures NoNewAttributes(cfg.n, w.cells, Fill(cfg, w.cells, w.addr, m, c1, c2, cs, w.d)) {
        FillRemoves(cfg, w.cells, w.addr, m, c1, c2, cs, w.d);
      }
    }
    FlagStays(cfg, w, s);
  }

  lemma FillRemoves(cfg: Cfg, cells: seq<Cell>, a: nat, m: nat, c1: byte, c2: byte, cs: byte, d: Defaults)
    requires a < cfg.n <= |cells|
    ensures NoNewAttributes(cfg.n, cells, Fill(cfg, cells, a, m, c1, c2, cs, d))
  {
  }

  lemma EuaTracks(cfg: Cfg, w: Wr, buf: seq<byte>, cp: nat)
    requires Ready(cfg, w) && FlagHolds(cfg, w) && OrderEUA(cfg, w, buf, cp).ok
    ensures Tracks(cfg, OrderEUA(cfg, w, buf, cp).w)
  {
    hide FieldAttr, IsProtected, LookAt, DecodeAddr, RunningAttr;
    FlagStays(cfg, w, OrderEUA(cfg, w, buf, cp).w);
  }

  lemma GeTracks(cfg: Cfg, w: Wr, buf: seq<byte>, cp: nat)
    requires Ready(cfg, w) && FlagHolds(cfg, w) && OrderGE(cfg, w, buf, cp).ok
    ensures Tracks(cfg, OrderGE(cfg, w, buf, cp).w)
  {
    hide FieldAttr, IsProtected;
    FlagStays(cfg, w, OrderGE(cfg, w, buf, cp).w);
  }

  lemma SettledTracks(cfg: Cfg, w: Wr, buf: seq<byte>, cp: nat)
    requires Ready(cfg, w) && FlagHolds(cfg, w) && cp < |buf|
    requires Settles(buf[cp]) && Order(cfg, w, buf, cp).ok
    ensures Tracks(cfg, Order(cfg, w, buf, cp).w)
  {
    hide Tracks, OrderSF, OrderSFE, OrderRA, OrderEUA, OrderGE, FlagHolds;
    match buf[cp]
    case 0x1D => SfTracks(cfg, w, buf, cp);
    case 0x29 => SfeTracks(cfg, w, buf, cp);
    case 0x3C => RaTracks(cfg, w, buf, cp);
    case 0x12 => EuaTracks(cfg, w, buf, cp);
    case 0x08 => GeTracks(cfg, w, buf, cp);
    case _ => SbaTracks(cfg, w, buf, cp);
  }

  lemma SbaTracks(cfg: Cfg, w: Wr, buf: seq<byte>, cp: nat)
    requires Ready(cfg, w) && FlagHolds(cfg, w) && OrderSBA(cfg, w, buf, cp).ok
    ensures Tracks(cfg, OrderSBA(cfg, w, buf, cp).w)
  {
    hide FieldAttr, IsProtected;
  }

  lemma SameFieldAttr(c1: seq<Cell>, c2: seq<Cell>, n: nat, formatted: bool, a: nat)
    requires a < n <= |c1| == |c2| && SameAttributes(n, c1, c2)
    ensures FieldAttr(c1, n, formatted, a) == FieldAttr(c2, n, formatted, a)
  {
    SameFindBack(c1, c2, n, a, n);
  }

  lemma StillTracks(cfg: Cfg, w: Wr, s: Wr)
    requires Ready(cfg, w) && Ready(cfg, s) && |s.cells| == |w.cells| && Tracks(cfg, w)
    requires SameAttributes(cfg.n, w.cells, s.cells)
    requires s.formatted == w.formatted && s.curFa == w.curFa
    requires s.addr == w.addr || (s.addr == Inc(w.addr, cfg.n) && w.cells[w.addr].fa == 0)
    ensures Tracks(cfg, s)
  {
    hide FieldAttr, IsProtected, FlagHolds;
    FlagStays(cfg, w, s);
    SameFieldAttr(w.cells, s.cells, cfg.n, w.formatted, s.addr);
    if s.addr != w.addr && w.cells[s.addr].fa == 0 {
      assert Dec(s.addr, cfg.n) == w.addr;
      SameFieldAsBefore(w.cells, cfg.n, w.formatted, s.addr);
    }
  }

  lemma PlaceTracks(cfg: Cfg, w: Wr, ec: byte, cs: byte)
    requires Ready(cfg, w) && Tracks(cfg, w) && w.cells[w.addr].fa == 0
    ensures Tracks(cfg, Place(cfg, w, ec, cs))
    ensures SameAttributes(cfg.n, w.cells, Place(cfg, w, ec, cs).cells)
  {
    hide Tracks;
    StillTracks(cfg, w, Place(cfg, w, ec, cs));
  }

  lemma PlaceRemoves(cfg: Cfg, w: Wr, ec: byte, cs: byte)
    requires Ready(cfg, w)
    ensures Place(cfg, w, ec, cs).cells[w.addr].fa == 0
    ensures Place(cfg, w, ec, cs).addr == Inc(w.addr, cfg.n)
  {
  }

  lemma PlaceTwoTracks(cfg: Cfg, w: Wr, c1: byte, c2: byte)
    requires Ready(cfg, w) && Tracks(cfg, w) && w.cells[w.addr].fa == 0
    requires SameAttributes(cfg.n, w.cells, PlaceTwo(cfg, w, c1, c2).cells)
    ensures Tracks(cfg, PlaceTwo(cfg, w, c1, c2))
  {
    hide Tracks, Place;
    PlaceTracks(cfg, w, c1, w.d.cs);
    PlaceRemoves(cfg, w, c1, w.d.cs);
    var w1 := Place(cfg, w, c1, w.d.cs);
    PlaceRemoves(cfg, w1, c2, w.d.cs);
    PlaceTracks(cfg, w1, c2, w.d.cs);
  }

  lemma FlagsTrack(cfg: Cfg, w: Wr, lastCmd: bool)
    requires Ready(cfg, w)
    ensures Tracks(cfg, Flags(w, lastCmd)) <==> Tracks(cfg, w)
  {
  }

  lemma PlacedTracks(cfg: Cfg, w: Wr, buf: seq<byte>, cp: nat)
    requires Ready(cfg, w) && Tracks(cfg, w) && cp < |buf| && w.cells[w.addr].fa == 0
    requires !Settles(buf[cp]) && buf[cp] !in {ORDER_PT, ORDER_IC, ORDER_SA, ORDER_MF}
    requires Order(cfg, w, buf, cp).ok
    requires SameAttributes(cfg.n, w.cells, Order(cfg, w, buf, cp).w.cells)
    ensures Tracks(cfg, Order(cfg, w, buf, cp).w)
  {
    hide Tracks, Place, PlaceTwo, LookAt, FindField, Matched, SameAttributes;
    forall ec, cs ensures Tracks(cfg, Flags(Place(cfg, w, ec, cs), true))
                          && Tracks(cfg, Flags(Place(cfg, w, ec, cs), false)) {
      PlaceTracks(cfg, w, ec, cs);
      FlagsTrack(cfg, Place(cfg, w, ec, cs), true);
      FlagsTrack(cfg, Place(cfg, w, ec, cs), false);
    }
    forall c1, c2 | SameAttributes(cfg.n, w.cells, PlaceTwo(cfg, w, c1, c2).cells)
      ensures Tracks(cfg, Flags(PlaceTwo(cfg, w, c1, c2), false))
    {
      PlaceTwoTracks(cfg, w, c1, c2);
      FlagsTrack(cfg, PlaceTwo(cfg, w, c1, c2), false);
    }
    FlagsTrack(cfg, w, true);
  }

  // The other orders do not touch the attribute carried along.
  lemma CarriedAlong(cfg: Cfg, w: Wr, buf: seq<byte>, cp: nat)
    requires Ready(cfg, w) && cp < |buf| && !Settles(buf[cp])
    ensures var s := Order(cfg, w, buf, cp).w; s.curFa == w.curFa && s.formatted == w.formatted
  {
    hide Place, LookAt, FindField, Matched, TabTarget, NullCount, NullRange, MfPairs;
    forall v: Wr, ec, cs | Ready(cfg, v) && v.curFa == w.curFa && v.formatted == w.formatted
      ensures var r := Place(cfg, v, ec, cs); r.curFa == w.curFa && r.formatted == w.formatted
    {
      PlaceCarries(cfg, v, ec, cs);
    }
  }

  lemma PlaceCarries(cfg: Cfg, w: Wr, ec: byte, cs: byte)
    requires Ready(cfg, w)
    ensures var r := Place(cfg, w, ec, cs); r.curFa == w.curFa && r.formatted == w.formatted
  {
  }

  lemma StaysPut(cfg: Cfg, w: Wr, buf: seq<byte>, cp: nat)
    requires Ready(cfg, w) && cp < |buf| && buf[cp] in {ORDER_IC, ORDER_SA, ORDER_MF}
    requires w.cells[w.addr].fa == 0
    ensures Order(cfg, w, buf, cp).w.addr == w.addr
  {
  }

  lemma TracksFlag(cfg: Cfg, w: Wr)
    requires Ready(cfg, w) && Tracks(cfg, w)
    ensures FlagHolds(cfg, w)
  {
  }

  lemma OrderTracks(cfg: Cfg, w: Wr, buf: seq<byte>, cp: nat)
    requires Ready(cfg, w) && Tracks(cfg, w) && cp < |buf|
    requires KeepsTrack(cfg, w, buf, cp) && Order(cfg, w, buf, cp).ok
    ensures Tracks(cfg, Order(cfg, w, buf, cp).w)
  {
    hide Tracks, Order, SameAttributes, FlagHolds;
    var s := Order(cfg, w, buf, cp).w;
    if Settles(buf[cp]) {
      TracksFlag(cfg, w);
      SettledTracks(cfg, w, buf, cp);
    } else {
      CarriedAlong(cfg, w, buf, cp);
      if s.addr == w.addr {
        StillTracks(cfg, w, s);
      } else {
        if buf[cp] in {ORDER_IC, ORDER_SA, ORDER_MF} {
          StaysPut(cfg, w, buf, cp);
        }
        PlacedTracks(cfg, w, buf, cp);
      }
    }
  }

  // Every order of a run keeps track.
  predicate RunKeepsTrack(cfg: Cfg, w: Wr, buf: seq<byte>, cp: nat)
    requires Ready(cfg, w)
    decreases |buf| - cp
  {
    cp < |buf| ==>
      && KeepsTrack(cfg, w, buf, cp)
      && var s := Order(cfg, w, buf, cp);
         s.ok ==> RunKeepsTrack(cfg, s.w, buf, s.cp)
  }

  /** Over a whole run without tabs, in which no attribute is removed, changed or stepped over except
      by orders that settle the attribute in force, the attribute carried along tracks the buffer
      address. */
  lemma {:induction false} RunTracks(cfg: Cfg, w: Wr, buf: seq<byte>, cp: nat)
    requires Ready(cfg, w) && Tracks(cfg, w) && RunKeepsTrack(cfg, w, buf, cp)
    requires Run(cfg, w, buf, cp).ok
    ensures Tracks(cfg, Run(cfg, w, buf, cp).w)
    decreases |buf| - cp
  {
    hide Tracks, Order, KeepsTrack;
    if cp < |buf| {
      OrderTracks(cfg, w, buf, cp);
      var s := Order(cfg, w, buf, cp);
      RunTracks(cfg, s.w, buf, s.cp);
    }
  }

  // A write starts on track.
  lemma WriteStartTracks(m: Model, v: Dev, wcc: byte)
    requires Invariant(m, v)
    ensures Tracks(WriteCfg(m, v), WriteBegin(m, v, wcc))
  {
    hide FieldAttr, IsProtected, WithoutMdt;
    var cfg, w := WriteCfg(m, v), WriteBegin(m, v, wcc);
    FlagStays(cfg, w.(cells := v.cells), w);
  }

  /** A tab leaves the attribute of the field from which it came in force: at the start of an
      unprotected field it tracks the buffer address if and only if that attribute was unprotected. */
  lemma TabTracksIff(cfg: Cfg, w: Wr, cp: nat)
    requires Ready(cfg, w) && FlagHolds(cfg, w)
    requires var s := OrderPT(cfg, w, cp).w; StartsUnprotected(w.cells, cfg.n, s.addr)
    ensures Tracks(cfg, OrderPT(cfg, w, cp).w) <==> !IsProtected(w.curFa)
  {
    hide FindField, IsProtected, NextUnprotected;
    var s := OrderPT(cfg, w, cp).w;
    TabNulls(cfg, w, cp);
    TabKeepsAttributes(cfg, w, cp);
    SameFieldAttr(w.cells, s.cells, cfg.n, w.formatted, s.addr);
    SameFieldAsBefore(w.cells, cfg.n, w.formatted, s.addr);
    AttributeGoverns(w.cells, cfg.n, Dec(s.addr, cfg.n));
    FlagStays(cfg, w, s);
  }

  lemma TabKeepsAttributes(cfg: Cfg, w: Wr, cp: nat)
    requires Ready(cfg, w)
    ensures var s := OrderPT(cfg, w, cp).w;
            s.curFa == w.curFa && s.formatted == w.formatted && SameAttributes(cfg.n, w.cells, s.cells)
  {
    hide TabTarget, NullCount;
    NullCountMeans(w.cells, cfg.n, w.addr, TabTarget(cfg, w));
  }

  /** A character stored over an attribute leaves that attribute in force: behind it the attribute
      carried along tracks the buffer address if and only if it is as protected as the field in
      front, which now goes on. */
  lemma OverwriteTracksIff(cfg: Cfg, w: Wr, ec: byte, cs: byte)
    requires Ready(cfg, w) && FlagHolds(cfg, w) && w.cells[Inc(w.addr, cfg.n)].fa == 0
    ensures var s := Place(cfg, w, ec, cs);
            Tracks(cfg, s) <==>
              IsProtected(w.curFa) == IsProtected(FieldAttr(s.cells, cfg.n, w.formatted, Dec(w.addr, cfg.n)))
  {
    hide FieldAttr, IsProtected, FlagHolds;
    var s := Place(cfg, w, ec, cs);
    FlagStays(cfg, w, s);
    PlaceRemoves(cfg, w, ec, cs);
    assert Dec(s.addr, cfg.n) == w.addr;
    SameFieldAsBefore(s.cells, cfg.n, w.formatted, s.addr);
    SameFieldAsBefore(s.cells, cfg.n, w.formatted, w.addr);
  }
}
