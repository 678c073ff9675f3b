/**
 What each order of the data stream does, told cell by cell: when it is accepted, where the buffer
 address goes, which cells change and what they hold afterwards (Common/ctlr.c:1425-2110; section 4.3
 of GA23-0059).
 */
module OrderEffects {
  import opened Bytes
  import opened Screen
  import opened DbcsLook
  import opened WriteOrders
  import opened OrderMeaning

  // A colour as a cell keeps it: 0, or one of F0 to FF; without colour support the old one stays.
  function Shade(mode3279: bool, old_: byte, v: byte): byte
  {
    if !mode3279 then old_ else if v >= 0xF0 then v else 0
  }

  // The cell shows a character with the attributes `d`.
  predicate Shows(mode3279: bool, before: Cell, after: Cell, ec: byte, cs: byte, d: Defaults)
  {
    && after.ec == ec && after.cs == cs && after.fa == 0 && after.ucs4 == 0 && after.db == before.db
    && after.fg == Shade(mode3279, before.fg, d.fg) && after.bg == Shade(mode3279, before.bg, d.bg)
    && after.gr == d.gr && after.ic == d.ic
  }

  // The cell holds a field attribute: the printable form of `v`, with a null as its character.
  predicate Begins(before: Cell, after: Cell, v: byte)
  {
    && after.ec == 0 && after.ucs4 == 0 && after.db == before.db
    && after.fa >= 0xC0 && after.fa / 4 % 16 == v / 4 % 16 && after.fa / 2 % 2 == 0 && after.fa % 2 == v % 2
  }

  // No cell but the one at `a` is different.
  predicate OnlyAt(a: nat, before: seq<Cell>, after: seq<Cell>)
  {
    |before| == |after| && forall k :: 0 <= k < |before| && k != a ==> after[k] == before[k]
  }

  // The rest of the state: the attributes of later characters, the formatted flag and the cursor.
  predicate SameRest(w: Wr, s: Wr)
  {
    s.d == w.d && s.formatted == w.formatted && s.icAddr == w.icAddr
  }

  lemma PrintableBits(v: byte)
    ensures var r := Printable(v); r / 4 % 16 == v / 4 % 16 && r / 2 % 2 == 0 && r % 2 == v % 2
  {
    var m, b := v % 64 / 4, v % 2;
    SplitAttr(v, m);
    assert Printable(v) == 4 * (48 + m) + b;
    JoinedAttr(m, b);
  }

  lemma SplitAttr(v: byte, m: int)
    requires m == v % 64 / 4
    ensures 0 <= m < 16 && v / 4 % 16 == m && v % 64 / 4 * 4 == 4 * m
  {
    var h: int := v / 64;
    assert v / 4 == 16 * h + m;
  }

  lemma JoinedAttr(m: int, b: int)
    requires 0 <= m < 16 && 0 <= b < 2
    ensures var r := 4 * (48 + m) + b; r / 4 % 16 == m && r / 2 % 2 == 0 && r % 2 == b
  {
    var r := 4 * (48 + m) + b;
    assert r / 4 == 48 + m;
    assert r / 2 == 2 * (48 + m);
  }

  // Which order is which.
  lemma Dispatch(cfg: Cfg, w: Wr, buf: seq<byte>, cp: nat)
    requires Ready(cfg, w) && cp < |buf|
    ensures var c, s := buf[cp], Order(cfg, w, buf, cp);
            && (c == 0x1D ==> s == OrderSF(cfg, w, buf, cp)) && (c == 0x11 ==> s == OrderSBA(cfg, w, buf, cp))
            && (c == 0x13 ==> s == OrderIC(w, cp)) && (c == 0x05 ==> s == OrderPT(cfg, w, cp))
            && (c == 0x3C ==> s == OrderRA(cfg, w, buf, cp)) && (c == 0x12 ==> s == OrderEUA(cfg, w, buf, cp))
            && (c == 0x08 ==> s == OrderGE(cfg, w, buf, cp)) && (c == 0x2C ==> s == OrderMF(cfg, w, buf, cp))
            && (c == 0x29 ==> s == OrderSFE(cfg, w, buf, cp)) && (c == 0x28 ==> s == OrderSA(cfg, w, buf, cp))
            && (c in {0x3F, 0x1C, 0x1E, 0x0C, 0x0D, 0x15, 0x19, 0x25, 0xFF} ==> s == OrderControl(cfg, w, buf, cp))
            && (c == 0x0E ==> s == OrderSO(cfg, w, cp)) && (c == 0x0F ==> s == OrderSI(cfg, w, cp))
            && (c == 0 ==> s == OrderNull(cfg, w, buf, cp))
            && ((c !in {0x00, 0x05, 0x08, 0x0C, 0x0D, 0x0E, 0x0F, 0x11, 0x12, 0x13, 0x15, 0x19, 0x1C, 0x1D, 0x1E,
                        0x25, 0x28, 0x29, 0x2C, 0x3C, 0x3F, 0xFF}) ==> s == OrderChar(cfg, w, buf, cp))
  {
    hide OrderSF, OrderSBA, OrderIC, OrderPT, OrderRA, OrderEUA, OrderGE, OrderMF, OrderSFE, OrderSA, OrderControl,
         OrderSO, OrderSI, OrderNull, OrderChar;
  }

  // --- SF, SBA, IC, GE --------------------------------------------------------------------------

  lemma StartField(cfg: Cfg, w: Wr, buf: seq<byte>, cp: nat)
    requires Ready(cfg, w) && cp < |buf| && buf[cp] == 0x1D
    ensures var s := Order(cfg, w, buf, cp);
            && (s.ok <==> cp + 1 < |buf|)
            && (s.ok ==>
                  var c, c1 := w.cells[w.addr], s.w.cells[w.addr];
                  && Begins(c, c1, buf[cp + 1]) && c1.cs == 0 && c1.gr == 0 && c1.ic == 0
                  && c1.fg == Shade(cfg.mode3279, c.fg, 0) && c1.bg == Shade(cfg.mode3279, c.bg, 0)
                  && OnlyAt(w.addr, w.cells, s.w.cells)
                  && s.w.addr == (w.addr + 1) % cfg.n && s.cp == cp + 2
                  && s.w.formatted && s.w.d == w.d && s.w.icAddr == w.icAddr)
  {
    hide Order, WriteOrders.StartField, Begins, OnlyAt;
    Dispatch(cfg, w, buf, cp);
    if cp + 1 < |buf| {
      FieldStarted(cfg, w, buf[cp + 1]);
      IncIsRemainder(w.addr, cfg.n);
    }
  }

  lemma FieldStarted(cfg: Cfg, w: Wr, v: byte)
    requires Ready(cfg, w)
    ensures var s := WriteOrders.StartField(cfg, w, v);
            var c, c1 := w.cells[w.addr], s.cells[w.addr];
            && Begins(c, c1, v) && c1.cs == 0 && c1.gr == 0 && c1.ic == 0
            && c1.fg == Shade(cfg.mode3279, c.fg, 0) && c1.bg == Shade(cfg.mode3279, c.bg, 0)
            && OnlyAt(w.addr, w.cells, s.cells) && s.addr == w.addr
            && s.formatted && s.d == w.d && s.icAddr == w.icAddr
  {
    hide Printable;
    PrintableBits(v);
  }

  lemma SetBufferAddress(cfg: Cfg, w: Wr, buf: seq<byte>, cp: nat)
    requires Ready(cfg, w) && cp < |buf| && buf[cp] == 0x11
    ensures var s := Order(cfg, w, buf, cp);
            && (s.ok <==> cp + 2 < |buf| && DecodeAddr(buf[cp + 1], buf[cp + 2]) < cfg.n)
            && (s.ok ==> s.w.addr == DecodeAddr(buf[cp + 1], buf[cp + 2]) && s.cp == cp + 3
                         && s.w.cells == w.cells && SameRest(w, s.w))
  {
    hide Order, FieldAttr, DecodeAddr;
    Dispatch(cfg, w, buf, cp);
  }

  lemma InsertCursor(cfg: Cfg, w: Wr, buf: seq<byte>, cp: nat)
    requires Ready(cfg, w) && cp < |buf| && buf[cp] == 0x13
    ensures var s := Order(cfg, w, buf, cp);
            s.ok && s.w == w.(icAddr := w.addr, lastCmd := true, lastZpt := false) && s.cp == cp + 1
  {
    hide Order;
    Dispatch(cfg, w, buf, cp);
  }

  // One character stored.
  lemma PlacesOne(cfg: Cfg, w: Wr, ec: byte, cs: byte)
    requires Ready(cfg, w)
    ensures var s := Place(cfg, w, ec, cs);
            && Shows(cfg.mode3279, w.cells[w.addr], s.cells[w.addr], ec, cs, w.d)
            && OnlyAt(w.addr, w.cells, s.cells) && SameRest(w, s)
            && s.addr == Inc(w.addr, cfg.n) == (w.addr + 1) % cfg.n
  {
    IncIsRemainder(w.addr, cfg.n);
  }

  lemma GraphicEscape(cfg: Cfg, w: Wr, buf: seq<byte>, cp: nat)
    requires Ready(cfg, w) && cp < |buf| && buf[cp] == 0x08
    ensures var s := Order(cfg, w, buf, cp);
            && (s.ok <==> cp + 1 < |buf|)
            && (s.ok ==>
                  && Shows(cfg.mode3279, w.cells[w.addr], s.w.cells[w.addr], buf[cp + 1], CS_GE, w.d)
                  && OnlyAt(w.addr, w.cells, s.w.cells) && SameRest(w, s.w)
                  && s.w.addr == (w.addr + 1) % cfg.n && s.cp == cp + 2)
  {
    hide Order, FieldAttr, Place, Shows, OnlyAt;
    Dispatch(cfg, w, buf, cp);
    if cp + 1 < |buf| {
      PlacesOne(cfg, w, buf[cp + 1], CS_GE);
    }
  }

  // --- RA ---------------------------------------------------------------------------------------

  predicate FillsPairs(cfg: Cfg, w: Wr)
    requires Ready(cfg, w)
  {
    cfg.dbcs && (w.d.cs == CS_DBCS || LookAt(cfg, w, w.addr).state == DbLeft)
  }

  /** Repeat to Address outside double-byte data: the character, or the one behind a GE order, goes to
      every cell from the buffer address up to the target, round the whole screen if they are the same. */
  lemma RepeatToAddress(cfg: Cfg, w: Wr, buf: seq<byte>, cp: nat)
    requires Ready(cfg, w) && cp < |buf| && buf[cp] == 0x3C && !FillsPairs(cfg, w)
    ensures var s := Order(cfg, w, buf, cp);
            && (s.ok <==> && cp + 3 < |buf| && DecodeAddr(buf[cp + 1], buf[cp + 2]) < cfg.n
                          && LookAt(cfg, w, w.addr).state != DbRight
                          && (buf[cp + 3] == 0x08 ==> cp + 4 < |buf|))
            && (s.ok ==>
                  var t, ge := DecodeAddr(buf[cp + 1], buf[cp + 2]), buf[cp + 3] == 0x08;
                  && s.w.addr == t && s.cp == (if ge then cp + 5 else cp + 4) && SameRest(w, s.w)
                  && forall k :: 0 <= k < |w.cells| ==>
                       if k < cfg.n && Off(w.addr, k, cfg.n) < Lap(w.addr, t, cfg.n) then
                         Shows(cfg.mode3279, w.cells[k], s.w.cells[k], buf[if ge then cp + 4 else cp + 3],
                               if ge then CS_GE else w.d.cs, w.d)
                       else s.w.cells[k] == w.cells[k])
  {
    hide Order, FieldAttr, DecodeAddr, LookAt;
    Dispatch(cfg, w, buf, cp);
  }

  /** Repeat to Address of a double-byte character: its halves alternate from the buffer address up to the target.
      On a screen with an odd number of cells a target behind the address is passed once, and the second
      lap exchanges the halves of the cells in front of it. */
  lemma RepeatPairs(cfg: Cfg, w: Wr, buf: seq<byte>, cp: nat)
    requires Ready(cfg, w) && cp < |buf| && buf[cp] == 0x3C && FillsPairs(cfg, w)
    ensures var s := Order(cfg, w, buf, cp);
            && (s.ok <==> && cp + 4 < |buf| && DecodeAddr(buf[cp + 1], buf[cp + 2]) < cfg.n
                          && LookAt(cfg, w, w.addr).state != DbRight
                          && (DecodeAddr(buf[cp + 1], buf[cp + 2]) + w.addr) % 2 == 0
                          && if buf[cp + 3] == 0 then buf[cp + 4] in {0x00, 0x15, 0x19, 0x0C, 0x0D, 0x1C, 0x1E}
                             else 0x40 <= buf[cp + 3] <= 0xFE && 0x40 <= buf[cp + 4] <= 0xFE)
            && (s.ok ==>
                  var t := DecodeAddr(buf[cp + 1], buf[cp + 2]);
                  var once := cfg.n % 2 == 0 || w.addr < t;
                  && s.w.addr == t && s.cp == cp + 5 && SameRest(w, s.w)
                  && forall k :: 0 <= k < |w.cells| ==>
                       if k >= cfg.n then s.w.cells[k] == w.cells[k]
                       else
                         var o, l := Off(w.addr, k, cfg.n), Lap(w.addr, t, cfg.n);
                         if once && o >= l then s.w.cells[k] == w.cells[k]
                         else Shows(cfg.mode3279, w.cells[k], s.w.cells[k],
                                    buf[if (o % 2 == 0) == (once || o >= l) then cp + 3 else cp + 4], w.d.cs, w.d))
  {
    hide Order, FieldAttr, DecodeAddr, LookAt, Fill, DbcsFillCount, Shows, Off, Lap;
    Dispatch(cfg, w, buf, cp);
    if cp + 4 < |buf| {
      var t := DecodeAddr(buf[cp + 1], buf[cp + 2]);
      if t < cfg.n && (t + w.addr) % 2 == 0 {
        PairsFilled(cfg, w, t, buf[cp + 3], buf[cp + 4]);
      }
    }
  }

  lemma PairsFilled(cfg: Cfg, w: Wr, t: nat, c1: byte, c2: byte)
    requires Ready(cfg, w) && t < cfg.n && (t + w.addr) % 2 == 0
    ensures var after := Fill(cfg, w.cells, w.addr, DbcsFillCount(cfg.n, w.addr, t), c1, c2, w.d.cs, w.d);
            var once := cfg.n % 2 == 0 || w.addr < t;
            forall k :: 0 <= k < |w.cells| ==>
              if k >= cfg.n then after[k] == w.cells[k]
              else
                var o, l := Off(w.addr, k, cfg.n), Lap(w.addr, t, cfg.n);
                if once && o >= l then after[k] == w.cells[k]
                else Shows(cfg.mode3279, w.cells[k], after[k],
                           if (o % 2 == 0) == (once || o >= l) then c1 else c2, w.d.cs, w.d)
  {
    LapParity(w.addr, t, cfg.n);
  }

  lemma LapParity(a: nat, t: nat, n: nat)
    requires a < n && t < n && (t + a) % 2 == 0
    ensures 0 < Lap(a, t, n) <= n
    ensures Lap(a, t, n) % 2 == 0 <==> n % 2 == 0 || a < t
  {
  }

  // --- PT, EUA ----------------------------------------------------------------------------------

  /** Program Tab: one step over an unprotected attribute; elsewhere to its target, nulling the cells in front of the
      next attribute if it follows data, or a tab that nulled up to address 0. */
  lemma ProgramTab(cfg: Cfg, w: Wr, buf: seq<byte>, cp: nat)
    requires Ready(cfg, w) && cp < |buf| && buf[cp] == 0x05
    ensures var s, c := Order(cfg, w, buf, cp), w.cells[w.addr];
            && s.ok && s.cp == cp + 1 && SameRest(w, s.w) && s.w.lastCmd && s.w.curFa == w.curFa
            && if c.fa != 0 && !IsProtected(c.fa) then
                 s.w.cells == w.cells && s.w.addr == (w.addr + 1) % cfg.n && !s.w.lastZpt
               else
                 var t, nulls := s.w.addr, !w.lastCmd || w.lastZpt;
                 && t == TabTarget(cfg, w)
                 && (s.w.lastZpt <==> nulls && (w.lastZpt || t == 0))
                 && exists m :: UpToAttribute(w.cells, cfg.n, w.addr, t, m)
                                && if nulls then NullsFrom(cfg, w.cells, s.w.cells, w.addr, m)
                                   else s.w.cells == w.cells
  {
    hide Order, TabTarget, NullCount, UpToAttribute, NullRange, NullsFrom;
    Dispatch(cfg, w, buf, cp);
    NullCountMeans(w.cells, cfg.n, w.addr, TabTarget(cfg, w));
    var m := NullCount(w.cells, cfg.n, w.addr, TabTarget(cfg, w));
    assert UpToAttribute(w.cells, cfg.n, w.addr, TabTarget(cfg, w), m);
    RangeIsNulls(cfg, w.cells, w.addr, m);
    IncIsRemainder(w.addr, cfg.n);
  }

  // The `m` cells from `a` on hold nulls without attributes.
  predicate NullsFrom(cfg: Cfg, before: seq<Cell>, after: seq<Cell>, a: nat, m: nat)
    requires a < cfg.n
  {
    |before| == |after| && forall k :: 0 <= k < |before| ==>
      if k < cfg.n && Off(a, k, cfg.n) < m then Shows(cfg.mode3279, before[k], after[k], 0, 0, NO_DEFAULTS)
      else after[k] == before[k]
  }

  lemma RangeIsNulls(cfg: Cfg, cells: seq<Cell>, a: nat, m: nat)
    requires a < cfg.n <= |cells|
    ensures NullsFrom(cfg, cells, NullRange(cfg, cells, a, m), a, m)
  {
  }

  /** Erase Unprotected to Address: characters behind an unprotected attribute on the way, or behind none while the
      attribute in force is unprotected, become nulls of the base set and keep their attributes; nothing
      else changes. */
  lemma EraseUnprotected(cfg: Cfg, w: Wr, buf: seq<byte>, cp: nat)
    requires Ready(cfg, w) && FlagHolds(cfg, w) && cp < |buf| && buf[cp] == 0x12
    ensures var s := Order(cfg, w, buf, cp);
            && (s.ok <==> && cp + 2 < |buf| && DecodeAddr(buf[cp + 1], buf[cp + 2]) < cfg.n
                          && LookAt(cfg, w, w.addr).state != DbRight
                          && LookAt(cfg, w, DecodeAddr(buf[cp + 1], buf[cp + 2])).state != DbLeft)
            && (s.ok ==>
                  var t := DecodeAddr(buf[cp + 1], buf[cp + 2]);
                  && s.w.addr == t && s.cp == cp + 3 && SameRest(w, s.w)
                  && forall k :: 0 <= k < |w.cells| ==>
                       var o := if k < cfg.n then Off(w.addr, k, cfg.n) else 0;
                       s.w.cells[k] ==
                         if && k < cfg.n && o < Lap(w.addr, t, cfg.n)
                            && if Unbroken(w.cells, cfg.n, w.addr, o) then !IsProtected(w.curFa)
                               else w.cells[k].fa == 0
                                    && !IsProtected(FieldAttr(w.cells, cfg.n, w.formatted, k))
                         then w.cells[k].(ec := 0, cs := 0, fa := 0, ucs4 := 0)
                         else w.cells[k])
  {
    hide Order, FieldAttr, DecodeAddr, LookAt, IsProtected, RunningAttr, FlagHolds, Unbroken;
    Dispatch(cfg, w, buf, cp);
    if OrderEUA(cfg, w, buf, cp).ok {
      var t := DecodeAddr(buf[cp + 1], buf[cp + 2]);
      forall k | 0 <= k < |w.cells| { ErasedCell(cfg, w, t, k); }
    }
  }

  // --- MF, SFE, SA ------------------------------------------------------------------------------

  // The value of the last of `na` pairs that has the given type.
  function LastPair(buf: seq<byte>, p: nat, na: nat, attr: byte): Option<byte>
    requires p + 2 * na <= |buf|
    decreases na
  {
    if na == 0 then None
    else
      match LastPair(buf, p + 2, na - 1, attr)
      case Some(v) => Some(v)
      case None => if buf[p] == attr then Some(buf[p + 1]) else None
  }

  function Or(o: Option<byte>, v: byte): byte { match o case None => v case Some(x) => x }

  // Character sets by number: F1 is APL, F8 the double-byte set where there is one.
  function SetOf(v: byte, dbcs: bool): byte
  {
    if v == 0xF1 then CS_APL else if v == 0xF8 && dbcs then CS_DBCS else CS_BASE
  }

  // What the pairs of an MF order make of an attribute.
  predicate Amends(cfg: Cfg, c: Cell, r: Cell, buf: seq<byte>, p: nat, na: nat)
    requires p + 2 * na <= |buf|
  {
    var fa, fg, bg := LastPair(buf, p, na, 0xC0), LastPair(buf, p, na, 0x42), LastPair(buf, p, na, 0x45);
    var gr, cs, ic := LastPair(buf, p, na, 0x41), LastPair(buf, p, na, 0x43), LastPair(buf, p, na, 0xFE);
    && (match fa case None => r.fa == c.fa && r.ec == c.ec && r.ucs4 == c.ucs4 case Some(v) => Begins(c, r, v))
    && r.fg == (match fg case None => c.fg case Some(v) => Shade(cfg.mode3279, c.fg, v))
    && r.bg == (match bg case None => c.bg case Some(v) => Shade(cfg.mode3279, c.bg, v))
    && r.gr == (match gr case None => c.gr case Some(v) => v % 16)
    && r.cs == (match cs case None => c.cs case Some(v) => SetOf(v, true))
    && r.ic == (match ic case None => c.ic case Some(v) => if v == 1 then 1 else 0)
    && r.db == c.db
  }

  lemma {:induction false} PairsAmend(cfg: Cfg, c: Cell, buf: seq<byte>, p: nat, na: nat)
    requires p + 2 * na <= |buf|
    ensures var r := MfPairs(cfg, c, buf, p, na); r.ok && Amends(cfg, c, r.c, buf, p, na)
    decreases na
  {
    hide Printable;
    if na > 0 {
      PrintableBits(buf[p + 1]);
      PairsAmend(cfg, Modified(cfg, c, buf[p], buf[p + 1]), buf, p + 2, na - 1);
    }
  }

  lemma {:induction false} PairsMissing(cfg: Cfg, c: Cell, buf: seq<byte>, p: nat, na: nat)
    requires p <= |buf| < p + 2 * na
    ensures !MfPairs(cfg, c, buf, p, na).ok
    decreases na
  {
    hide Modified;
    if p + 1 < |buf| {
      PairsMissing(cfg, Modified(cfg, c, buf[p], buf[p + 1]), buf, p + 2, na - 1);
    }
  }

  lemma OneCell(cfg: Cfg, w: Wr, c: Cell)
    requires Ready(cfg, w)
    ensures var s := Update(w, c);
            s == w.(cells := s.cells) && s.cells[w.addr] == c && OnlyAt(w.addr, w.cells, s.cells)
    ensures Inc(w.addr, cfg.n) == (w.addr + 1) % cfg.n
  {
    hide Inc;
    IncIsRemainder(w.addr, cfg.n);
  }

  /** Modify Field: on an attribute, the last pair of each type counts, and the address steps forward; elsewhere the
      pairs are skipped unread. */
  lemma ModifyField(cfg: Cfg, w: Wr, buf: seq<byte>, cp: nat)
    requires Ready(cfg, w) && cp < |buf| && buf[cp] == 0x2C
    ensures var s := Order(cfg, w, buf, cp);
            && (s.ok <==> && cp + 1 < |buf|
                          && (w.cells[w.addr].fa != 0 ==> cp + 2 + 2 * buf[cp + 1] as nat <= |buf|))
            && (s.ok ==>
                  var na: nat := buf[cp + 1];
                  && s.cp == cp + 2 + 2 * na && SameRest(w, s.w)
                  && if w.cells[w.addr].fa == 0 then s.w.cells == w.cells && s.w.addr == w.addr
                     else
                       && Amends(cfg, w.cells[w.addr], s.w.cells[w.addr], buf, cp + 2, na)
                       && OnlyAt(w.addr, w.cells, s.w.cells) && s.w.addr == (w.addr + 1) % cfg.n)
  {
    hide Order, MfPairs, Amends, Update, Inc, OnlyAt;
    Dispatch(cfg, w, buf, cp);
    if cp + 1 < |buf| {
      var na: nat := buf[cp + 1];
      OneCell(cfg, w, MfPairs(cfg, w.cells[w.addr], buf, cp + 2, na).c);
      if cp + 2 + 2 * na <= |buf| {
        PairsAmend(cfg, w.cells[w.addr], buf, cp + 2, na);
      } else {
        PairsMissing(cfg, w.cells[w.addr], buf, cp + 2, na);
      }
    }
  }

  // What the pairs of an SFE order make of the cell `c`.
  predicate Defines(cfg: Cfg, c: Cell, r: Cell, buf: seq<byte>, p: nat, na: nat)
    requires p + 2 * na <= |buf|
  {
    && Begins(c, r, Or(LastPair(buf, p, na, 0xC0), 0))
    && r.fg == Shade(cfg.mode3279, c.fg, Or(LastPair(buf, p, na, 0x42), 0))
    && r.bg == Shade(cfg.mode3279, c.bg, Or(LastPair(buf, p, na, 0x45), 0))
    && r.gr == Or(LastPair(buf, p, na, 0x41), 0) % 8
    && r.cs == SetOf(Or(LastPair(buf, p, na, 0x43), 0), cfg.dbcs)
    && r.ic == (if cfg.dbcs && LastPair(buf, p, na, 0xFE) == Some(1) then 1 else 0)
  }

  // The attributes gathered from some pairs, when `e` was gathered before.
  predicate Gathers(cfg: Cfg, e: Defaults, r: Defaults, buf: seq<byte>, p: nat, na: nat)
    requires p + 2 * na <= |buf|
  {
    && r.fg == (if cfg.mode3279 then Or(LastPair(buf, p, na, 0x42), e.fg) else e.fg)
    && r.bg == (if cfg.mode3279 then Or(LastPair(buf, p, na, 0x45), e.bg) else e.bg)
    && r.gr == (match LastPair(buf, p, na, 0x41) case None => e.gr case Some(v) => v % 8)
    && r.cs == (match LastPair(buf, p, na, 0x43) case None => e.cs case Some(v) => SetOf(v, cfg.dbcs))
    && r.ic == (match LastPair(buf, p, na, 0xFE) case None => e.ic
                case Some(v) => if !cfg.dbcs then e.ic else if v == 1 then 1 else 0)
  }

  // The state while pairs are read: a field was begun if any pair said so.
  predicate Reads(cfg: Cfg, w: Wr, r: Wr, v: Option<byte>)
    requires Ready(cfg, w)
  {
    && |r.cells| == |w.cells| && r.addr == w.addr && r.d == w.d && r.icAddr == w.icAddr
    && OnlyAt(w.addr, w.cells, r.cells)
    && match v
       case None => r.cells[w.addr] == w.cells[w.addr] && r.formatted == w.formatted
       case Some(x) =>
         var c, c1 := w.cells[w.addr], r.cells[w.addr];
         && r.formatted && Begins(c, c1, x)
         && c1.fg == Shade(cfg.mode3279, c.fg, 0) && c1.bg == Shade(cfg.mode3279, c.bg, 0)
  }

  lemma BeginsField(cfg: Cfg, w: Wr, v: byte)
    requires Ready(cfg, w)
    ensures Reads(cfg, w, WriteOrders.StartField(cfg, w, v), Some(v))
  {
    hide Printable;
    PrintableBits(v);
  }

  lemma ReadsTwice(cfg: Cfg, w: Wr, q: Wr, r: Wr, u: byte, v: Option<byte>)
    requires Ready(cfg, w) && Ready(cfg, q) && Reads(cfg, w, q, Some(u)) && Reads(cfg, q, r, v)
    ensures Reads(cfg, w, r, if v.Some? then v else Some(u))
  {
  }

  lemma {:induction false} PairsGather(cfg: Cfg, w: Wr, buf: seq<byte>, p: nat, na: nat, e: Defaults, any: bool)
    requires Ready(cfg, w) && p + 2 * na <= |buf|
    ensures var r := SfePairs(cfg, w, buf, p, na, e, any);
            && r.ok && (r.any <==> any || LastPair(buf, p, na, 0xC0).Some?)
            && Gathers(cfg, e, r.efa, buf, p, na) && Reads(cfg, w, r.w, LastPair(buf, p, na, 0xC0))
    decreases na
  {
    hide Reads, WriteOrders.StartField;
    if na == 0 {
      ReadsNothing(cfg, w);
    } else if buf[p] == XA_3270 {
      var q := WriteOrders.StartField(cfg, w, buf[p + 1]);
      BeginsField(cfg, w, buf[p + 1]);
      PairsGather(cfg, q, buf, p + 2, na - 1, e, true);
      ReadsTwice(cfg, w, q, SfePairs(cfg, w, buf, p, na, e, any).w, buf[p + 1], LastPair(buf, p + 2, na - 1, 0xC0));
    } else {
      PairsGather(cfg, w, buf, p + 2, na - 1, Gathered(cfg, e, buf[p], buf[p + 1]), any);
    }
  }

  lemma ReadsNothing(cfg: Cfg, w: Wr)
    requires Ready(cfg, w)
    ensures Reads(cfg, w, w, None)
  {
  }

  lemma {:induction false} GatherMissing(cfg: Cfg, w: Wr, buf: seq<byte>, p: nat, na: nat, e: Defaults, any: bool)
    requires Ready(cfg, w) && p <= |buf| < p + 2 * na
    ensures !SfePairs(cfg, w, buf, p, na, e, any).ok
    decreases na
  {
    hide Gathered, WriteOrders.StartField;
    if p + 1 < |buf| {
      if buf[p] == XA_3270 {
        GatherMissing(cfg, WriteOrders.StartField(cfg, w, buf[p + 1]), buf, p + 2, na - 1, e, true);
      } else {
        GatherMissing(cfg, w, buf, p + 2, na - 1, Gathered(cfg, e, buf[p], buf[p + 1]), any);
      }
    }
  }

  /** Start Field Extended: an attribute with the values of the last pair of each type, 0 where there is none. */
  lemma StartFieldExtended(cfg: Cfg, w: Wr, buf: seq<byte>, cp: nat)
    requires Ready(cfg, w) && cp < |buf| && buf[cp] == 0x29
    ensures var s := Order(cfg, w, buf, cp);
            && (s.ok <==> cp + 1 < |buf| && cp + 2 + 2 * buf[cp + 1] as nat <= |buf|)
            && (s.ok ==>
                  && Defines(cfg, w.cells[w.addr], s.w.cells[w.addr], buf, cp + 2, buf[cp + 1])
                  && OnlyAt(w.addr, w.cells, s.w.cells) && s.w.addr == (w.addr + 1) % cfg.n
                  && s.cp == cp + 2 + 2 * buf[cp + 1] as nat
                  && s.w.formatted && s.w.d == w.d && s.w.icAddr == w.icAddr)
  {
    hide Order, SfePairs, WriteOrders.StartField, LastPair, Defines, Gathers, Reads, FinishField;
    Dispatch(cfg, w, buf, cp);
    if cp + 1 < |buf| {
      var na: nat := buf[cp + 1];
      if cp + 2 + 2 * na <= |buf| {
        PairsGather(cfg, w, buf, cp + 2, na, NO_DEFAULTS, false);
        var r, v := SfePairs(cfg, w, buf, cp + 2, na, NO_DEFAULTS, false), LastPair(buf, cp + 2, na, 0xC0);
        if v == None {
          BeginsField(cfg, r.w, 0);
          ReadsAtLast(cfg, w, r.w, WriteOrders.StartField(cfg, r.w, 0));
          FieldDefined(cfg, w, WriteOrders.StartField(cfg, r.w, 0), r.efa, buf, cp + 2, na);
        } else {
          FieldDefined(cfg, w, r.w, r.efa, buf, cp + 2, na);
        }
      } else {
        GatherMissing(cfg, w, buf, cp + 2, na, NO_DEFAULTS, false);
      }
    }
  }

  lemma ReadsAtLast(cfg: Cfg, w: Wr, q: Wr, r: Wr)
    requires Ready(cfg, w) && Ready(cfg, q) && Reads(cfg, w, q, None) && Reads(cfg, q, r, Some(0))
    ensures Reads(cfg, w, r, Some(0))
  {
  }

  // The field that was begun, with the attributes gathered.
  lemma FieldDefined(cfg: Cfg, w: Wr, q: Wr, e: Defaults, buf: seq<byte>, p: nat, na: nat)
    requires Ready(cfg, w) && Ready(cfg, q) && p + 2 * na <= |buf| && Gathers(cfg, NO_DEFAULTS, e, buf, p, na)
    requires Reads(cfg, w, q, Some(Or(LastPair(buf, p, na, 0xC0), 0)))
    ensures var s := FinishField(cfg, q, e);
            && Defines(cfg, w.cells[w.addr], s.cells[w.addr], buf, p, na) && OnlyAt(w.addr, w.cells, s.cells)
            && s.addr == (w.addr + 1) % cfg.n && s.formatted && s.d == w.d && s.icAddr == w.icAddr
  {
    hide LastPair, Inc;
    IncIsRemainder(w.addr, cfg.n);
  }

  /** Set Attribute: one attribute of later characters, or all of them back to their defaults. */
  lemma SetAttribute(cfg: Cfg, w: Wr, buf: seq<byte>, cp: nat)
    requires Ready(cfg, w) && cp < |buf| && buf[cp] == 0x28
    ensures var s := Order(cfg, w, buf, cp);
            && (s.ok <==> cp + 2 < |buf|)
            && (s.ok ==>
                  var attr, v, d := buf[cp + 1], buf[cp + 2], s.w.d;
                  && s.w == w.(d := d, lastCmd := true, lastZpt := false) && s.cp == cp + 3
                  && d.fg == (if attr == 0x42 && cfg.mode3279 then v else if attr == 0 then 0 else w.d.fg)
                  && d.bg == (if attr == 0x45 && cfg.mode3279 then v else if attr == 0 then 0 else w.d.bg)
                  && d.gr == (if attr == 0x41 then v % 16 else if attr == 0 then 0 else w.d.gr)
                  && d.cs == (if attr == 0x43 then SetOf(v, true) else if attr == 0 then 0 else w.d.cs)
                  && d.ic == (if attr == 0xFE then if v == 1 then 1 else 0 else if attr == 0 then 0 else w.d.ic))
  {
    hide Order;
    Dispatch(cfg, w, buf, cp);
  }

  // --- Characters -------------------------------------------------------------------------------

  /** Format control orders are stored, but not in double-byte data. */
  lemma FormatControl(cfg: Cfg, w: Wr, buf: seq<byte>, cp: nat)
    requires Ready(cfg, w) && cp < |buf|
    requires buf[cp] in {0x3F, 0x1C, 0x1E, 0x0C, 0x0D, 0x15, 0x19, 0x25, 0xFF}
    ensures var s := Order(cfg, w, buf, cp);
            && (s.ok <==> w.d.cs != CS_DBCS && LookAt(cfg, w, w.addr).state == DbNone)
            && (s.ok ==>
                  && Shows(cfg.mode3279, w.cells[w.addr], s.w.cells[w.addr], buf[cp], w.d.cs, w.d)
                  && OnlyAt(w.addr, w.cells, s.w.cells) && SameRest(w, s.w)
                  && s.w.addr == (w.addr + 1) % cfg.n && s.cp == cp + 1)
  {
    hide Order, LookAt, Place, Shows, OnlyAt;
    Dispatch(cfg, w, buf, cp);
    PlacesOne(cfg, w, buf[cp], w.d.cs);
  }

  /** Shift Out, unless inside double-byte data that is not made by a character attribute. */
  lemma ShiftOut(cfg: Cfg, w: Wr, buf: seq<byte>, cp: nat)
    requires Ready(cfg, w) && cp < |buf| && buf[cp] == 0x0E
    ensures var s, look := Order(cfg, w, buf, cp), LookAt(cfg, w, w.addr);
            && (s.ok <==> look.state == DbNone || (look.state == DbLeft && look.why == InAttribute))
            && (s.ok ==>
                  && Shows(cfg.mode3279, w.cells[w.addr], s.w.cells[w.addr], 0x0E, w.d.cs, w.d)
                  && OnlyAt(w.addr, w.cells, s.w.cells) && SameRest(w, s.w)
                  && s.w.addr == (w.addr + 1) % cfg.n && s.cp == cp + 1)
  {
    hide Order, LookLeft, Place, Shows, OnlyAt;
    Dispatch(cfg, w, buf, cp);
    LookStates(cfg, w);
    PlacesOne(cfg, w, EBC_SO, w.d.cs);
  }

  lemma LookStates(cfg: Cfg, w: Wr)
    requires Ready(cfg, w)
    ensures LookAt(cfg, w, w.addr).state in {DbNone, DbLeft, DbRight}
  {
  }

  // The nearest SO or SI at or before `x`, as far back as the attribute or the start of the screen, is an SO; of
  // the cell where the search has to stop, only an SO counts.
  predicate NearestIsSo(cells: seq<Cell>, n: nat, f: int, x: nat)
    requires x < n <= |cells| && -1 <= f < n
  {
    exists k :: 0 <= k < n && IsNearestSo(cells, n, f, x, k)
  }

  predicate IsNearestSo(cells: seq<Cell>, n: nat, f: int, x: nat, k: nat)
    requires x < n <= |cells| && -1 <= f < n && k < n
  {
    && cells[k].ec == EBC_SO && Off(k, x, n) <= Off(Stop(f, n), x, n)
    && forall j :: 0 <= j < n && Off(j, x, n) < Off(k, x, n) ==> !IsShift(cells[j].ec)
  }

  lemma StepsBack(cells: seq<Cell>, n: nat, f: int, x: nat, k: nat)
    requires x < n <= |cells| && -1 <= f < n && k < n && x != Stop(f, n) && !IsShift(cells[x].ec)
    ensures IsNearestSo(cells, n, f, x, k) <==> IsNearestSo(cells, n, f, Dec(x, n), k)
  {
    var y := Dec(x, n);
    assert forall j | 0 <= j < n && j != x :: Off(j, x, n) == Off(j, y, n) + 1;
  }

  lemma {:induction false} MatchedMeans(cells: seq<Cell>, n: nat, f: int, x: nat)
    requires x < n <= |cells| && -1 <= f < n
    ensures Matched(cells, n, f, x) <==> NearestIsSo(cells, n, f, x)
    decreases Off(Stop(f, n), x, n)
  {
    assert Off(x, x, n) == 0;
    if cells[x].ec == EBC_SO {
      assert IsNearestSo(cells, n, f, x, x);
    } else if x == Stop(f, n) || cells[x].ec == EBC_SI {
      forall k | 0 <= k < n ensures !IsNearestSo(cells, n, f, x, k) {
        assert k != x ==> Off(x, x, n) < Off(k, x, n);
      }
    } else {
      MatchedMeans(cells, n, f, Dec(x, n));
      forall k | 0 <= k < n
        ensures IsNearestSo(cells, n, f, x, k) <==> IsNearestSo(cells, n, f, Dec(x, n), k)
      {
        StepsBack(cells, n, f, x, k);
      }
    }
  }

  /** Shift In: accepted behind an SO that no SI has closed yet, except over a right half or in a double-byte field. */
  lemma ShiftIn(cfg: Cfg, w: Wr, buf: seq<byte>, cp: nat)
    requires Ready(cfg, w) && cp < |buf| && buf[cp] == 0x0F
    ensures var s, look := Order(cfg, w, buf, cp), LookAt(cfg, w, w.addr);
            && (s.ok <==> && look.state != DbRight && (look.state == DbNone || look.why != InField)
                          && NearestIsSo(w.cells, cfg.n, FindField(w.cells, cfg.n, w.formatted, w.addr),
                                         Dec(w.addr, cfg.n)))
            && (s.ok ==>
                  && Shows(cfg.mode3279, w.cells[w.addr], s.w.cells[w.addr], 0x0F, w.d.cs, w.d)
                  && OnlyAt(w.addr, w.cells, s.w.cells) && SameRest(w, s.w)
                  && s.w.addr == (w.addr + 1) % cfg.n && s.cp == cp + 1)
  {
    hide Order, LookAt, Matched, FindField, NearestIsSo, Place, Shows, OnlyAt;
    Dispatch(cfg, w, buf, cp);
    MatchedMeans(w.cells, cfg.n, FindField(w.cells, cfg.n, w.formatted, w.addr), Dec(w.addr, cfg.n));
    PlacesOne(cfg, w, EBC_SI, w.d.cs);
  }

  // Whether characters come in pairs here.
  predicate InPairs(cfg: Cfg, w: Wr)
    requires Ready(cfg, w)
  {
    w.d.cs == CS_DBCS || LookAt(cfg, w, w.addr).state != DbNone
  }

  // Two characters stored one behind the other.
  predicate StoresTwo(cfg: Cfg, w: Wr, s: Wr, c1: byte, c2: byte)
    requires Ready(cfg, w)
  {
    var b := (w.addr + 1) % cfg.n;
    && SameRest(w, s) && |s.cells| == |w.cells| && s.addr == (w.addr + 2) % cfg.n
    && (cfg.n > 1 ==> Shows(cfg.mode3279, w.cells[w.addr], s.cells[w.addr], c1, w.d.cs, w.d))
    && Shows(cfg.mode3279, w.cells[b], s.cells[b], c2, w.d.cs, w.d)
    && forall k :: 0 <= k < |w.cells| && k != w.addr && k != b ==> s.cells[k] == w.cells[k]
  }

  lemma TwoAhead(a: nat, n: nat)
    requires a < n
    ensures Inc(a, n) == (a + 1) % n && Inc(Inc(a, n), n) == (a + 2) % n
    ensures n > 1 ==> Inc(a, n) != a
  {
    if a + 2 < n {
    } else if a + 2 == n {
    } else if n > 1 {
      assert a + 2 == n + 1;
    } else {
      assert (a + 2) % 1 == 0;
    }
  }

  lemma PlacesTwo(cfg: Cfg, w: Wr, c1: byte, c2: byte)
    requires Ready(cfg, w)
    ensures StoresTwo(cfg, w, Flags(PlaceTwo(cfg, w, c1, c2), false), c1, c2)
  {
    hide Place, Inc;
    PlacesOne(cfg, w, c1, w.d.cs);
    PlacesOne(cfg, Place(cfg, w, c1, w.d.cs), c2, w.d.cs);
    TwoAhead(w.addr, cfg.n);
  }

  /** A character: one cell outside double-byte data, where codes up to 3F are unsupported orders; two graphic codes
      inside it. */
  lemma Character(cfg: Cfg, w: Wr, buf: seq<byte>, cp: nat)
    requires Ready(cfg, w) && cp < |buf| && 0x40 <= buf[cp] < 0xFF
    ensures var s := Order(cfg, w, buf, cp);
            && (s.ok <==> && LookAt(cfg, w, w.addr).state != DbRight
                          && (InPairs(cfg, w) ==> cp + 1 < |buf| && 0x40 <= buf[cp + 1] < 0xFF))
            && (s.ok && InPairs(cfg, w) ==> StoresTwo(cfg, w, s.w, buf[cp], buf[cp + 1]) && s.cp == cp + 2)
            && (s.ok && !InPairs(cfg, w) ==>
                  && Shows(cfg.mode3279, w.cells[w.addr], s.w.cells[w.addr], buf[cp], w.d.cs, w.d)
                  && OnlyAt(w.addr, w.cells, s.w.cells) && SameRest(w, s.w)
                  && s.w.addr == (w.addr + 1) % cfg.n && s.cp == cp + 1)
  {
    hide Order, LookAt, PlaceTwo, StoresTwo, Place, Shows, OnlyAt;
    Dispatch(cfg, w, buf, cp);
    if cp + 1 < |buf| {
      PlacesTwo(cfg, w, buf[cp], buf[cp + 1]);
    }
    PlacesOne(cfg, w, buf[cp], w.d.cs);
  }

  /** A null: one cell outside double-byte data; inside it, the first half of a control code, or a single dead cell in
      front of a field. */
  lemma Null(cfg: Cfg, w: Wr, buf: seq<byte>, cp: nat)
    requires Ready(cfg, w) && cp < |buf| && buf[cp] == 0
    ensures var s := Order(cfg, w, buf, cp);
            var control := InPairs(cfg, w) && cp + 1 < |buf|
                           && buf[cp + 1] in {0x00, 0x15, 0x19, 0x0C, 0x0D, 0x1C, 0x1E};
            && (s.ok <==> && LookAt(cfg, w, w.addr).state != DbRight
                          && (InPairs(cfg, w) ==> control || (cp + 1 < |buf| && buf[cp + 1] in {0x1D, 0x29})))
            && (s.ok && control ==> StoresTwo(cfg, w, s.w, 0, buf[cp + 1]) && s.cp == cp + 2)
            && (s.ok && !control ==>
                  && Shows(cfg.mode3279, w.cells[w.addr], s.w.cells[w.addr], 0, w.d.cs, w.d)
                  && OnlyAt(w.addr, w.cells, s.w.cells) && SameRest(w, s.w)
                  && s.w.addr == (w.addr + 1) % cfg.n && s.cp == cp + 1)
  {
    hide Order, LookAt, PlaceTwo, StoresTwo, Place, Shows, OnlyAt;
    Dispatch(cfg, w, buf, cp);
    if cp + 1 < |buf| {
      PlacesTwo(cfg, w, 0, buf[cp + 1]);
    }
    PlacesOne(cfg, w, 0, w.d.cs);
  }

  // The codes that are none of the above do nothing.
  lemma UnsupportedOrder(cfg: Cfg, w: Wr, buf: seq<byte>, cp: nat)
    requires Ready(cfg, w) && cp < |buf| && buf[cp] < 0x40
    requires buf[cp] !in {0x00, 0x05, 0x08, 0x0C, 0x0D, 0x0E, 0x0F, 0x11, 0x12, 0x13, 0x15, 0x19, 0x1C, 0x1D, 0x1E,
                          0x25, 0x28, 0x29, 0x2C, 0x3C, 0x3F}
    ensures Order(cfg, w, buf, cp) == Step(w.(lastCmd := true, lastZpt := false), cp + 1, true)
  {
    hide Order;
    Dispatch(cfg, w, buf, cp);
  }
}
