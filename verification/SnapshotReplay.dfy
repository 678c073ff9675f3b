/**
 Replaying a screen snapshot through the command interpreter: exactly which screen results, and
 exactly when it is the original one.
 */
module SnapshotReplay {
  import opened Bytes
  import opened Screen
  import opened DbcsLook
  import opened DbcsPost
  import opened WriteOrders
  import opened Commands
  import opened WriteSafety
  import opened DeviceInvariant
  import opened Snapshot

  // --- What becomes of a cell -----------------------------------------------------------------

  // The character set that a host set number selects when no double-byte support is on.
  function SetFromHost(v: byte): byte { if v == 0xF1 then CS_APL else CS_BASE }

  // The cell that the replay stores for `c` on a cleared screen without double-byte support.
  function Snapped(mode3279: bool, c: Cell): Cell
  {
    if c.fa != 0 then
      NULL_CELL.(fa := Printable(c.fa),
                 fg := if mode3279 then Color(c.fg) else 0,
                 bg := if mode3279 && c.bg != 0 then Color(c.fg) else 0,
                 gr := c.gr % 8,
                 cs := SetFromHost(HostSet(c.cs)))
    else
      NULL_CELL.(ec := c.ec,
                 fg := if mode3279 then Color(c.fg) else 0,
                 bg := if mode3279 then Color(c.bg) else 0,
                 gr := c.gr % 16,
                 cs := if IsGe(c.cs) then CS_GE else SetFromHost(HostSet(c.cs)),
                 ic := if c.ic == 1 then 1 else 0)
  }

  /** The cells that come back unchanged.  A field must not have a background other than its
      foreground, highlighting of 8 or more, or input control; a character must be in the base or
      APL set or a graphic escape. */
  predicate Faithful(mode3279: bool, c: Cell)
  {
    && c.db == DbNone && c.ucs4 == 0
    && (!mode3279 ==> c.fg == 0 && c.bg == 0)
    && (if c.fa != 0 then
          c.ec == 0 && c.gr < 8 && c.ic == 0 && c.cs in {CS_BASE, CS_APL} && c.bg in {0, c.fg}
        else
          c.cs in {CS_BASE, CS_APL, CS_GE})
  }

  lemma PrintableIdentity(fa: byte)
    requires fa >= 0xC0 && fa % 4 < 2
    ensures Printable(fa) == fa
  {
  }

  lemma FaithfulIffSame(mode3279: bool, c: Cell)
    requires CellOk(c)
    ensures Snapped(mode3279, c) == c <==> Faithful(mode3279, c)
  {
    hide Printable;
    if c.fa != 0 {
      PrintableIdentity(c.fa);
    }
  }

  // --- Screens that the interpreter reads as they were written ----------------------------------

  // Codes that are not taken for orders.
  predicate InBand(ec: byte)
  {
    ec == EBC_NULL || ec >= 0x40 || IsFormatControl(ec) || ec == EBC_SO || ec == EBC_SI
  }

  // Whether the last shift code in the field in front of `k` is an SO.
  function OpenSo(cells: seq<Cell>, k: nat): bool
    requires k <= |cells|
  {
    if k == 0 || cells[k - 1].fa != 0 || cells[k - 1].ec == EBC_SI then false
    else cells[k - 1].ec == EBC_SO || OpenSo(cells, k - 1)
  }

  // Outside graphic escapes no code is an order, no double-byte set is used and every SI has its SO.
  predicate StreamSafe(cells: seq<Cell>, k: nat)
    requires k < |cells|
  {
    cells[k].fa == 0 ==>
      && !IsDbcsSet(cells[k].cs)
      && (!IsGe(cells[k].cs) ==>
            InBand(cells[k].ec) && (cells[k].ec == EBC_SI ==> OpenSo(cells, k)))
  }

  predicate AllStreamSafe(cells: seq<Cell>, n: nat)
    requires n <= |cells|
  {
    forall k :: 0 <= k < n ==> StreamSafe(cells, k)
  }

  // --- Positions in the stream ------------------------------------------------------------------

  ghost predicate Reads(buf: seq<byte>, cp: nat, x: seq<byte>)
  {
    cp <= |buf| && buf[cp..] == x
  }

  lemma ReadsSplit(buf: seq<byte>, cp: nat, x: seq<byte>, y: seq<byte>)
    requires Reads(buf, cp, x + y)
    ensures cp + |x| <= |buf| && Reads(buf, cp + |x|, y)
    ensures |x| > 0 ==> buf[cp] == x[0]
    ensures |x| > 1 ==> buf[cp + 1] == x[1]
    ensures |x| > 2 ==> buf[cp + 2] == x[2]
  {
    assert buf[cp + |x|..] == buf[cp..][|x|..] == y;
    assert forall i :: 0 <= i < |x| ==> buf[cp..][i] == (x + y)[i] == x[i];
  }

  // --- SA orders --------------------------------------------------------------------------------

  // The state after one of the SA orders of a snapshot.
  function AfterSa(cfg: Cfg, w: Wr, attr: byte, v: byte, current: byte): Wr
  {
    if v == current then w else Flags(w.(d := SetDefault(cfg, w.d, attr, v)), true)
  }

  lemma RunSa(cfg: Cfg, w: Wr, buf: seq<byte>, cp: nat, attr: byte, v: byte, current: byte, y: seq<byte>)
    requires Ready(cfg, w) && Reads(buf, cp, Sa(attr, v, current) + y)
    ensures var p := cp + |Sa(attr, v, current)|;
            var w1 := AfterSa(cfg, w, attr, v, current);
            Reads(buf, p, y) && Ready(cfg, w1) && Run(cfg, w, buf, cp) == Run(cfg, w1, buf, p)
  {
    ReadsSplit(buf, cp, Sa(attr, v, current), y);
    if v != current {
      var s := Order(cfg, w, buf, cp);
      assert s == OrderSA(cfg, w, buf, cp);
    }
  }

  // The defaults in force once the SA values `s` have been received.
  function Received(cfg: Cfg, s: Defaults): Defaults
  {
    Defaults(if cfg.mode3279 then s.fg else 0, if cfg.mode3279 then s.bg else 0, s.gr % 16,
             if s.cs == 0xF1 then CS_APL else if s.cs == 0xF8 then CS_DBCS else CS_BASE,
             if s.ic == 1 then 1 else 0)
  }

  function AfterAllSa(cfg: Cfg, w: Wr, s: Defaults, cur: Defaults): Wr
  {
    var w1 := AfterSa(cfg, w, XA_FOREGROUND, s.fg, cur.fg);
    var w2 := AfterSa(cfg, w1, XA_BACKGROUND, s.bg, cur.bg);
    var w3 := AfterSa(cfg, w2, XA_HIGHLIGHTING, s.gr, cur.gr);
    var w4 := AfterSa(cfg, w3, XA_CHARSET, s.cs, cur.cs);
    AfterSa(cfg, w4, XA_INPUT_CONTROL, s.ic, cur.ic)
  }

  // One SA order, left out where the value is in force already.
  lemma SaEffect(cfg: Cfg, w: Wr, attr: byte, v: byte, current: byte)
    requires SetDefault(cfg, w.d, attr, current) == w.d
    ensures var r := AfterSa(cfg, w, attr, v, current);
            r == w.(d := SetDefault(cfg, w.d, attr, v), lastCmd := r.lastCmd, lastZpt := r.lastZpt)
  {
    hide SetDefault;
  }

  // The SA orders of a cell only change the defaults, to those of the cell.
  lemma AllSaEffect(cfg: Cfg, w: Wr, s: Defaults, cur: Defaults)
    requires w.d == Received(cfg, cur)
    ensures var r := AfterAllSa(cfg, w, s, cur);
            r == w.(d := Received(cfg, s), lastCmd := r.lastCmd, lastZpt := r.lastZpt)
  {
    hide AfterSa;
    SaEffect(cfg, w, XA_FOREGROUND, s.fg, cur.fg);
    var w1 := AfterSa(cfg, w, XA_FOREGROUND, s.fg, cur.fg);
    SaEffect(cfg, w1, XA_BACKGROUND, s.bg, cur.bg);
    var w2 := AfterSa(cfg, w1, XA_BACKGROUND, s.bg, cur.bg);
    SaEffect(cfg, w2, XA_HIGHLIGHTING, s.gr, cur.gr);
    var w3 := AfterSa(cfg, w2, XA_HIGHLIGHTING, s.gr, cur.gr);
    SaEffect(cfg, w3, XA_CHARSET, s.cs, cur.cs);
    var w4 := AfterSa(cfg, w3, XA_CHARSET, s.cs, cur.cs);
    SaEffect(cfg, w4, XA_INPUT_CONTROL, s.ic, cur.ic);
  }

  lemma RunAllSa(cfg: Cfg, w: Wr, buf: seq<byte>, cp: nat, s: Defaults, cur: Defaults, y: seq<byte>)
    requires Ready(cfg, w) && Reads(buf, cp, SaBytes(s, cur) + y)
    ensures var p := cp + |SaBytes(s, cur)|;
            var w1 := AfterAllSa(cfg, w, s, cur);
            Reads(buf, p, y) && Ready(cfg, w1) && Run(cfg, w, buf, cp) == Run(cfg, w1, buf, p)
  {
    hide Sa, Run, Reads, AfterSa;
    var s1, s2 := Sa(XA_FOREGROUND, s.fg, cur.fg), Sa(XA_BACKGROUND, s.bg, cur.bg);
    var s3, s4 := Sa(XA_HIGHLIGHTING, s.gr, cur.gr), Sa(XA_CHARSET, s.cs, cur.cs);
    var s5 := Sa(XA_INPUT_CONTROL, s.ic, cur.ic);
    Regroup(s1, s2, s3, s4 + s5, y);
    Assoc(s4, s5, y);
    RunSa(cfg, w, buf, cp, XA_FOREGROUND, s.fg, cur.fg, s2 + (s3 + (s4 + (s5 + y))));
    var w1, p1 := AfterSa(cfg, w, XA_FOREGROUND, s.fg, cur.fg), cp + |s1|;
    RunSa(cfg, w1, buf, p1, XA_BACKGROUND, s.bg, cur.bg, s3 + (s4 + (s5 + y)));
    var w2, p2 := AfterSa(cfg, w1, XA_BACKGROUND, s.bg, cur.bg), p1 + |s2|;
    RunSa(cfg, w2, buf, p2, XA_HIGHLIGHTING, s.gr, cur.gr, s4 + (s5 + y));
    var w3, p3 := AfterSa(cfg, w2, XA_HIGHLIGHTING, s.gr, cur.gr), p2 + |s3|;
    RunSa(cfg, w3, buf, p3, XA_CHARSET, s.cs, cur.cs, s5 + y);
    var w4, p4 := AfterSa(cfg, w3, XA_CHARSET, s.cs, cur.cs), p3 + |s4|;
    RunSa(cfg, w4, buf, p4, XA_INPUT_CONTROL, s.ic, cur.ic, y);
  }

  // --- Fields -----------------------------------------------------------------------------------

  function GatheredIf(cfg: Cfg, e: Defaults, attr: byte, v: byte, send: bool): Defaults
  {
    if send then Gathered(cfg, e, attr, v) else e
  }

  // The state after an optional pair of an SFE order.
  lemma RunPair(cfg: Cfg, w: Wr, buf: seq<byte>, p: nat, na: nat, e: Defaults, any: bool,
                attr: byte, v: byte, send: bool, y: seq<byte>)
    requires Ready(cfg, w) && Reads(buf, p, Pair(attr, v, send) + y) && attr != XA_3270
    requires send ==> na > 0
    ensures var e1 := GatheredIf(cfg, e, attr, v, send);
            var na1 := if send then na - 1 else na;
            && Reads(buf, p + |Pair(attr, v, send)|, y)
            && SfePairs(cfg, w, buf, p, na, e, any)
               == SfePairs(cfg, w, buf, p + |Pair(attr, v, send)|, na1, e1, any)
  {
    ReadsSplit(buf, p, Pair(attr, v, send), y);
  }

  // The extended attributes that SFE gathers for a field.
  function FieldExtended(cfg: Cfg, c: Cell): Defaults
  {
    Defaults(if cfg.mode3279 then c.fg else 0,
             if cfg.mode3279 && c.bg != 0 then c.fg else 0,
             c.gr % 8, SetFromHost(HostSet(c.cs)), 0)
  }

  lemma HostGrLow(gr: byte)
    ensures gr != 0 ==> HostGr(gr) % 8 == gr % 8
    ensures HostGr(gr) % 16 == gr % 16
  {
  }

  // What the optional pairs of a field gather.
  lemma GatheredField(cfg: Cfg, c: Cell)
    requires !cfg.dbcs
    ensures var e1 := GatheredIf(cfg, NO_DEFAULTS, XA_FOREGROUND, c.fg, c.fg != 0);
            var e2 := GatheredIf(cfg, e1, XA_BACKGROUND, c.fg, c.bg != 0);
            var e3 := GatheredIf(cfg, e2, XA_HIGHLIGHTING, HostGr(c.gr), c.gr != 0);
            GatheredIf(cfg, e3, XA_CHARSET, HostSet(c.cs), c.cs % 4 != 0) == FieldExtended(cfg, c)
  {
    hide HostGr;
    HostGrLow(c.gr);
  }

  lemma RunOptionalPairs(cfg: Cfg, w: Wr, buf: seq<byte>, p: nat, c: Cell, y: seq<byte>)
    requires Ready(cfg, w) && !cfg.dbcs && Reads(buf, p, OptionalPairs(c) + y)
    ensures Reads(buf, p + |OptionalPairs(c)|, y)
    ensures SfePairs(cfg, w, buf, p, PairCount(c) - 1, NO_DEFAULTS, true)
            == SfeResult(w, FieldExtended(cfg, c), true, true)
  {
    hide Reads, SfePairs, Gathered, GatheredIf, Pair, HostGr, HostSet, FieldExtended;
    GatheredField(cfg, c);
    var s1, s2 := Pair(XA_FOREGROUND, c.fg, c.fg != 0), Pair(XA_BACKGROUND, c.fg, c.bg != 0);
    var s3 := Pair(XA_HIGHLIGHTING, HostGr(c.gr), c.gr != 0);
    var s4 := Pair(XA_CHARSET, HostSet(c.cs), c.cs % 4 != 0);
    Regroup(s1, s2, s3, s4, y);
    var n0: nat := PairCount(c) - 1;
    RunPair(cfg, w, buf, p, n0, NO_DEFAULTS, true, XA_FOREGROUND, c.fg, c.fg != 0, s2 + (s3 + (s4 + y)));
    var e1 := GatheredIf(cfg, NO_DEFAULTS, XA_FOREGROUND, c.fg, c.fg != 0);
    var n1: nat := if c.fg != 0 then n0 - 1 else n0;
    RunPair(cfg, w, buf, p + |s1|, n1, e1, true, XA_BACKGROUND, c.fg, c.bg != 0, s3 + (s4 + y));
    var e2 := GatheredIf(cfg, e1, XA_BACKGROUND, c.fg, c.bg != 0);
    var n2: nat := if c.bg != 0 then n1 - 1 else n1;
    var p2 := p + |s1| + |s2|;
    RunPair(cfg, w, buf, p2, n2, e2, true, XA_HIGHLIGHTING, HostGr(c.gr), c.gr != 0, s4 + y);
    var e3 := GatheredIf(cfg, e2, XA_HIGHLIGHTING, HostGr(c.gr), c.gr != 0);
    var n3: nat := if c.gr != 0 then n2 - 1 else n2;
    RunPair(cfg, w, buf, p2 + |s3|, n3, e3, true, XA_CHARSET, HostSet(c.cs), c.cs % 4 != 0, y);
    NoMorePairs(cfg, w, buf, p2 + |s3| + |s4|, FieldExtended(cfg, c));
  }

  lemma NoMorePairs(cfg: Cfg, w: Wr, buf: seq<byte>, p: nat, e: Defaults)
    requires Ready(cfg, w)
    ensures SfePairs(cfg, w, buf, p, 0, e, true) == SfeResult(w, e, true, true)
  {
  }

  lemma RunFieldPairs(cfg: Cfg, w: Wr, buf: seq<byte>, p: nat, c: Cell, y: seq<byte>)
    requires Ready(cfg, w) && !cfg.dbcs && Reads(buf, p, FieldPairs(c) + y)
    ensures Reads(buf, p + 2 * PairCount(c), y)
    ensures SfePairs(cfg, w, buf, p, PairCount(c), NO_DEFAULTS, false)
            == SfeResult(StartField(cfg, w, CodeTable(c.fa % 64)), FieldExtended(cfg, c), true, true)
  {
    hide CodeTable, StartField, Reads, FieldExtended, HostGr, HostSet;
    var x := CodeTable(c.fa % 64);
    assert FieldPairs(c) + y == [XA_3270, x] + (OptionalPairs(c) + y);
    ReadsSplit(buf, p, [XA_3270, x], OptionalPairs(c) + y);
    RunOptionalPairs(cfg, StartField(cfg, w, x), buf, p + 2, c, y);
    assert |OptionalPairs(c)| == 2 * PairCount(c) - 2;
  }

  // --- One cell ---------------------------------------------------------------------------------

  /** The interpreter has replayed the cells in front of `k`, and nothing else is on the screen. */
  ghost predicate Replayed(cfg: Cfg, cells: seq<Cell>, w: Wr, k: nat, cur: Defaults)
    requires k <= cfg.n <= |cells|
  {
    && !cfg.dbcs && Ready(cfg, w) && |w.cells| == |cells| && w.icAddr == -1
    && w.addr == (if k == cfg.n then 0 else k)
    && w.d == Received(cfg, cur)
    && (forall j :: 0 <= j < k ==> w.cells[j] == Snapped(cfg.mode3279, cells[j]))
    && (forall j :: k <= j < cfg.n ==> w.cells[j] == NULL_CELL)
    && (w.formatted <==> exists j :: 0 <= j < k && cells[j].fa != 0)
  }

  lemma StartedSnapped(cfg: Cfg, c: Cell, x: byte)
    requires c.fa != 0 && x % 64 == c.fa % 64
    ensures var f := Started(cfg.mode3279, NULL_CELL, x);
            WithExtended(cfg.mode3279, f.(cs := FieldExtended(cfg, c).cs), FieldExtended(cfg, c))
            == Snapped(cfg.mode3279, c)
  {
    hide Printable;
    PrintableLow(x, c.fa);
  }

  lemma PrintableLow(x: byte, fa: byte)
    requires x % 64 == fa % 64
    ensures Printable(x) == Printable(fa)
  {
    assert x % 2 == x % 64 % 2 && fa % 2 == fa % 64 % 2;
  }

  lemma StoredSnapped(cfg: Cfg, c: Cell)
    requires c.fa == 0 && !IsDbcsSet(c.cs)
    ensures var d := Received(cfg, Sent(c));
            d.cs != CS_DBCS
            && Stored(cfg.mode3279, NULL_CELL, c.ec, if IsGe(c.cs) then CS_GE else d.cs, d)
               == Snapped(cfg.mode3279, c)
  {
    hide HostGr, Color;
    HostGrLow(c.gr);
  }

  lemma ReplayField(cfg: Cfg, cells: seq<Cell>, w: Wr, k: nat, cur: Defaults, buf: seq<byte>, cp: nat,
                    y: seq<byte>) returns (w': Wr, cp': nat)
    requires k < cfg.n <= |cells| && Replayed(cfg, cells, w, k, cur)
    requires cells[k].fa != 0 && Reads(buf, cp, CellBytes(cells[k], cur) + y)
    ensures Replayed(cfg, cells, w', k + 1, Next(cells[k], cur)) && Reads(buf, cp', y)
    ensures SameBeyond(cfg.n, w.cells, w'.cells)
    ensures Run(cfg, w, buf, cp) == Run(cfg, w', buf, cp')
  {
    hide Started, Snapped, FieldExtended, CodeTable, FieldPairs;
    var c := cells[k];
    var x := CodeTable(c.fa % 64);
    CodeTableDecodes(c.fa % 64);
    StartedSnapped(cfg, c, x);
    assert CellBytes(c, cur) + y == [ORDER_SFE, PairCount(c)] + (FieldPairs(c) + y);
    ReadsSplit(buf, cp, [ORDER_SFE, PairCount(c)], FieldPairs(c) + y);
    RunFieldPairs(cfg, w, buf, cp + 2, c, y);
    var s := Order(cfg, w, buf, cp);
    assert s == OrderSFE(cfg, w, buf, cp);
    w', cp' := s.w, s.cp;
    assert w'.cells == w.cells[k := Snapped(cfg.mode3279, c)];
  }

  // Without attributes in front, or with one, the backward scan for an SO sees the cells in front
  // of `k` as they were.
  lemma {:induction false} MatchedIsOpenSo(cfg: Cfg, cells: seq<Cell>, w: Wr, k: nat, cur: Defaults, f: int, j: nat)
    requires k < cfg.n <= |cells| && Replayed(cfg, cells, w, k, cur) && j <= k
    requires -1 <= f < j && (f >= 0 ==> cells[f].fa != 0)
    requires forall i :: f < i < k ==> cells[i].fa == 0
    ensures Matched(w.cells, cfg.n, f, Dec(j, cfg.n)) == OpenSo(cells, j)
    decreases j
  {
    if j == 0 {
      assert w.cells[cfg.n - 1] == NULL_CELL;
    } else if f != j - 1 {
      MatchedIsOpenSo(cfg, cells, w, k, cur, f, j - 1);
    }
  }

  // The attribute that governs position `k` during the replay is the last one in front of it.
  lemma ReplayedField(cfg: Cfg, cells: seq<Cell>, w: Wr, k: nat, cur: Defaults)
    requires k < cfg.n <= |cells| && Replayed(cfg, cells, w, k, cur)
    ensures var f := FindField(w.cells, cfg.n, w.formatted, k);
            && f < k && (f >= 0 ==> cells[f].fa != 0)
            && forall i :: f < i < k ==> cells[i].fa == 0
  {
    hide Printable;
    FindBackNearest(w.cells, cfg.n, k, cfg.n);
    forall i | 0 <= i < cfg.n
      ensures w.cells[i].fa != 0 <==> i < k && cells[i].fa != 0
    {
    }
    if w.formatted {
      var j :| 0 <= j < k && cells[j].fa != 0;
      assert w.cells[j].fa != 0;
      FindBackComplete(w.cells, cfg.n, k);
    }
  }

  lemma ReplayChar(cfg: Cfg, cells: seq<Cell>, w: Wr, k: nat, cur: Defaults, buf: seq<byte>, cp: nat,
                   y: seq<byte>) returns (w': Wr, cp': nat)
    requires k < cfg.n <= |cells| && Replayed(cfg, cells, w, k, cur)
    requires cells[k].fa == 0 && StreamSafe(cells, k)
    requires Reads(buf, cp, CellBytes(cells[k], cur) + y)
    ensures Replayed(cfg, cells, w', k + 1, Next(cells[k], cur)) && Reads(buf, cp', y)
    ensures SameBeyond(cfg.n, w.cells, w'.cells)
    ensures Run(cfg, w, buf, cp) == Run(cfg, w', buf, cp')
  {
    hide SaBytes, AfterAllSa, Sent, Run, Reads, Received, CharBytes, Snapped;
    var c := cells[k];
    var s := Sent(c);
    assert CellBytes(c, cur) + y == SaBytes(s, cur) + (CharBytes(c) + y);
    RunAllSa(cfg, w, buf, cp, s, cur, CharBytes(c) + y);
    AllSaEffect(cfg, w, s, cur);
    var w1, p1 := AfterAllSa(cfg, w, s, cur), cp + |SaBytes(s, cur)|;
    w', cp' := ReplayCode(cfg, cells, w1, k, s, buf, p1, y);
  }

  // The code of a character once its SA orders have been received.
  lemma ReplayCode(cfg: Cfg, cells: seq<Cell>, w: Wr, k: nat, s: Defaults, buf: seq<byte>, cp: nat,
                   y: seq<byte>) returns (w': Wr, cp': nat)
    requires k < cfg.n <= |cells| && Replayed(cfg, cells, w, k, s)
    requires cells[k].fa == 0 && StreamSafe(cells, k) && s == Sent(cells[k])
    requires Reads(buf, cp, CharBytes(cells[k]) + y)
    ensures Replayed(cfg, cells, w', k + 1, s) && Reads(buf, cp', y)
    ensures SameBeyond(cfg.n, w.cells, w'.cells)
    ensures Run(cfg, w, buf, cp) == Run(cfg, w', buf, cp')
  {
    hide Stored, Snapped, Sent, Received, Matched, OpenSo, FindField;
    var c := cells[k];
    StoredSnapped(cfg, c);
    ReadsSplit(buf, cp, CharBytes(c), y);
    ReplayedField(cfg, cells, w, k, s);
    MatchedIsOpenSo(cfg, cells, w, k, s, FindField(w.cells, cfg.n, w.formatted, k), k);
    var r := Order(cfg, w, buf, cp);
    w', cp' := r.w, r.cp;
    assert r.ok && cp' == cp + |CharBytes(c)|;
    assert w'.cells == w.cells[k := Snapped(cfg.mode3279, c)];
  }

  // --- The whole screen -------------------------------------------------------------------------

  lemma ReplayCell(cfg: Cfg, cells: seq<Cell>, w: Wr, k: nat, cur: Defaults, buf: seq<byte>, cp: nat,
                   y: seq<byte>) returns (w': Wr, cp': nat)
    requires k < cfg.n <= |cells| && Replayed(cfg, cells, w, k, cur) && StreamSafe(cells, k)
    requires Reads(buf, cp, CellBytes(cells[k], cur) + y)
    ensures Replayed(cfg, cells, w', k + 1, Next(cells[k], cur)) && Reads(buf, cp', y)
    ensures SameBeyond(cfg.n, w.cells, w'.cells)
    ensures Run(cfg, w, buf, cp) == Run(cfg, w', buf, cp')
  {
    if cells[k].fa != 0 {
      w', cp' := ReplayField(cfg, cells, w, k, cur, buf, cp, y);
    } else {
      w', cp' := ReplayChar(cfg, cells, w, k, cur, buf, cp, y);
    }
  }

  lemma {:induction false} ReplayFrom(cfg: Cfg, cells: seq<Cell>, w: Wr, k: nat, cur: Defaults,
                                      buf: seq<byte>, cp: nat, y: seq<byte>)
    returns (w': Wr, cp': nat, last: Defaults)
    requires k <= cfg.n <= |cells| && Replayed(cfg, cells, w, k, cur) && AllStreamSafe(cells, cfg.n)
    requires Reads(buf, cp, CellsBytes(cells, cfg.n, k, cur) + y)
    ensures Replayed(cfg, cells, w', cfg.n, last) && Reads(buf, cp', y)
    ensures SameBeyond(cfg.n, w.cells, w'.cells)
    ensures Run(cfg, w, buf, cp) == Run(cfg, w', buf, cp')
    decreases cfg.n - k
  {
    hide Run, Reads, Replayed, StreamSafe, CellBytes, Next;
    if k == cfg.n {
      assert [] + y == y;
      w', cp', last := w, cp, cur;
    } else {
      var rest := CellsBytes(cells, cfg.n, k + 1, Next(cells[k], cur));
      assert CellsBytes(cells, cfg.n, k, cur) + y == CellBytes(cells[k], cur) + (rest + y);
      var w1, p1 := ReplayCell(cfg, cells, w, k, cur, buf, cp, rest + y);
      w', cp', last := ReplayFrom(cfg, cells, w1, k + 1, Next(cells[k], cur), buf, p1, y);
    }
  }

  // The trailer moves the cursor and changes nothing else on the screen.
  lemma RunTrailer(cfg: Cfg, w: Wr, buf: seq<byte>, cp: nat, cursor: nat)
    requires Ready(cfg, w) && cursor < cfg.n <= 0x3FFF && Reads(buf, cp, Trailer(cfg.n, cursor))
    ensures var o := Run(cfg, w, buf, cp);
            o.ok && o.w.cells == w.cells && o.w.icAddr == cursor
  {
    hide FieldAttr, EncodeAddr, DecodeAddr;
    AddressRoundTrip(cfg.n, cursor);
    var e := EncodeAddr(cfg.n, cursor);
    assert Trailer(cfg.n, cursor) == [ORDER_SBA, e[0], e[1]] + [ORDER_IC];
    ReadsSplit(buf, cp, [ORDER_SBA, e[0], e[1]], [ORDER_IC]);
    assert buf[cp + 3..][0] == buf[cp + 3];
    var s := Order(cfg, w, buf, cp);
    assert s == OrderSBA(cfg, w, buf, cp) && s.ok && s.w.addr == cursor;
    var s1 := Order(cfg, s.w, buf, cp + 3);
    assert s1 == OrderIC(s.w, cp + 3);
    assert |buf| == cp + 4;
    assert Run(cfg, s1.w, buf, cp + 4) == Outcome(s1.w, true);
    assert Run(cfg, s.w, buf, cp + 3) == Run(cfg, s1.w, buf, cp + 4);
  }

  lemma HeaderNeutral(alt: bool, locked: bool)
    ensures var h := Header(alt, locked);
            && |h| == 2
            && (if alt then IsEraseWriteAlternate(h[0]) && !IsEraseAllUnprotected(h[0])
                else IsEraseWrite(h[0]) && !IsEraseWriteAlternate(h[0]) && !IsEraseAllUnprotected(h[0]))
            && h[1] % 2 == 0
  {
  }

  /** The write control character of a snapshot restores the keyboard if and only if it was not locked, and leaves
      modified flags alone. */
  lemma KeyboardRestored(s: Dev, locked: bool)
    requires s.N() <= |s.cells|
    ensures var buf := SnapStream(s, locked);
            |buf| >= 2 && (buf[1] / 2 % 2 == 1 <==> !locked) && buf[1] % 2 == 0
  {
    hide CellsBytes, Trailer;
  }

  // A cleared screen is where a replay begins.
  lemma BeginReplayed(m: Model, v: Dev, cells: seq<Cell>, wcc: byte)
    requires Invariant(m, v) && Blank(v) && !m.dbcs && v.N() <= |cells| == |v.cells| && wcc % 2 == 0
    ensures Replayed(WriteCfg(m, v), cells, WriteBegin(m, v, wcc), 0, NO_DEFAULTS)
  {
  }

  /** Replaying a snapshot of `s` on any device state of the same model succeeds, restores the
      screen size, the formatted flag and the cursor, and stores exactly the snapped cells. */
  lemma ReplayExact(m: Model, s: Dev, v: Dev, locked: bool)
    requires Invariant(m, s) && Invariant(m, v) && !m.dbcs && AllStreamSafe(s.cells, s.N())
    ensures var r := Processed(m, v, SnapStream(s, locked));
            && r.pds == Okay
            && r.v.rows == s.rows && r.v.cols == s.cols && r.v.alt == s.alt
            && r.v.cursor == s.cursor && r.v.formatted == s.formatted
            && forall k :: 0 <= k < s.N() ==> r.v.cells[k] == Snapped(m.mode3279, s.cells[k])
  {
    hide Erased, Run, CellsBytes, Trailer, Header, WriteBegin, Snapped, PostProcess, Replayed;
    var buf, h := SnapStream(s, locked), Header(s.alt, locked);
    HeaderNeutral(s.alt, locked);
    var e := Erased(m, v, s.alt);
    ErasedBlank(m, v, s.alt);
    var cfg, n := WriteCfg(m, e), s.N();
    BeginReplayed(m, e, s.cells, h[1]);
    assert buf[0] == h[0] && buf[1] == h[1];
    var y := Trailer(n, s.cursor);
    assert Reads(buf, 2, CellsBytes(s.cells, n, 0, NO_DEFAULTS) + y);
    var w, p, last := ReplayFrom(cfg, s.cells, WriteBegin(m, e, h[1]), 0, NO_DEFAULTS, buf, 2, y);
    ReplayedReady(cfg, s.cells, w, last);
    RunTrailer(cfg, w, buf, p, s.cursor);
    SnappedField(m.mode3279, s.cells, w.cells, n);
  }

  lemma ReplayedReady(cfg: Cfg, cells: seq<Cell>, w: Wr, last: Defaults)
    requires cfg.n <= |cells| && Replayed(cfg, cells, w, cfg.n, last)
    ensures Ready(cfg, w) && |w.cells| == |cells|
    ensures forall k :: 0 <= k < cfg.n ==> w.cells[k] == Snapped(cfg.mode3279, cells[k])
  {
  }

  lemma SnappedField(mode3279: bool, cells: seq<Cell>, snapped: seq<Cell>, n: nat)
    requires n <= |cells| == |snapped|
    requires forall k :: 0 <= k < n ==> snapped[k] == Snapped(mode3279, cells[k])
    ensures HasField(snapped, n) == HasField(cells, n)
  {
    hide Printable;
    assert forall k :: 0 <= k < n ==> (snapped[k].fa != 0 <==> cells[k].fa != 0);
  }

  /** The replay gives back the screen if and only if every cell is faithful. */
  lemma ReplayFaithful(m: Model, s: Dev, v: Dev, locked: bool)
    requires Invariant(m, s) && Invariant(m, v) && !m.dbcs && AllStreamSafe(s.cells, s.N())
    ensures var r := Processed(m, v, SnapStream(s, locked)).v;
            (r.N() == s.N() && forall k :: 0 <= k < s.N() ==> r.cells[k] == s.cells[k])
            <==> forall k :: 0 <= k < s.N() ==> Faithful(m.mode3279, s.cells[k])
  {
    hide Processed, SnapStream, Snapped, Faithful;
    ReplayExact(m, s, v, locked);
    var r := Processed(m, v, SnapStream(s, locked)).v;
    forall k | 0 <= k < s.N()
      ensures r.cells[k] == s.cells[k] <==> Faithful(m.mode3279, s.cells[k])
    {
      FaithfulIffSame(m.mode3279, s.cells[k]);
    }
  }

  /** A field with a background of its own comes back with its foreground as background. */
  lemma BackgroundLost(fa: byte, fg: byte, bg: byte)
    requires fa >= 0xC0 && fa % 4 < 2 && fg >= 0xF0 && bg >= 0xF0 && fg != bg
    ensures var c := NULL_CELL.(fa := fa, fg := fg, bg := bg);
            CellOk(c) && !Faithful(true, c) && Snapped(true, c) == c.(bg := fg)
  {
    hide Printable;
    PrintableIdentity(fa);
  }
}
