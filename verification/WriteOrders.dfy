/**
 The 3270 orders as functions on the state of the write interpreter (ctlr_write,
 Common/ctlr.c:1311-2149; section 4.3 of the IBM 3270 Data Stream Programmer's Reference,
 GA23-0059).  Orders that run over a range of cells are given by what they do to each cell of the
 range, not by the loops that do it.
 */
module WriteOrders {
  import opened Bytes
  import opened Screen
  import opened DbcsLook

  const ORDER_PT: byte := 0x05
  const ORDER_GE: byte := 0x08
  const ORDER_SBA: byte := 0x11
  const ORDER_EUA: byte := 0x12
  const ORDER_IC: byte := 0x13
  const ORDER_SF: byte := 0x1D
  const ORDER_SA: byte := 0x28
  const ORDER_SFE: byte := 0x29
  const ORDER_MF: byte := 0x2C
  const ORDER_RA: byte := 0x3C

  const XA_ALL: byte := 0x00
  const XA_3270: byte := 0xC0
  const XA_HIGHLIGHTING: byte := 0x41
  const XA_FOREGROUND: byte := 0x42
  const XA_CHARSET: byte := 0x43
  const XA_BACKGROUND: byte := 0x45
  const XA_INPUT_CONTROL: byte := 0xFE

  // Format control orders that are stored in the buffer as they are.
  predicate IsFormatControl(c: byte)
  {
    c in {0x3F, EBC_DUP, EBC_FM, EBC_FF, EBC_CR, EBC_NL, EBC_EM, 0x25, 0xFF}
  }

  // Second bytes of the DBCS control codes X'00xx'.
  predicate IsDbcsControl(c: byte)
  {
    c in {EBC_NULL, EBC_NL, EBC_EM, EBC_FF, EBC_CR, EBC_DUP, EBC_FM}
  }

  predicate IsDbcsCode(c: byte) { 0x40 <= c <= 0xFE }

  // --- Buffer addresses in the data stream --------------------------------------------------

  // DECODE_BADDR: 14-bit binary when the two top bits are zero, otherwise 12-bit coded.
  function DecodeAddr(c1: byte, c2: byte): nat
  {
    if c1 < 0x40 then c1 * 256 + c2 else c1 % 64 * 64 + c2 % 64
  }

  // code_table: 6-bit values as printable bytes.
  function CodeTable(k: nat): byte
    requires k < 64
  {
    match k
    case 0 => 0x40 case 1 => 0xC1 case 2 => 0xC2 case 3 => 0xC3 case 4 => 0xC4 case 5 => 0xC5
    case 6 => 0xC6 case 7 => 0xC7 case 8 => 0xC8 case 9 => 0xC9 case 10 => 0x4A case 11 => 0x4B
    case 12 => 0x4C case 13 => 0x4D case 14 => 0x4E case 15 => 0x4F case 16 => 0x50 case 17 => 0xD1
    case 18 => 0xD2 case 19 => 0xD3 case 20 => 0xD4 case 21 => 0xD5 case 22 => 0xD6 case 23 => 0xD7
    case 24 => 0xD8 case 25 => 0xD9 case 26 => 0x5A case 27 => 0x5B case 28 => 0x5C case 29 => 0x5D
    case 30 => 0x5E case 31 => 0x5F case 32 => 0x60 case 33 => 0x61 case 34 => 0xE2 case 35 => 0xE3
    case 36 => 0xE4 case 37 => 0xE5 case 38 => 0xE6 case 39 => 0xE7 case 40 => 0xE8 case 41 => 0xE9
    case 42 => 0x6A case 43 => 0x6B case 44 => 0x6C case 45 => 0x6D case 46 => 0x6E case 47 => 0x6F
    case 48 => 0xF0 case 49 => 0xF1 case 50 => 0xF2 case 51 => 0xF3 case 52 => 0xF4 case 53 => 0xF5
    case 54 => 0xF6 case 55 => 0xF7 case 56 => 0xF8 case 57 => 0xF9 case 58 => 0x7A case 59 => 0x7B
    case 60 => 0x7C case 61 => 0x7D case 62 => 0x7E case _ => 0x7F
  }

  // ENCODE_BADDR
  function EncodeAddr(n: nat, a: nat): (r: seq<byte>)
    ensures |r| == 2
  {
    if n > 0x1000 then [a / 256 % 64, a % 256]
    else [CodeTable(a / 64 % 64), CodeTable(a % 64)]
  }

  // The code table only decorates a 6-bit value with bits that decoding ignores.
  lemma CodeTableDecodes(k: nat)
    requires k < 64
    ensures CodeTable(k) >= 0x40 && CodeTable(k) % 64 == k
  {
  }

  lemma Decode12(a: nat, c1: byte, c2: byte)
    requires a < 0x1000 && c1 >= 0x40 && c1 % 64 == a / 64 && c2 % 64 == a % 64
    ensures DecodeAddr(c1, c2) == a
  {
  }

  lemma AddressRoundTrip(n: nat, a: nat)
    requires a < n <= 0x4000
    ensures var e := EncodeAddr(n, a); DecodeAddr(e[0], e[1]) == a
  {
    hide CodeTable;
    if n <= 0x1000 {
      CodeTableDecodes(a / 64);
      CodeTableDecodes(a % 64);
      Decode12(a, CodeTable(a / 64), CodeTable(a % 64));
    }
  }

  // --- State of the interpreter -------------------------------------------------------------

  datatype Cfg = Cfg(n: nat, mode3279: bool, dbcs: bool)

  // `icAddr` is where the last IC order asked for the cursor, or -1.
  datatype Wr = Wr(cells: seq<Cell>, addr: nat, formatted: bool, d: Defaults,
                   curFa: byte, lastCmd: bool, lastZpt: bool, icAddr: int)

  // After an order: the state, the position of the byte after the order, and whether it was
  // accepted.  After a rejected order only the state matters.
  datatype Step = Step(w: Wr, cp: nat, ok: bool)

  predicate Ready(cfg: Cfg, w: Wr)
  {
    w.addr < cfg.n <= |w.cells| && -1 <= w.icAddr < cfg.n
  }

  function AttrAt(cfg: Cfg, w: Wr): byte
    requires Ready(cfg, w)
  {
    FieldAttr(w.cells, cfg.n, w.formatted, w.addr)
  }

  function LookAt(cfg: Cfg, w: Wr, a: nat): Look
    requires Ready(cfg, w) && a < cfg.n
  {
    LookLeft(cfg.dbcs, w.cells, cfg.n, w.formatted, a)
  }

  function Flags(w: Wr, lastCmd: bool): Wr
  {
    w.(lastCmd := lastCmd, lastZpt := false)
  }

  function Advance(cfg: Cfg, w: Wr): (r: Wr)
    requires Ready(cfg, w)
    ensures Ready(cfg, r)
  {
    w.(addr := Inc(w.addr, cfg.n))
  }

  function Update(w: Wr, c: Cell): (r: Wr)
    requires w.addr < |w.cells|
  {
    w.(cells := w.cells[w.addr := c])
  }

  // Store one character with the default extended attributes and step forward.
  function Place(cfg: Cfg, w: Wr, ec: byte, cs: byte): (r: Wr)
    requires Ready(cfg, w)
    ensures Ready(cfg, r)
    ensures |r.cells| == |w.cells|
  {
    Advance(cfg, Update(w, Stored(cfg.mode3279, w.cells[w.addr], ec, cs, w.d)))
  }

  function StartField(cfg: Cfg, w: Wr, fa: byte): (r: Wr)
    requires Ready(cfg, w)
    ensures Ready(cfg, r)
    ensures |r.cells| == |w.cells|
  {
    Update(w, Started(cfg.mode3279, w.cells[w.addr], fa)).(curFa := fa, formatted := true)
  }

  // --- SF, SBA, IC, GE ----------------------------------------------------------------------

  function OrderSF(cfg: Cfg, w: Wr, buf: seq<byte>, cp: nat): Step
    requires Ready(cfg, w)
  {
    if cp + 1 >= |buf| then Step(w, cp, false)
    else Step(Flags(Advance(cfg, StartField(cfg, w, buf[cp + 1])), true), cp + 2, true)
  }

  function OrderSBA(cfg: Cfg, w: Wr, buf: seq<byte>, cp: nat): Step
    requires Ready(cfg, w)
  {
    if cp + 2 >= |buf| then Step(w, cp, false)
    else
      // The address is stored before it is checked.
      var w1 := w.(addr := DecodeAddr(buf[cp + 1], buf[cp + 2]));
      if w1.addr >= cfg.n then Step(w1, cp, false)
      else Step(Flags(w1.(curFa := AttrAt(cfg, w1)), true), cp + 3, true)
  }

  function OrderIC(w: Wr, cp: nat): Step
  {
    Step(Flags(w.(icAddr := w.addr), true), cp + 1, true)
  }

  function OrderGE(cfg: Cfg, w: Wr, buf: seq<byte>, cp: nat): Step
    requires Ready(cfg, w)
  {
    if cp + 1 >= |buf| then Step(w, cp, false)
    else
      var w1 := Place(cfg, w, buf[cp + 1], CS_GE);
      Step(Flags(w1.(curFa := AttrAt(cfg, w1)), false), cp + 2, true)
  }

  // --- PT -----------------------------------------------------------------------------------

  function Nulled(mode3279: bool, c: Cell): Cell
  {
    WithExtended(mode3279, WithChar(c, EBC_NULL, 0), NO_DEFAULTS)
  }

  // How many cells from `a` on are nulled when a tab goes to `t`.
  function NullCount(cells: seq<Cell>, n: nat, a: nat, t: nat): (r: nat)
    requires a < n <= |cells| && t < n
    ensures r <= Off(a, t, n)
    decreases Off(a, t, n)
  {
    if a == t || cells[a].fa != 0 then 0
    else 1 + NullCount(cells, n, Inc(a, n), t)
  }

  function NullRange(cfg: Cfg, cells: seq<Cell>, a: nat, m: nat): (r: seq<Cell>)
    requires a < cfg.n <= |cells|
    ensures |r| == |cells|
  {
    seq(|cells|, k requires 0 <= k < |cells| =>
      if k < cfg.n && Off(a, k, cfg.n) < m then Nulled(cfg.mode3279, cells[k]) else cells[k])
  }

  function TabTarget(cfg: Cfg, w: Wr): (t: nat)
    requires Ready(cfg, w)
    ensures t < cfg.n
  {
    var t := NextUnprotected(w.cells, cfg.n, w.addr);
    if t < w.addr then 0 else t
  }

  function OrderPT(cfg: Cfg, w: Wr, cp: nat): Step
    requires Ready(cfg, w)
  {
    var c := w.cells[w.addr];
    if c.fa != 0 && !IsProtected(c.fa) then Step(Flags(Advance(cfg, w), true), cp + 1, true)
    else
      var t := TabTarget(cfg, w);
      var w1 :=
        if !w.lastCmd || w.lastZpt then
          var m := NullCount(w.cells, cfg.n, w.addr, t);
          w.(cells := NullRange(cfg, w.cells, w.addr, m), lastZpt := w.lastZpt || t == 0)
        else w.(lastZpt := false);
      Step(w1.(addr := t, lastCmd := true), cp + 1, true)
  }

  // --- RA -----------------------------------------------------------------------------------

  // The cells after `m` characters have been stored from `a` on, alternating between `c1` and
  // `c2`.  `m` may exceed `n`: a DBCS fill on an odd-sized screen can go round twice.
  function Fill(cfg: Cfg, cells: seq<Cell>, a: nat, m: nat, c1: byte, c2: byte, cs: byte,
                d: Defaults): (r: seq<Cell>)
    requires a < cfg.n <= |cells|
    ensures |r| == |cells|
  {
    seq(|cells|, k requires 0 <= k < |cells| =>
      if k < cfg.n && Off(a, k, cfg.n) < m then
        var o := Off(a, k, cfg.n);
        var last := if o + cfg.n < m then o + cfg.n else o;
        Stored(cfg.mode3279, cells[k], if last % 2 == 0 then c1 else c2, cs, d)
      else cells[k])
  }

  // Characters stored by a DBCS fill, two at a time, until the target address is reached.
  function DbcsFillCount(n: nat, a: nat, t: nat): (m: nat)
    requires a < n && t < n
    ensures 0 < m <= 2 * n
  {
    var l := Lap(a, t, n);
    if l % 2 == 0 then l else l + n
  }

  function OrderRA(cfg: Cfg, w: Wr, buf: seq<byte>, cp: nat): Step
    requires Ready(cfg, w)
  {
    if cp + 2 >= |buf| then Step(w, cp, false)
    else
      var t := DecodeAddr(buf[cp + 1], buf[cp + 2]);
      if t >= cfg.n || cp + 3 >= |buf| then Step(w, cp, false)
      else
        var look := LookAt(cfg, w, w.addr);
        if look.state == DbRight then Step(w, cp, false)
        else if cfg.dbcs && (w.d.cs == CS_DBCS || look.state == DbLeft) then
          DbcsRA(cfg, w, buf, cp, t)
        else
          SingleRA(cfg, w, buf, cp, t)
  }

  function DbcsRA(cfg: Cfg, w: Wr, buf: seq<byte>, cp: nat, t: nat): Step
    requires Ready(cfg, w) && t < cfg.n && cp + 3 < |buf|
  {
    if (t + w.addr) % 2 == 1 || cp + 4 >= |buf| then Step(w, cp, false)
    else
      var c1, c2 := buf[cp + 3], buf[cp + 4];
      if c1 != EBC_NULL && !(IsDbcsCode(c1) && IsDbcsCode(c2)) then Step(w, cp, false)
      else
        // An invalid control code is rejected, but only after the fill.
        var m := DbcsFillCount(cfg.n, w.addr, t);
        var w1 := w.(cells := Fill(cfg, w.cells, w.addr, m, c1, c2, w.d.cs, w.d), addr := t);
        Step(Flags(w1.(curFa := AttrAt(cfg, w1)), true), cp + 5, c1 != EBC_NULL || IsDbcsControl(c2))
  }

  function SingleRA(cfg: Cfg, w: Wr, buf: seq<byte>, cp: nat, t: nat): Step
    requires Ready(cfg, w) && t < cfg.n && cp + 3 < |buf|
  {
    var ge := buf[cp + 3] == ORDER_GE;
    var p := if ge then cp + 4 else cp + 3;
    if p >= |buf| then Step(w, cp, false)
    else
      var cs := if ge then CS_GE else w.d.cs;
      var cells := Fill(cfg, w.cells, w.addr, Lap(w.addr, t, cfg.n), buf[p], buf[p], cs, w.d);
      var w1 := w.(cells := cells, addr := t);
      Step(Flags(w1.(curFa := AttrAt(cfg, w1)), true), p + 1, true)
  }

  // --- EUA ----------------------------------------------------------------------------------

  // The attribute in force `o` cells after `a`, when `cur` is in force before `a`.
  function RunningAttr(cells: seq<Cell>, n: nat, a: nat, o: nat, cur: byte): byte
    requires a < n <= |cells| && o < n
    decreases o
  {
    if cells[At(a, o, n)].fa != 0 then cells[At(a, o, n)].fa
    else if o == 0 then cur
    else RunningAttr(cells, n, a, o - 1, cur)
  }

  function EraseRange(cfg: Cfg, cells: seq<Cell>, a: nat, m: nat, cur: byte): (r: seq<Cell>)
    requires a < cfg.n <= |cells|
    ensures |r| == |cells|
  {
    seq(|cells|, k requires 0 <= k < |cells| =>
      if k < cfg.n && Off(a, k, cfg.n) < m && cells[k].fa == 0
         && !IsProtected(RunningAttr(cells, cfg.n, a, Off(a, k, cfg.n), cur))
      then WithChar(cells[k], EBC_NULL, CS_BASE) else cells[k])
  }

  function OrderEUA(cfg: Cfg, w: Wr, buf: seq<byte>, cp: nat): Step
    requires Ready(cfg, w)
  {
    if cp + 2 >= |buf| then Step(w, cp, false)
    else
      var t := DecodeAddr(buf[cp + 1], buf[cp + 2]);
      if t >= cfg.n || LookAt(cfg, w, w.addr).state == DbRight || LookAt(cfg, w, t).state == DbLeft
      then Step(w, cp, false)
      else
        var cells := EraseRange(cfg, w.cells, w.addr, Lap(w.addr, t, cfg.n), w.curFa);
        var w1 := w.(cells := cells, addr := t);
        Step(Flags(w1.(curFa := AttrAt(cfg, w1)), true), cp + 3, true)
  }

  // --- MF -----------------------------------------------------------------------------------

  // One attribute pair of an MF order.
  function Modified(cfg: Cfg, c: Cell, attr: byte, v: byte): Cell
  {
    if attr == XA_3270 then WithAttr(c, v, c.cs)
    else if attr == XA_FOREGROUND then WithFg(cfg.mode3279, c, v)
    else if attr == XA_BACKGROUND then WithBg(cfg.mode3279, c, v)
    else if attr == XA_HIGHLIGHTING then c.(gr := v % 16)
    else if attr == XA_CHARSET then
      c.(cs := if v == 0xF1 then CS_APL else if v == 0xF8 then CS_DBCS else CS_BASE)
    else if attr == XA_INPUT_CONTROL then c.(ic := if v == 1 then 1 else 0)
    else c
  }

  datatype MfResult = MfResult(c: Cell, ok: bool)

  // The `na` pairs starting at `p`; stops at a pair that is not complete.
  function MfPairs(cfg: Cfg, c: Cell, buf: seq<byte>, p: nat, na: nat): MfResult
    decreases na
  {
    if na == 0 then MfResult(c, true)
    else if p + 1 >= |buf| then MfResult(c, false)
    else MfPairs(cfg, Modified(cfg, c, buf[p], buf[p + 1]), buf, p + 2, na - 1)
  }

  function OrderMF(cfg: Cfg, w: Wr, buf: seq<byte>, cp: nat): Step
    requires Ready(cfg, w)
  {
    if cp + 1 >= |buf| then Step(w, cp, false)
    else
      var na: nat := buf[cp + 1];
      if w.cells[w.addr].fa != 0 then
        // An incomplete pair ends the order early but the address still steps forward.
        var r := MfPairs(cfg, w.cells[w.addr], buf, cp + 2, na);
        Step(Flags(Advance(cfg, Update(w, r.c)), true), cp + 2 + 2 * na, r.ok)
      else
        Step(Flags(w, true), cp + 2 + 2 * na, true)
  }

  // --- SFE ----------------------------------------------------------------------------------

  // Extended attributes gathered by SFE; `any` tells whether a 3270 attribute was seen.
  datatype SfeResult = SfeResult(w: Wr, efa: Defaults, any: bool, ok: bool)

  function Gathered(cfg: Cfg, e: Defaults, attr: byte, v: byte): Defaults
  {
    if attr == XA_FOREGROUND then if cfg.mode3279 then e.(fg := v) else e
    else if attr == XA_BACKGROUND then if cfg.mode3279 then e.(bg := v) else e
    else if attr == XA_HIGHLIGHTING then e.(gr := v % 8)
    else if attr == XA_CHARSET then
      e.(cs := if v == 0xF1 then CS_APL else if cfg.dbcs && v == 0xF8 then CS_DBCS else CS_BASE)
    else if attr == XA_INPUT_CONTROL then
      if cfg.dbcs then e.(ic := if v == 1 then 1 else 0) else e
    else e
  }

  function SfePairs(cfg: Cfg, w: Wr, buf: seq<byte>, p: nat, na: nat, e: Defaults, any: bool):
    (r: SfeResult)
    requires Ready(cfg, w)
    ensures Ready(cfg, r.w) && |r.w.cells| == |w.cells| && r.w.addr == w.addr
    decreases na
  {
    if na == 0 then SfeResult(w, e, any, true)
    else if p + 1 >= |buf| then SfeResult(w, e, any, false)
    else if buf[p] == XA_3270 then
      SfePairs(cfg, StartField(cfg, w, buf[p + 1]), buf, p + 2, na - 1, e, true)
    else
      SfePairs(cfg, w, buf, p + 2, na - 1, Gathered(cfg, e, buf[p], buf[p + 1]), any)
  }

  // The attributes applied to the field once all pairs are read.
  function FinishField(cfg: Cfg, w: Wr, e: Defaults): (r: Wr)
    requires Ready(cfg, w)
    ensures Ready(cfg, r)
    ensures |r.cells| == |w.cells|
  {
    var c := w.cells[w.addr].(cs := e.cs);
    Advance(cfg, Update(w, WithExtended(cfg.mode3279, c, e)))
  }

  function OrderSFE(cfg: Cfg, w: Wr, buf: seq<byte>, cp: nat): Step
    requires Ready(cfg, w)
  {
    if cp + 1 >= |buf| then Step(w, cp, false)
    else
      // An incomplete pair ends the order early but a field is started all the same.
      var na: nat := buf[cp + 1];
      var r := SfePairs(cfg, w, buf, cp + 2, na, NO_DEFAULTS, false);
      var w1 := if r.any then r.w else StartField(cfg, r.w, 0);
      Step(Flags(FinishField(cfg, w1, r.efa), true), cp + 2 + 2 * na, r.ok)
  }

  // --- SA -----------------------------------------------------------------------------------

  function SetDefault(cfg: Cfg, d: Defaults, attr: byte, v: byte): Defaults
  {
    if attr == XA_FOREGROUND then if cfg.mode3279 then d.(fg := v) else d
    else if attr == XA_BACKGROUND then if cfg.mode3279 then d.(bg := v) else d
    else if attr == XA_HIGHLIGHTING then d.(gr := v % 16)
    else if attr == XA_ALL then NO_DEFAULTS
    else if attr == XA_CHARSET then
      d.(cs := if v == 0xF1 then CS_APL else if v == 0xF8 then CS_DBCS else CS_BASE)
    else if attr == XA_INPUT_CONTROL then d.(ic := if v == 1 then 1 else 0)
    else d
  }

  function OrderSA(cfg: Cfg, w: Wr, buf: seq<byte>, cp: nat): Step
  {
    if cp + 2 >= |buf| then Step(w, cp, false)
    else Step(Flags(w.(d := SetDefault(cfg, w.d, buf[cp + 1], buf[cp + 2])), true), cp + 3, true)
  }

  // --- Format controls, SO, SI ----------------------------------------------------------------

  function OrderControl(cfg: Cfg, w: Wr, buf: seq<byte>, cp: nat): Step
    requires Ready(cfg, w) && cp < |buf|
  {
    if w.d.cs == CS_DBCS || LookAt(cfg, w, w.addr).state != DbNone then Step(w, cp, false)
    else Step(Flags(Place(cfg, w, buf[cp], w.d.cs), true), cp + 1, true)
  }

  function OrderSO(cfg: Cfg, w: Wr, cp: nat): Step
    requires Ready(cfg, w)
  {
    var look := LookAt(cfg, w, w.addr);
    if look.state == DbRight || (look.state != DbNone && look.why != InAttribute)
    then Step(w, cp, false)
    else Step(Flags(Place(cfg, w, EBC_SO, w.d.cs), true), cp + 1, true)
  }

  // Whether the nearest shift code in front of an SI, scanning back from `x`, is an SO.
  function Matched(cells: seq<Cell>, n: nat, f: int, x: nat): bool
    requires x < n <= |cells| && -1 <= f < n
    decreases Off(Stop(f, n), x, n)
  {
    if x == Stop(f, n) then cells[x].ec == EBC_SO
    else if cells[x].ec == EBC_SI then false
    else cells[x].ec == EBC_SO || Matched(cells, n, f, Dec(x, n))
  }

  function OrderSI(cfg: Cfg, w: Wr, cp: nat): Step
    requires Ready(cfg, w)
  {
    var look := LookAt(cfg, w, w.addr);
    var f := FindField(w.cells, cfg.n, w.formatted, w.addr);
    if look.state == DbRight || (look.state != DbNone && look.why == InField)
       || !Matched(w.cells, cfg.n, f, Dec(w.addr, cfg.n))
    then Step(w, cp, false)
    else Step(Flags(Place(cfg, w, EBC_SI, w.d.cs), true), cp + 1, true)
  }

  // --- NULL and characters ------------------------------------------------------------------

  function PlaceTwo(cfg: Cfg, w: Wr, c1: byte, c2: byte): (r: Wr)
    requires Ready(cfg, w)
    ensures Ready(cfg, r)
    ensures |r.cells| == |w.cells|
  {
    Place(cfg, Place(cfg, w, c1, w.d.cs), c2, w.d.cs)
  }

  function OrderNull(cfg: Cfg, w: Wr, buf: seq<byte>, cp: nat): Step
    requires Ready(cfg, w)
  {
    var look := LookAt(cfg, w, w.addr);
    if look.state == DbRight then Step(w, cp, false)
    else if look.state != DbNone || w.d.cs == CS_DBCS then
      if cp + 1 >= |buf| then Step(w, cp, false)
      else if IsDbcsControl(buf[cp + 1]) then
        Step(Flags(PlaceTwo(cfg, w, EBC_NULL, buf[cp + 1]), false), cp + 2, true)
      else if buf[cp + 1] == ORDER_SF || buf[cp + 1] == ORDER_SFE then
        // A dead position before an attribute.
        Step(Flags(Place(cfg, w, EBC_NULL, w.d.cs), false), cp + 1, true)
      else Step(w, cp, false)
    else Step(Flags(Place(cfg, w, EBC_NULL, w.d.cs), false), cp + 1, true)
  }

  function OrderChar(cfg: Cfg, w: Wr, buf: seq<byte>, cp: nat): Step
    requires Ready(cfg, w) && cp < |buf|
  {
    var c := buf[cp];
    if c <= 0x3F then Step(Flags(w, true), cp + 1, true)
    else
      var look := LookAt(cfg, w, w.addr);
      if look.state == DbRight then Step(w, cp, false)
      else if look.state != DbNone || w.d.cs == CS_DBCS then
        if cp + 1 >= |buf| || !IsDbcsCode(c) || !IsDbcsCode(buf[cp + 1]) then Step(w, cp, false)
        else Step(Flags(PlaceTwo(cfg, w, c, buf[cp + 1]), false), cp + 2, true)
      else Step(Flags(Place(cfg, w, c, w.d.cs), false), cp + 1, true)
  }

  // --- The interpreter ----------------------------------------------------------------------

  function Order(cfg: Cfg, w: Wr, buf: seq<byte>, cp: nat): (r: Step)
    requires Ready(cfg, w) && cp < |buf|
    ensures |r.w.cells| == |w.cells|
    ensures r.ok ==> Ready(cfg, r.w) && r.cp > cp
    ensures -1 <= r.w.icAddr < cfg.n
  {
    var c := buf[cp];
    if c == ORDER_SF then OrderSF(cfg, w, buf, cp)
    else if c == ORDER_SBA then OrderSBA(cfg, w, buf, cp)
    else if c == ORDER_IC then OrderIC(w, cp)
    else if c == ORDER_PT then OrderPT(cfg, w, cp)
    else if c == ORDER_RA then OrderRA(cfg, w, buf, cp)
    else if c == ORDER_EUA then OrderEUA(cfg, w, buf, cp)
    else if c == ORDER_GE then OrderGE(cfg, w, buf, cp)
    else if c == ORDER_MF then OrderMF(cfg, w, buf, cp)
    else if c == ORDER_SFE then OrderSFE(cfg, w, buf, cp)
    else if c == ORDER_SA then OrderSA(cfg, w, buf, cp)
    else if IsFormatControl(c) then OrderControl(cfg, w, buf, cp)
    else if c == EBC_SO then OrderSO(cfg, w, cp)
    else if c == EBC_SI then OrderSI(cfg, w, cp)
    else if c == EBC_NULL then OrderNull(cfg, w, buf, cp)
    else OrderChar(cfg, w, buf, cp)
  }

  datatype Outcome = Outcome(w: Wr, ok: bool)

  function Run(cfg: Cfg, w: Wr, buf: seq<byte>, cp: nat): (r: Outcome)
    requires Ready(cfg, w)
    ensures |r.w.cells| == |w.cells|
    ensures r.ok ==> Ready(cfg, r.w)
    ensures -1 <= r.w.icAddr < cfg.n
    decreases |buf| - cp
  {
    if cp >= |buf| then Outcome(w, true)
    else
      var s := Order(cfg, w, buf, cp);
      if s.ok then Run(cfg, s.w, buf, s.cp) else Outcome(s.w, false)
  }
}
