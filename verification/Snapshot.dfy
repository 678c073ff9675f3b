/**
 The command that reproduces the screen (ctlr_snap_buffer, Common/ctlr.c:1079-1190) and what the
 write interpreter makes of it.
 */
module Snapshot {
  import opened Bytes
  import opened Screen
  import opened DbcsLook
  import opened WriteOrders
  import opened Commands
  import opened WriteSafety
  import opened DeviceInvariant
  import D = Device

  // --- The stream -----------------------------------------------------------------------------

  // host_cs: the host's number of a character set.
  function HostSet(cs: byte): byte
  {
    if cs % 4 == 0 then 0 else if cs % 4 == CS_DBCS then 0xF8 else 0xF0 + cs % 4
  }

  predicate IsGe(cs: byte) { cs / 4 % 2 == 1 }

  function HostGr(gr: byte): byte { if gr == 0 then 0 else 0xF0 + gr % 16 }

  // The SA values that describe a character.
  function Sent(c: Cell): Defaults
  {
    Defaults(c.fg, c.bg, HostGr(c.gr), HostSet(c.cs), c.ic)
  }

  // One SA order, unless the value is the current one.
  function Sa(attr: byte, v: byte, current: byte): seq<byte>
  {
    if v == current then [] else [ORDER_SA, attr, v]
  }

  function Pair(attr: byte, v: byte, send: bool): seq<byte>
  {
    if send then [attr, v] else []
  }

  // The background pair carries the foreground colour.
  function OptionalPairs(c: Cell): seq<byte>
  {
    Pair(XA_FOREGROUND, c.fg, c.fg != 0)
    + (Pair(XA_BACKGROUND, c.fg, c.bg != 0)
       + (Pair(XA_HIGHLIGHTING, HostGr(c.gr), c.gr != 0)
          + Pair(XA_CHARSET, HostSet(c.cs), c.cs % 4 != 0)))
  }

  function FieldPairs(c: Cell): seq<byte>
  {
    [XA_3270, CodeTable(c.fa % 64)] + OptionalPairs(c)
  }

  function PairCount(c: Cell): byte
  {
    1 + (if c.fg != 0 then 1 else 0) + (if c.bg != 0 then 1 else 0)
    + (if c.gr != 0 then 1 else 0) + (if c.cs % 4 != 0 then 1 else 0)
  }

  function CharBytes(c: Cell): seq<byte>
  {
    if IsGe(c.cs) then [ORDER_GE, c.ec] else [c.ec]
  }

  function SaBytes(s: Defaults, cur: Defaults): seq<byte>
  {
    Sa(XA_FOREGROUND, s.fg, cur.fg) + (Sa(XA_BACKGROUND, s.bg, cur.bg)
    + (Sa(XA_HIGHLIGHTING, s.gr, cur.gr) + (Sa(XA_CHARSET, s.cs, cur.cs)
    + Sa(XA_INPUT_CONTROL, s.ic, cur.ic))))
  }

  // The bytes for one cell, when the SA values `cur` are in force.
  function CellBytes(c: Cell, cur: Defaults): seq<byte>
  {
    if c.fa != 0 then [ORDER_SFE, PairCount(c)] + FieldPairs(c)
    else SaBytes(Sent(c), cur) + CharBytes(c)
  }

  // The SA values in force after a cell.
  function Next(c: Cell, cur: Defaults): Defaults
  {
    if c.fa != 0 then cur else Sent(c)
  }

  // The bytes for the cells from `k` on.
  function CellsBytes(cells: seq<Cell>, n: nat, k: nat, cur: Defaults): seq<byte>
    requires k <= n <= |cells|
    decreases n - k
  {
    if k == n then []
    else CellBytes(cells[k], cur) + CellsBytes(cells, n, k + 1, Next(cells[k], cur))
  }

  function Trailer(n: nat, cursor: nat): seq<byte>
  {
    [ORDER_SBA] + EncodeAddr(n, cursor) + [ORDER_IC]
  }

  // The command and the write control character; `locked` tells whether the keyboard is locked.
  function Header(alt: bool, locked: bool): seq<byte>
  {
    [if alt then 0x0D else 0x05, CodeTable(if locked then 0 else 2)]
  }

  function SnapStream(v: Dev, locked: bool): seq<byte>
    requires v.N() <= |v.cells|
  {
    Header(v.alt, locked) + (CellsBytes(v.cells, v.N(), 0, NO_DEFAULTS) + Trailer(v.N(), v.cursor))
  }

  method AppendSa(out: seq<byte>, attr: byte, v: byte, current: byte) returns (out': seq<byte>)
    ensures out' == out + Sa(attr, v, current)
  {
    out' := out;
    if v != current {
      out' := out' + [ORDER_SA, attr, v];
    }
  }

  method AppendField(out: seq<byte>, c: Cell) returns (out': seq<byte>)
    ensures out' == out + ([ORDER_SFE, PairCount(c)] + FieldPairs(c))
  {
    hide CodeTable;
    var count: byte := 1;
    var pairs := [XA_3270, CodeTable(c.fa % 64)];
    if c.fg != 0 {
      pairs, count := pairs + [XA_FOREGROUND, c.fg], count + 1;
    }
    if c.bg != 0 {
      pairs, count := pairs + [XA_BACKGROUND, c.fg], count + 1;
    }
    if c.gr != 0 {
      pairs, count := pairs + [XA_HIGHLIGHTING, HostGr(c.gr)], count + 1;
    }
    if c.cs % 4 != 0 {
      pairs, count := pairs + [XA_CHARSET, HostSet(c.cs)], count + 1;
    }
    out' := out + [ORDER_SFE, count] + pairs;
  }

  method AppendCell(out: seq<byte>, c: Cell, cur: Defaults) returns (out': seq<byte>, cur': Defaults)
    ensures out' == out + CellBytes(c, cur) && cur' == Next(c, cur)
  {
    hide Sa, FieldPairs, PairCount, Sent;
    out', cur' := out, cur;
    if c.fa != 0 {
      out' := AppendField(out, c);
    } else {
      var s := Sent(c);
      out' := AppendSa(out', XA_FOREGROUND, s.fg, cur.fg);
      out' := AppendSa(out', XA_BACKGROUND, s.bg, cur.bg);
      out' := AppendSa(out', XA_HIGHLIGHTING, s.gr, cur.gr);
      out' := AppendSa(out', XA_CHARSET, s.cs, cur.cs);
      out' := AppendSa(out', XA_INPUT_CONTROL, s.ic, cur.ic);
      cur' := s;
      if IsGe(c.cs) {
        out' := out' + [ORDER_GE];
      }
      out' := out' + [c.ec];
    }
  }

  method SnapBuffer(dev: D.Device, locked: bool) returns (out: seq<byte>)
    requires dev.Valid()
    ensures out == SnapStream(dev.Abs(), locked)
  {
    hide CodeTable, CellBytes, Next, EncodeAddr;
    var n := dev.N();
    ghost var cells := dev.ea[..];
    out := [if dev.screenAlt then 0x0D else 0x05, CodeTable(if locked then 0 else 2)];
    ghost var head := out;
    var cur := NO_DEFAULTS;
    var baddr := 0;
    while true
      invariant baddr < n && dev.ea[..] == cells
      invariant out + CellsBytes(cells, n, baddr, cur) == head + CellsBytes(cells, n, 0, NO_DEFAULTS)
      decreases n - baddr
    {
      out, cur := AppendCell(out, dev.ea[baddr], cur);
      if baddr + 1 == n {
        assert out + [] == out;
        break;
      }
      baddr := Inc(baddr, n);
    }
    assert out == head + CellsBytes(cells, n, 0, NO_DEFAULTS);
    out := out + [ORDER_SBA] + EncodeAddr(n, dev.cursorAddr) + [ORDER_IC];
  }
}
