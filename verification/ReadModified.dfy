/**
 The Read Modified and Read Modified All commands (ctlr_read_modified, insert_sa,
 Common/ctlr.c:675-937).  The specification makes one pass over the cells, from the first
 attribute on the screen round to it again, and asks of each cell alone what it contributes; the
 method below follows the field loops of the source.
 */
module ReadModified {
  import opened Bytes
  import opened Screen
  import opened WriteOrders
  import opened Commands
  import opened WriteSafety
  import opened DeviceInvariant
  import opened Snapshot
  import D = Device

  const AID_CLEAR: byte := 0x6D
  const AID_SELECT: byte := 0x7E
  const AID_SYSREQ: byte := 0xF0
  const SRM_CHAR: byte := 2

  predicate IsPa(aid: byte) { aid in {0x6C, 0x6E, 0x6B} }

  predicate IsShortRead(aid: byte, all: bool) { !all && (IsPa(aid) || aid == AID_CLEAR) }

  predicate SendsData(aid: byte, all: bool) { all || !(IsPa(aid) || aid in {AID_CLEAR, AID_SELECT}) }

  // What the host asked to see: the reply mode and, in character mode, the attribute types.
  datatype Mode = Mode(replyMode: byte, attrs: seq<byte>)
  {
    predicate Wants(attr: byte) { replyMode == SRM_CHAR && attr in attrs }
  }

  // --- One cell -------------------------------------------------------------------------------

  function SaIf(q: Mode, attr: byte, v: byte, current: byte): seq<byte>
  {
    if q.Wants(attr) then Sa(attr, v, current) else []
  }

  // insert_sa: the SA orders in front of a character.
  function SaOrders(q: Mode, s: Defaults, cur: Defaults): seq<byte>
  {
    SaIf(q, XA_FOREGROUND, s.fg, cur.fg) + SaIf(q, XA_BACKGROUND, s.bg, cur.bg)
    + SaIf(q, XA_HIGHLIGHTING, s.gr, cur.gr) + SaIf(q, XA_CHARSET, s.cs, cur.cs)
  }

  function SaAfter(q: Mode, s: Defaults, cur: Defaults): Defaults
  {
    Defaults(if q.Wants(XA_FOREGROUND) then s.fg else cur.fg,
             if q.Wants(XA_BACKGROUND) then s.bg else cur.bg,
             if q.Wants(XA_HIGHLIGHTING) then s.gr else cur.gr,
             if q.Wants(XA_CHARSET) then s.cs else cur.cs, cur.ic)
  }

  function CharData(q: Mode, c: Cell, cur: Defaults): seq<byte>
  {
    SaOrders(q, Sent(c), cur) + CharBytes(c)
  }

  function Sba(n: nat, a: nat): seq<byte> { [ORDER_SBA] + EncodeAddr(n, a) }

  // Whether the character at `p` is sent: it is not null and its field is modified.
  predicate SendsChar(cells: seq<Cell>, n: nat, p: nat, send: bool)
    requires p < n <= |cells|
  {
    send && cells[p].ec != 0 && IsModified(FieldAttr(cells, n, true, p))
  }

  // The contribution of the cell at `p`.
  function CellData(q: Mode, cells: seq<Cell>, n: nat, p: nat, send: bool, cur: Defaults): seq<byte>
    requires p < n <= |cells|
  {
    if cells[p].fa != 0 then if IsModified(cells[p].fa) then Sba(n, Inc(p, n)) else []
    else if SendsChar(cells, n, p, send) then CharData(q, cells[p], cur)
    else []
  }

  function CellAfter(q: Mode, cells: seq<Cell>, n: nat, p: nat, send: bool, cur: Defaults): Defaults
    requires p < n <= |cells|
  {
    if cells[p].fa == 0 && SendsChar(cells, n, p, send) then SaAfter(q, Sent(cells[p]), cur) else cur
  }

  // --- The whole reply --------------------------------------------------------------------------

  // The cells that lie `j` or more positions after `s`, in order.
  function FieldData(q: Mode, cells: seq<Cell>, n: nat, s: nat, j: nat, send: bool, cur: Defaults):
    seq<byte>
    requires s < n <= |cells| && j <= n
    decreases n - j
  {
    if j == n then []
    else
      var p := At(s, j, n);
      CellData(q, cells, n, p, send, cur)
      + FieldData(q, cells, n, s, j + 1, send, CellAfter(q, cells, n, p, send, cur))
  }

  // An unformatted screen: all its non-null cells from `k` on.
  function PlainData(q: Mode, cells: seq<Cell>, n: nat, k: nat, cur: Defaults): seq<byte>
    requires k <= n <= |cells|
    decreases n - k
  {
    if k == n then []
    else if cells[k].ec == 0 then PlainData(q, cells, n, k + 1, cur)
    else CharData(q, cells[k], cur) + PlainData(q, cells, n, k + 1, SaAfter(q, Sent(cells[k]), cur))
  }

  // The address of the first attribute at or after `k`, or `n`.
  function FirstField(cells: seq<Cell>, n: nat, k: nat): (r: nat)
    requires k <= n <= |cells|
    ensures k <= r <= n && (r < n ==> cells[r].fa != 0)
    ensures forall j :: k <= j < r ==> cells[j].fa == 0
    decreases n - k
  {
    if k == n || cells[k].fa != 0 then k else FirstField(cells, n, k + 1)
  }

  function AidBytes(n: nat, aid: byte, cursor: nat): seq<byte>
  {
    if aid == AID_SYSREQ then [0x01, 0x6C, 0x61, 0x02] else [aid] + EncodeAddr(n, cursor)
  }

  function ReadReply(q: Mode, v: Dev, aid: byte, all: bool): seq<byte>
    requires v.N() <= |v.cells| && 0 < v.N()
  {
    var n := v.N();
    if aid != AID_SYSREQ && IsShortRead(aid, all) then [aid]
    else
      AidBytes(n, aid, v.cursor)
      + if v.formatted && FirstField(v.cells, n, 0) < n then
          FieldData(q, v.cells, n, FirstField(v.cells, n, 0), 0, SendsData(aid, all), NO_DEFAULTS)
        else PlainData(q, v.cells, n, 0, NO_DEFAULTS)
  }

  // --- The method -------------------------------------------------------------------------------

  lemma FirstFieldFrom(cells: seq<Cell>, n: nat, k: nat)
    requires k < n <= |cells| && cells[k].fa == 0
    ensures FirstField(cells, n, k) == FirstField(cells, n, k + 1)
  {
  }

  lemma SomeFirstField(cells: seq<Cell>, n: nat)
    requires n <= |cells| && HasField(cells, n)
    ensures FirstField(cells, n, 0) < n
  {
  }

  method FindFirstField(dev: D.Device, n: nat) returns (s: nat)
    requires 0 < n <= dev.ea.Length && HasField(dev.ea[..], n)
    ensures s == FirstField(dev.ea[..], n, 0) < n
  {
    s := 0;
    ghost var first := FirstField(dev.ea[..], n, 0);
    SomeFirstField(dev.ea[..], n);
    while dev.ea[s].fa == 0
      invariant s <= first < n && first == FirstField(dev.ea[..], n, s)
      decreases n - s
    {
      FirstFieldFrom(dev.ea[..], n, s);
      s := Inc(s, n);
    }
  }

  method AppendSaIf(out: seq<byte>, q: Mode, attr: byte, v: byte, current: byte) returns (out': seq<byte>)
    ensures out' == out + SaIf(q, attr, v, current)
  {
    out' := out;
    if q.Wants(attr) {
      out' := AppendSa(out, attr, v, current);
    }
  }

  method AppendChar(out: seq<byte>, q: Mode, c: Cell, cur: Defaults)
    returns (out': seq<byte>, cur': Defaults)
    ensures out' == out + CharData(q, c, cur) && cur' == SaAfter(q, Sent(c), cur)
  {
    hide SaIf, Sent;
    var s := Sent(c);
    out' := AppendSaIf(out, q, XA_FOREGROUND, s.fg, cur.fg);
    out' := AppendSaIf(out', q, XA_BACKGROUND, s.bg, cur.bg);
    out' := AppendSaIf(out', q, XA_HIGHLIGHTING, s.gr, cur.gr);
    out' := AppendSaIf(out', q, XA_CHARSET, s.cs, cur.cs);
    cur' := SaAfter(q, s, cur);
    if IsGe(c.cs) {
      out' := out' + [ORDER_GE];
    }
    out' := out' + [c.ec];
  }

  // One step of the pass over the cells, with output gathered so far.
  lemma FieldDataStep(q: Mode, cells: seq<Cell>, n: nat, s: nat, j: nat, send: bool, cur: Defaults,
                      out: seq<byte>)
    requires s < n <= |cells| && j < n
    ensures var p := At(s, j, n);
            out + FieldData(q, cells, n, s, j, send, cur)
            == (out + CellData(q, cells, n, p, send, cur))
               + FieldData(q, cells, n, s, j + 1, send, CellAfter(q, cells, n, p, send, cur))
  {
  }

  // The data of the field at `f`, `done` positions after the first one; stops at the next
  // attribute.
  method ReadField(dev: D.Device, n: nat, ghost s: nat, f: nat, q: Mode, send: bool, out: seq<byte>,
                   cur: Defaults, ghost done: nat)
    returns (out': seq<byte>, cur': Defaults, baddr: nat, ghost done': nat)
    requires f < n <= dev.ea.Length && s < n && done < n && f == At(s, done, n)
    requires dev.ea[f].fa != 0 && dev.ea[s].fa != 0
    ensures done < done' <= n && baddr == At(s, done', n) && dev.ea[baddr].fa != 0
    ensures out' + FieldData(q, dev.ea[..], n, s, done', send, cur')
            == out + FieldData(q, dev.ea[..], n, s, done, send, cur)
  {
    hide CharData, SaAfter, Sba, FieldAttr, IsModified, FieldData;
    var cells := dev.ea[..];
    var modified := IsModified(dev.ea[f].fa);
    out', cur', baddr, done' := out, cur, Inc(f, n), done + 1;
    FieldDataStep(q, cells, n, s, done, send, cur, out);
    if modified {
      out' := out' + Sba(n, baddr);
    }
    assert out + [] == out;
    assert Off(s, f, n) == done;
    while dev.ea[baddr].fa == 0
      invariant done < done' <= n && baddr == At(s, done', n)
      invariant forall k :: 0 <= k < n && done < Off(s, k, n) < done' ==> cells[k].fa == 0
      invariant out' + FieldData(q, cells, n, s, done', send, cur')
                == out + FieldData(q, cells, n, s, done, send, cur)
      decreases n - done'
    {
      GovernedBy(cells, n, s, f, done, baddr, done');
      FieldDataStep(q, cells, n, s, done', send, cur', out');
      assert out' + [] == out';
      if modified && send && dev.ea[baddr].ec != 0 {
        out', cur' := AppendChar(out', q, dev.ea[baddr], cur');
      }
      assert Off(s, baddr, n) == done';
      baddr, done' := Inc(baddr, n), done' + 1;
    }
  }

  // A position behind the attribute at `f`, with no attribute in between, is governed by it.
  lemma GovernedBy(cells: seq<Cell>, n: nat, s: nat, f: nat, done: nat, p: nat, j: nat)
    requires s < n <= |cells| && done < j <= n && f == At(s, done, n) && p == At(s, j, n)
    requires cells[f].fa != 0 && cells[s].fa != 0 && cells[p].fa == 0
    requires forall k :: 0 <= k < n && done < Off(s, k, n) < j ==> cells[k].fa == 0
    ensures j < n && FieldAttr(cells, n, true, p) == cells[f].fa
  {
    FindBackNearest(cells, n, p, n);
    FindBackComplete(cells, n, p);
    assert HasField(cells, n);
    var r := FindBack(cells, n, p, n);
    assert Off(s, f, n) == done && Off(s, p, n) == j;
    assert Off(f, p, n) < n;
  }

  method ReadModified(dev: D.Device, q: Mode, aid: byte, all: bool) returns (out: seq<byte>)
    requires dev.Valid()
    ensures out == ReadReply(q, dev.Abs(), aid, all)
  {
    hide EncodeAddr, CharData, SaAfter, CellData, CellAfter;
    var n := dev.N();
    ghost var cells := dev.ea[..];
    if aid == AID_SYSREQ {
      out := [0x01, 0x6C, 0x61, 0x02];
    } else {
      out := [aid];
      if IsShortRead(aid, all) {
        return;
      }
      out := out + EncodeAddr(n, dev.cursorAddr);
    }
    ghost var head := out;
    var send := SendsData(aid, all);
    var cur := NO_DEFAULTS;
    if dev.formatted {
      var s := FindFirstField(dev, n);
      var baddr := s;
      ghost var done := 0;
      while true
        invariant done < n && baddr == At(s, done, n) && dev.ea[baddr].fa != 0
        invariant out + FieldData(q, cells, n, s, done, send, cur)
                  == head + FieldData(q, cells, n, s, 0, send, NO_DEFAULTS)
        decreases n - done
      {
        out, cur, baddr, done := ReadField(dev, n, s, baddr, q, send, out, cur, done);
        if baddr == s {
          assert out + [] == out;
          break;
        }
      }
      assert out == head + FieldData(q, cells, n, s, 0, send, NO_DEFAULTS);
    } else {
      NoFirstField(cells, n);
      out := ReadPlain(dev, n, q, out);
    }
  }

  method ReadPlain(dev: D.Device, n: nat, q: Mode, head: seq<byte>) returns (out: seq<byte>)
    requires 0 < n <= dev.ea.Length
    ensures out == head + PlainData(q, dev.ea[..], n, 0, NO_DEFAULTS)
  {
    hide CharData, SaAfter;
    out := head;
    var cur := NO_DEFAULTS;
    var baddr := 0;
    while true
      invariant baddr < n
      invariant out + PlainData(q, dev.ea[..], n, baddr, cur)
                == head + PlainData(q, dev.ea[..], n, 0, NO_DEFAULTS)
      decreases n - baddr
    {
      if dev.ea[baddr].ec != 0 {
        out, cur := AppendChar(out, q, dev.ea[baddr], cur);
      }
      if baddr + 1 == n {
        assert out + [] == out;
        break;
      }
      baddr := Inc(baddr, n);
    }
  }

  lemma NoFirstField(cells: seq<Cell>, n: nat)
    requires n <= |cells| && !HasField(cells, n)
    ensures FirstField(cells, n, 0) == n
  {
  }

  // --- Properties ---------------------------------------------------------------------------------

  // The attributes agree, and so do the cells of modified fields.
  ghost predicate SameModified(c1: seq<Cell>, c2: seq<Cell>, n: nat)
    requires n <= |c1| == |c2|
  {
    && (forall k :: 0 <= k < n ==> c1[k].fa == c2[k].fa)
    && (forall k :: 0 <= k < n && IsModified(FieldAttr(c1, n, true, k)) ==> c1[k] == c2[k])
  }

  lemma {:induction false} SameFieldData(q: Mode, c1: seq<Cell>, c2: seq<Cell>, n: nat, s: nat, j: nat,
                                         send: bool, cur: Defaults)
    requires s < n <= |c1| == |c2| && j <= n && SameModified(c1, c2, n)
    ensures FieldData(q, c1, n, s, j, send, cur) == FieldData(q, c2, n, s, j, send, cur)
    decreases n - j
  {
    hide CharData, SaAfter, Sba;
    if j < n {
      var p := At(s, j, n);
      SameFindBack(c1, c2, n, p, n);
      SameFieldData(q, c1, c2, n, s, j + 1, send, CellAfter(q, c1, n, p, send, cur));
    }
  }

  lemma {:induction false} SameFirstField(c1: seq<Cell>, c2: seq<Cell>, n: nat, k: nat)
    requires k <= n <= |c1| == |c2| && forall k :: 0 <= k < n ==> c1[k].fa == c2[k].fa
    ensures FirstField(c1, n, k) == FirstField(c2, n, k)
    decreases n - k
  {
    if k < n {
      SameFirstField(c1, c2, n, k + 1);
    }
  }

  /** Nothing of an unmodified field is sent: a formatted screen gives the same reply whatever its
      unmodified fields hold. */
  lemma UnmodifiedFieldsHidden(q: Mode, v1: Dev, v2: Dev, aid: byte, all: bool)
    requires 0 < v1.N() <= |v1.cells| == |v2.cells| && v2 == v1.(cells := v2.cells)
    requires v1.formatted && HasField(v1.cells, v1.N()) && SameModified(v1.cells, v2.cells, v1.N())
    ensures ReadReply(q, v1, aid, all) == ReadReply(q, v2, aid, all)
  {
    var n := v1.N();
    SameFirstField(v1.cells, v2.cells, n, 0);
    var s := FirstField(v1.cells, n, 0);
    if s < n {
      SameFieldData(q, v1.cells, v2.cells, n, s, 0, SendsData(aid, all), NO_DEFAULTS);
    }
  }

  lemma {:induction false} NoModifiedNoData(q: Mode, cells: seq<Cell>, n: nat, s: nat, j: nat, send: bool,
                                            cur: Defaults)
    requires s < n <= |cells| && j <= n && cells[s].fa != 0
    requires forall k :: 0 <= k < n ==> !IsModified(cells[k].fa)
    ensures FieldData(q, cells, n, s, j, send, cur) == []
    decreases n - j
  {
    if j < n {
      var p := At(s, j, n);
      FindBackComplete(cells, n, p);
      assert HasField(cells, n);
      NoModifiedNoData(q, cells, n, s, j + 1, send, CellAfter(q, cells, n, p, send, cur));
    }
  }

  /** Once a write has reset the modified flags, a formatted screen sends no field data. */
  lemma NothingAfterReset(q: Mode, v: Dev, aid: byte, all: bool)
    requires 0 < v.N() <= |v.cells| && v.formatted && HasField(v.cells, v.N())
    requires AllOk(v.cells) && !(aid != AID_SYSREQ && IsShortRead(aid, all))
    ensures var r := v.(cells := MdtReset(v.cells, v.N(), true));
            ReadReply(q, r, aid, all) == AidBytes(v.N(), aid, v.cursor)
  {
    hide EncodeAddr;
    var n := v.N();
    var cells := MdtReset(v.cells, n, true);
    assert forall k :: 0 <= k < n ==> !IsModified(cells[k].fa) && (cells[k].fa != 0 <==> v.cells[k].fa != 0);
    var s := FirstField(cells, n, 0);
    var k :| 0 <= k < n && v.cells[k].fa != 0;
    assert s < n;
    NoModifiedNoData(q, cells, n, s, 0, SendsData(aid, all), NO_DEFAULTS);
    assert AidBytes(n, aid, v.cursor) + [] == AidBytes(n, aid, v.cursor);
  }
}
