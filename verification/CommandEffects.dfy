/**
 What the commands do to the device, told cell by cell (Common/ctlr.c:601-670, 1257-1306, 1360-1416,
 2109-2149).
 */
module CommandEffects {
  import opened Bytes
  import opened Screen
  import opened WriteOrders
  import opened DbcsPost
  import opened Commands
  import opened WriteSafety
  import opened DeviceInvariant

  // A field attribute without its modified flag.
  function Unmodified(c: Cell): Cell { if c.fa % 2 == 1 then c.(fa := c.fa - 1) else c }

  // A character that was erased: a null of the base set, which keeps its colours and highlighting.
  function Nulled(c: Cell): Cell { c.(ec := 0, cs := 0, fa := 0, ucs4 := 0) }

  lemma {:induction false} FirstUnprotectedMeans(cells: seq<Cell>, n: nat, k: nat)
    requires k <= n <= |cells|
    ensures var f := FirstUnprotected(cells, n, k);
            && (f >= 0 ==> f >= k && cells[f].fa != 0 && !IsProtected(cells[f].fa))
            && forall j :: k <= j < n && (f < 0 || j < f) ==> cells[j].fa == 0 || IsProtected(cells[j].fa)
    decreases n - k
  {
    if k < n && (cells[k].fa == 0 || IsProtected(cells[k].fa)) {
      FirstUnprotectedMeans(cells, n, k + 1);
    }
  }

  /** Erase All Unprotected on a formatted screen: unprotected attributes lose their modified flags, the characters
      they govern become nulls, nothing else changes, and the cursor goes behind the unprotected attribute with
      the lowest address, or to 0 if there is none.  On an unformatted screen everything is cleared. */
  lemma EraseAllUnprotected(m: Model, v: Dev)
    requires Invariant(m, v)
    ensures var r, n := Processed(m, v, [0x6F]), v.N();
            && r == Processed(m, v, [0x0F]) && r.pds == Okay && |r.v.cells| == |v.cells|
            && if v.formatted then
                 && r.v == v.(cells := r.v.cells, cursor := r.v.cursor)
                 && (forall k :: 0 <= k < |v.cells| ==>
                       r.v.cells[k] ==
                         if k >= n || IsProtected(FieldAttr(v.cells, n, true, k)) then v.cells[k]
                         else if v.cells[k].fa != 0 then Unmodified(v.cells[k]) else Nulled(v.cells[k]))
                 && (if exists f :: 0 <= f < n && v.cells[f].fa != 0 && !IsProtected(v.cells[f].fa) then
                       exists f :: 0 <= f < n && v.cells[f].fa != 0 && !IsProtected(v.cells[f].fa)
                                   && (forall j :: 0 <= j < f ==> v.cells[j].fa == 0 || IsProtected(v.cells[j].fa))
                                   && r.v.cursor == (f + 1) % n
                     else r.v.cursor == 0)
               else
                 && r.v.cursor == 0 && r.v.addr == 0 && !r.v.formatted && r.v.d == NO_DEFAULTS.(cs := v.d.cs)
                 && r.v.rows == v.rows && r.v.cols == v.cols && r.v.alt == v.alt && r.v.replyMode == v.replyMode
                 && forall k :: 0 <= k < |v.cells| ==> r.v.cells[k] == if k < n then NULL_CELL else v.cells[k]
  {
    hide FieldAttr, FirstUnprotected, IsProtected, UnprotectedErased, Processed;
    EitherCode(m, v);
    UnprotectedCells(v.cells, v.N());
    if v.formatted {
      var n, f := v.N(), FirstUnprotected(v.cells, v.N(), 0);
      FirstUnprotectedMeans(v.cells, n, 0);
      if f >= 0 {
        IncIsRemainder(f, n);
        assert v.cells[f].fa != 0 && !IsProtected(v.cells[f].fa);
      }
    }
  }

  // Both codes of the command.
  lemma EitherCode(m: Model, v: Dev)
    requires Invariant(m, v)
    ensures Processed(m, v, [0x6F]) == Processed(m, v, [0x0F]) == Reply(ErasedAllUnprotected(m, v), Okay)
  {
    hide ErasedAllUnprotected;
  }

  lemma UnprotectedCells(cells: seq<Cell>, n: nat)
    requires n <= |cells|
    ensures forall k :: 0 <= k < |cells| ==>
              UnprotectedErased(cells, n)[k] ==
                if k >= n || IsProtected(FieldAttr(cells, n, true, k)) then cells[k]
                else if cells[k].fa != 0 then Unmodified(cells[k]) else Nulled(cells[k])
  {
    hide FieldAttr, IsProtected;
  }

  /** The state in which the orders of a write begin: the buffer address at the cursor, default attributes, and, if the
      write control character says so, no modified flag on the screen. */
  lemma WriteBegins(m: Model, v: Dev, wcc: byte)
    requires Invariant(m, v)
    ensures var w := WriteBegin(m, v, wcc);
            && w.addr == v.cursor && w.d == Defaults(0, 0, 0, 0, 0) && w.formatted == v.formatted
            && w.lastCmd && !w.lastZpt && w.icAddr == -1 && |w.cells| == |v.cells|
            && (forall k :: 0 <= k < |v.cells| ==>
                  w.cells[k] == if wcc % 2 == 1 && k < v.N() && v.cells[k].fa != 0 then Unmodified(v.cells[k])
                                else v.cells[k])
            && w.curFa == FieldAttr(w.cells, v.N(), v.formatted, v.cursor)
  {
    hide FieldAttr;
    if wcc % 2 == 1 {
      var r := MdtReset(v.cells, v.N(), v.formatted);
      forall k | 0 <= k < |v.cells|
        ensures r[k] == if k < v.N() && v.cells[k].fa != 0 then Unmodified(v.cells[k]) else v.cells[k]
      {
        assert k < v.N() && v.cells[k].fa != 0 ==> HasField(v.cells, v.N());
      }
    }
  }

  /** What a write comes to: the orders behind the write control character and then the double-byte pass make the
      cells, the cursor moves only if an order asked for it, and both have to succeed.  A write without a control
      character is rejected. */
  lemma WriteComesTo(m: Model, v: Dev, buf: seq<byte>, erase: bool)
    requires Invariant(m, v)
    ensures var r := Written(m, v, buf, erase);
            if |buf| < 2 then r == Reply(v, BadAddress)
            else
              var o := Run(WriteCfg(m, v), WriteBegin(m, v, buf[1]), buf, 2);
              var post := PostProcess(m.dbcs, o.w.cells, v.N(), HasField(o.w.cells, v.N()));
              && r.v.cells == post.cells && r.v.formatted == HasField(o.w.cells, v.N())
              && r.v.cursor == (if o.w.icAddr < 0 then v.cursor else o.w.icAddr)
              && r.v.addr == o.w.addr && r.v.d == o.w.d
              && r.v.rows == v.rows && r.v.cols == v.cols && r.v.alt == v.alt
              && r.v.replyMode == (if erase && buf[1] / 64 % 2 == 1 then 0 else v.replyMode)
              && r.pds == if o.ok && post.ok then Okay else BadAddress
  {
    hide Run, PostProcess, WriteBegin;
  }

  const KNOWN_COMMANDS: set<byte> := {0x01, 0xF1, 0x05, 0xF5, 0x0D, 0x7E, 0x0F, 0x6F, 0x02, 0xF2, 0x06, 0xF6,
                                      0x0E, 0x6E, 0x11, 0xF3, 0x03}

  /** Which command is which: Write changes the screen as it is, Erase/Write and Erase/Write Alternate first erase it to
      the default and the alternate size, reads and structured fields leave it alone, and any other code is an
      unknown command. */
  lemma CommandMeans(m: Model, v: Dev, buf: seq<byte>)
    requires Invariant(m, v) && buf != []
    ensures var r := Processed(m, v, buf);
            && (buf[0] in {0x01, 0xF1} ==> r == Written(m, v, buf, false))
            && (buf[0] in {0x05, 0xF5} ==> r == Written(m, Erased(m, v, false), buf, true))
            && (buf[0] in {0x0D, 0x7E} ==> r == Written(m, Erased(m, v, true), buf, true))
            && (buf[0] in {0x0F, 0x6F} ==> r == Processed(m, v, [buf[0]]))
            && (buf[0] in {0x02, 0xF2, 0x06, 0xF6, 0x0E, 0x6E, 0x11, 0xF3, 0x03} ==> r == Reply(v, Okay))
            && (buf[0] !in KNOWN_COMMANDS ==> r == Reply(v, BadCommand))
  {
    hide Written, Erased, ErasedAllUnprotected;
  }
}
