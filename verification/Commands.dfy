/**
 The device and the outbound 3270 commands (process_ds, ctlr_erase, ctlr_clear, ctlr_blanks,
 ctlr_erase_all_unprotected and the frame of ctlr_write, Common/ctlr.c:545-670, 1257-1409,
 2109-2149, 2644-2682).
 */
module Commands {
  import opened Bytes
  import opened Screen
  import opened WriteOrders
  import opened DbcsPost

  /** Settings that commands do not change: the terminal type, and the screen sizes. */
  datatype Model = Model(mode3279: bool, dbcs: bool, visibleControl: bool,
                         maxRows: nat, maxCols: nat, defRows: nat, defCols: nat,
                         altRows: nat, altCols: nat)
  {
    function Allocated(): nat { maxRows * maxCols }

    function Rows(alt: bool): nat { if alt then altRows else defRows }

    function Cols(alt: bool): nat { if alt then altCols else defCols }

    function Size(alt: bool): nat { Rows(alt) * Cols(alt) }

    // Both screen sizes fit the allocation, which 14-bit addresses can reach.
    predicate Valid()
    {
      0 < Size(false) <= Allocated() && 0 < Size(true) <= Allocated() <= 0x3FFF
    }
  }

  datatype Dev = Dev(cells: seq<Cell>, rows: nat, cols: nat, cursor: nat, addr: nat,
                     formatted: bool, alt: bool, d: Defaults, replyMode: byte)
  {
    function N(): nat { rows * cols }

    predicate Fits(m: Model)
    {
      m.Valid() && |cells| == m.Allocated() && 0 < N() <= |cells| && cursor < N()
    }
  }

  // --- Clearing and erasing -----------------------------------------------------------------

  function Cleared(v: Dev): (r: Dev)
    requires v.N() <= |v.cells|
    ensures |r.cells| == |v.cells|
  {
    var n := v.N();
    // The default character set survives until the next write.
    v.(cells := seq(|v.cells|, k requires 0 <= k < |v.cells| => if k < n then NULL_CELL else v.cells[k]),
       cursor := 0, addr := 0, formatted := false, d := NO_DEFAULTS.(cs := v.d.cs))
  }

  function Blanked(v: Dev): (r: Dev)
    ensures |r.cells| == |v.cells|
  {
    v.(cells := seq(|v.cells|, k requires 0 <= k < |v.cells| => v.cells[k].(ec := EBC_SPACE)),
       cursor := 0, addr := 0, formatted := false)
  }

  function Erased(m: Model, v: Dev, alt: bool): (r: Dev)
    requires v.Fits(m)
    ensures r.Fits(m)
  {
    var v1 := Cleared(v);
    if alt == v.alt && v.rows == m.Rows(alt) && v.cols == m.Cols(alt) then v1
    else
      var v2 := (if m.visibleControl then Blanked(v1) else v1).(rows := m.Rows(alt), cols := m.Cols(alt));
      (if m.visibleControl then Cleared(v2) else v2).(alt := alt)
  }

  // Whether the field governing `k` is unprotected.
  predicate Unprotected(cells: seq<Cell>, n: nat, k: nat)
    requires k < n <= |cells|
  {
    !IsProtected(FieldAttr(cells, n, true, k))
  }

  // The first unprotected attribute at or after `k`, or -1.
  function FirstUnprotected(cells: seq<Cell>, n: nat, k: nat): (r: int)
    requires k <= n <= |cells|
    ensures -1 <= r < n
    decreases n - k
  {
    if k == n then -1
    else if cells[k].fa != 0 && !IsProtected(cells[k].fa) then k
    else FirstUnprotected(cells, n, k + 1)
  }

  function WithoutMdt(c: Cell): Cell { c.(fa := c.fa - c.fa % 2) }

  function UnprotectedErased(cells: seq<Cell>, n: nat): (r: seq<Cell>)
    requires n <= |cells|
    ensures |r| == |cells|
    ensures forall k :: n <= k < |cells| ==> r[k] == cells[k]
  {
    seq(|cells|, k requires 0 <= k < |cells| =>
      if k < n && Unprotected(cells, n, k) then
        if cells[k].fa != 0 then WithoutMdt(cells[k]) else WithChar(cells[k], EBC_NULL, 0)
      else cells[k])
  }

  function ErasedAllUnprotected(m: Model, v: Dev): (r: Dev)
    requires v.Fits(m)
    ensures r.Fits(m)
  {
    var n := v.N();
    if v.formatted then
      var f := FirstUnprotected(v.cells, n, 0);
      v.(cells := UnprotectedErased(v.cells, n), cursor := if f < 0 then 0 else Inc(f, n))
    else Cleared(v)
  }

  // --- Write --------------------------------------------------------------------------------

  datatype Pds = Okay | BadCommand | BadAddress

  datatype Reply = Reply(v: Dev, pds: Pds)

  function MdtReset(cells: seq<Cell>, n: nat, formatted: bool): (r: seq<Cell>)
    requires n <= |cells|
    ensures |r| == |cells|
  {
    seq(|cells|, k requires 0 <= k < |cells| =>
      if k < n && formatted && cells[k].fa != 0 then WithoutMdt(cells[k]) else cells[k])
  }

  function WriteCfg(m: Model, v: Dev): Cfg { Cfg(v.N(), m.mode3279, m.dbcs) }

  // The interpreter's state after the write control character.
  function WriteBegin(m: Model, v: Dev, wcc: byte): (w: Wr)
    requires v.Fits(m)
    ensures Ready(WriteCfg(m, v), w) && |w.cells| == |v.cells|
  {
    var cells := if wcc % 2 == 1 then MdtReset(v.cells, v.N(), v.formatted) else v.cells;
    Wr(cells, v.cursor, v.formatted, NO_DEFAULTS,
       FieldAttr(cells, v.N(), v.formatted, v.cursor), true, false, -1)
  }

  // What follows the orders: the formatted flag, the cursor and the double-byte marks.
  function WriteEnd(m: Model, v: Dev, o: Outcome, replyMode: byte): (r: Reply)
    requires v.Fits(m) && |o.w.cells| == |v.cells| && -1 <= o.w.icAddr < v.N()
    ensures r.v.Fits(m)
  {
    var formatted := HasField(o.w.cells, v.N());
    var post := PostProcess(m.dbcs, o.w.cells, v.N(), formatted);
    var cursor := if o.w.icAddr >= 0 then o.w.icAddr else v.cursor;
    Reply(v.(cells := post.cells, addr := o.w.addr, formatted := formatted, cursor := cursor,
             d := o.w.d, replyMode := replyMode),
          if o.ok && post.ok then Okay else BadAddress)
  }

  function Written(m: Model, v: Dev, buf: seq<byte>, erase: bool): (r: Reply)
    requires v.Fits(m)
    ensures r.v.Fits(m)
  {
    if |buf| < 2 then Reply(v, BadAddress)
    else
      var replyMode := if buf[1] / 64 % 2 == 1 && erase then 0 else v.replyMode;
      WriteEnd(m, v, Run(WriteCfg(m, v), WriteBegin(m, v, buf[1]), buf, 2), replyMode)
  }

  // --- Commands -----------------------------------------------------------------------------

  predicate IsEraseAllUnprotected(c: byte) { c in {0x0F, 0x6F} }

  predicate IsEraseWriteAlternate(c: byte) { c in {0x0D, 0x7E} }

  predicate IsEraseWrite(c: byte) { c in {0x05, 0xF5} }

  predicate IsWrite(c: byte) { c in {0x01, 0xF1} }

  // The commands of process_ds that change the buffer; reads, structured fields and no-ops leave
  // it alone here.
  function Processed(m: Model, v: Dev, buf: seq<byte>): (r: Reply)
    requires v.Fits(m)
    ensures r.v.Fits(m)
  {
    if buf == [] then Reply(v, Okay)
    else if IsEraseAllUnprotected(buf[0]) then Reply(ErasedAllUnprotected(m, v), Okay)
    else if IsEraseWriteAlternate(buf[0]) then Written(m, Erased(m, v, true), buf, true)
    else if IsEraseWrite(buf[0]) then Written(m, Erased(m, v, false), buf, true)
    else if IsWrite(buf[0]) then Written(m, v, buf, false)
    else if buf[0] in {0x02, 0xF2, 0x06, 0xF6, 0x0E, 0x6E, 0x11, 0xF3, 0x03} then Reply(v, Okay)
    else Reply(v, BadCommand)
  }
}
