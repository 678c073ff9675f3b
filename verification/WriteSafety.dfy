/**
 What the write interpreter keeps for every byte string, whether it is accepted or rejected:
 well-formed cells, untouched cells outside the active screen, and addresses in range.
 */
module WriteSafety {
  import opened Bytes
  import opened Screen
  import opened DbcsLook
  import opened WriteOrders
  import opened DbcsPost
  import opened Commands

  predicate ColorOk(v: byte) { v == 0 || v >= 0xF0 }

  predicate SetOk(cs: byte) { cs in {CS_BASE, CS_APL, CS_DBCS, CS_GE} }

  // Attributes are zero or printable without the reserved bit, colours zero or F0..FF, and so on.
  predicate CellOk(c: Cell)
  {
    && (c.fa == 0 || (c.fa >= 0xC0 && c.fa % 4 < 2))
    && ColorOk(c.fg) && ColorOk(c.bg)
    && c.gr < 16 && c.ic <= 1 && SetOk(c.cs)
  }

  predicate AllOk(cells: seq<Cell>)
  {
    forall k :: 0 <= k < |cells| ==> CellOk(cells[k])
  }

  predicate DefaultsOk(d: Defaults)
  {
    d.gr < 16 && d.ic <= 1 && SetOk(d.cs)
  }

  predicate Sound(w: Wr) { AllOk(w.cells) && DefaultsOk(w.d) }

  // The cells outside the active screen are the same.
  predicate SameBeyond(n: nat, before: seq<Cell>, after: seq<Cell>)
  {
    |before| == |after| && forall k :: n <= k < |before| ==> after[k] == before[k]
  }

  // --- Cells ----------------------------------------------------------------------------------

  lemma ExtendedOk(mode3279: bool, c: Cell, d: Defaults)
    requires CellOk(c) && DefaultsOk(d)
    ensures CellOk(WithExtended(mode3279, c, d))
  {
  }

  lemma PrintableOk(fa: byte)
    ensures Printable(fa) % 4 < 2
  {
  }

  lemma StartedOk(mode3279: bool, c: Cell, fa: byte)
    requires CellOk(c)
    ensures CellOk(Started(mode3279, c, fa))
  {
    hide Printable;
    PrintableOk(fa);
  }

  lemma StoredOk(mode3279: bool, c: Cell, ec: byte, cs: byte, d: Defaults)
    requires CellOk(c) && DefaultsOk(d) && SetOk(cs)
    ensures CellOk(Stored(mode3279, c, ec, cs, d))
  {
  }

  lemma ModifiedOk(cfg: Cfg, c: Cell, attr: byte, v: byte)
    requires CellOk(c)
    ensures CellOk(Modified(cfg, c, attr, v))
  {
    hide Printable;
    PrintableOk(v);
  }

  lemma {:induction false} MfPairsOk(cfg: Cfg, c: Cell, buf: seq<byte>, p: nat, na: nat)
    requires CellOk(c)
    ensures CellOk(MfPairs(cfg, c, buf, p, na).c)
    decreases na
  {
    if na > 0 && p + 1 < |buf| {
      ModifiedOk(cfg, c, buf[p], buf[p + 1]);
      MfPairsOk(cfg, Modified(cfg, c, buf[p], buf[p + 1]), buf, p + 2, na - 1);
    }
  }

  // --- Orders ---------------------------------------------------------------------------------

  lemma PlaceSound(cfg: Cfg, w: Wr, ec: byte, cs: byte)
    requires Ready(cfg, w) && Sound(w) && SetOk(cs)
    ensures var r := Place(cfg, w, ec, cs); Sound(r) && SameBeyond(cfg.n, w.cells, r.cells)
  {
    StoredOk(cfg.mode3279, w.cells[w.addr], ec, cs, w.d);
  }

  lemma StartFieldSound(cfg: Cfg, w: Wr, fa: byte)
    requires Ready(cfg, w) && Sound(w)
    ensures var r := StartField(cfg, w, fa); Sound(r) && SameBeyond(cfg.n, w.cells, r.cells)
  {
    StartedOk(cfg.mode3279, w.cells[w.addr], fa);
  }

  lemma {:induction false} SfePairsSound(cfg: Cfg, w: Wr, buf: seq<byte>, p: nat, na: nat, e: Defaults, any: bool)
    requires Ready(cfg, w) && Sound(w) && DefaultsOk(e)
    ensures var r := SfePairs(cfg, w, buf, p, na, e, any);
            Sound(r.w) && DefaultsOk(r.efa) && SameBeyond(cfg.n, w.cells, r.w.cells)
    decreases na
  {
    if na > 0 && p + 1 < |buf| {
      if buf[p] == XA_3270 {
        StartFieldSound(cfg, w, buf[p + 1]);
        SfePairsSound(cfg, StartField(cfg, w, buf[p + 1]), buf, p + 2, na - 1, e, true);
      } else {
        SfePairsSound(cfg, w, buf, p + 2, na - 1, Gathered(cfg, e, buf[p], buf[p + 1]), any);
      }
    }
  }

  lemma SfeSound(cfg: Cfg, w: Wr, buf: seq<byte>, cp: nat)
    requires Ready(cfg, w) && Sound(w)
    ensures var r := OrderSFE(cfg, w, buf, cp); Sound(r.w) && SameBeyond(cfg.n, w.cells, r.w.cells)
  {
    if cp + 1 < |buf| {
      SfePairsSound(cfg, w, buf, cp + 2, buf[cp + 1], NO_DEFAULTS, false);
      var r := SfePairs(cfg, w, buf, cp + 2, buf[cp + 1], NO_DEFAULTS, false);
      StartFieldSound(cfg, r.w, 0);
      var w1 := if r.any then r.w else StartField(cfg, r.w, 0);
      ExtendedOk(cfg.mode3279, w1.cells[w1.addr].(cs := r.efa.cs), r.efa);
    }
  }

  lemma MfSound(cfg: Cfg, w: Wr, buf: seq<byte>, cp: nat)
    requires Ready(cfg, w) && Sound(w)
    ensures var r := OrderMF(cfg, w, buf, cp); Sound(r.w) && SameBeyond(cfg.n, w.cells, r.w.cells)
  {
    if cp + 1 < |buf| {
      MfPairsOk(cfg, w.cells[w.addr], buf, cp + 2, buf[cp + 1]);
    }
  }

  lemma PtSound(cfg: Cfg, w: Wr, cp: nat)
    requires Ready(cfg, w) && Sound(w)
    ensures var r := OrderPT(cfg, w, cp); Sound(r.w) && SameBeyond(cfg.n, w.cells, r.w.cells)
  {
    hide NextUnprotected, NullCount;
  }

  lemma FillSound(cfg: Cfg, cells: seq<Cell>, a: nat, m: nat, c1: byte, c2: byte, cs: byte, d: Defaults)
    requires a < cfg.n <= |cells| && AllOk(cells) && DefaultsOk(d) && SetOk(cs)
    ensures var r := Fill(cfg, cells, a, m, c1, c2, cs, d);
            AllOk(r) && SameBeyond(cfg.n, cells, r)
  {
    hide Stored;
    forall k | 0 <= k < |cells|
      ensures CellOk(Fill(cfg, cells, a, m, c1, c2, cs, d)[k])
    {
      StoredOk(cfg.mode3279, cells[k], c1, cs, d);
      StoredOk(cfg.mode3279, cells[k], c2, cs, d);
    }
  }

  lemma RaSound(cfg: Cfg, w: Wr, buf: seq<byte>, cp: nat)
    requires Ready(cfg, w) && Sound(w)
    ensures var r := OrderRA(cfg, w, buf, cp); Sound(r.w) && SameBeyond(cfg.n, w.cells, r.w.cells)
  {
    hide Fill;
    forall m, c1, c2, cs | SetOk(cs)
      ensures var r := Fill(cfg, w.cells, w.addr, m, c1, c2, cs, w.d);
              AllOk(r) && SameBeyond(cfg.n, w.cells, r)
    {
      FillSound(cfg, w.cells, w.addr, m, c1, c2, cs, w.d);
    }
  }

  lemma EuaSound(cfg: Cfg, w: Wr, buf: seq<byte>, cp: nat)
    requires Ready(cfg, w) && Sound(w)
    ensures var r := OrderEUA(cfg, w, buf, cp); Sound(r.w) && SameBeyond(cfg.n, w.cells, r.w.cells)
  {
    hide RunningAttr;
  }

  lemma PlaceKeepsDefaults(cfg: Cfg, w: Wr, ec: byte, cs: byte)
    requires Ready(cfg, w)
    ensures Place(cfg, w, ec, cs).d == w.d
  {
  }

  lemma PlaceTwoSound(cfg: Cfg, w: Wr, c1: byte, c2: byte)
    requires Ready(cfg, w) && Sound(w)
    ensures var r := PlaceTwo(cfg, w, c1, c2); Sound(r) && SameBeyond(cfg.n, w.cells, r.cells)
  {
    hide Place;
    PlaceSound(cfg, w, c1, w.d.cs);
    PlaceKeepsDefaults(cfg, w, c1, w.d.cs);
    PlaceSound(cfg, Place(cfg, w, c1, w.d.cs), c2, w.d.cs);
  }

  // The orders that store at most two characters.
  lemma CharsSound(cfg: Cfg, w: Wr, buf: seq<byte>, cp: nat)
    requires Ready(cfg, w) && Sound(w) && cp < |buf|
    requires buf[cp] !in {ORDER_PT, ORDER_RA, ORDER_EUA, ORDER_MF, ORDER_SFE, ORDER_SF, ORDER_GE}
    ensures var r := Order(cfg, w, buf, cp); Sound(r.w) && SameBeyond(cfg.n, w.cells, r.w.cells)
  {
    hide Place, PlaceTwo, Matched, LookAt, CodeTable, AllOk;
    PlaceSound(cfg, w, buf[cp], w.d.cs);
    PlaceSound(cfg, w, EBC_NULL, w.d.cs);
    if cp + 1 < |buf| {
      PlaceTwoSound(cfg, w, EBC_NULL, buf[cp + 1]);
      PlaceTwoSound(cfg, w, buf[cp], buf[cp + 1]);
    }
  }

  lemma FieldOrGraphicSound(cfg: Cfg, w: Wr, buf: seq<byte>, cp: nat)
    requires Ready(cfg, w) && Sound(w) && cp < |buf| && buf[cp] in {ORDER_SF, ORDER_GE}
    ensures var r := Order(cfg, w, buf, cp); Sound(r.w) && SameBeyond(cfg.n, w.cells, r.w.cells)
  {
    hide Place, StartField;
    if cp + 1 < |buf| {
      StartFieldSound(cfg, w, buf[cp + 1]);
      PlaceSound(cfg, w, buf[cp + 1], CS_GE);
    }
  }

  lemma OrderSound(cfg: Cfg, w: Wr, buf: seq<byte>, cp: nat)
    requires Ready(cfg, w) && Sound(w) && cp < |buf|
    ensures var r := Order(cfg, w, buf, cp); Sound(r.w) && SameBeyond(cfg.n, w.cells, r.w.cells)
  {
    var c := buf[cp];
    if c == ORDER_PT {
      PtSound(cfg, w, cp);
    } else if c == ORDER_RA {
      RaSound(cfg, w, buf, cp);
    } else if c == ORDER_EUA {
      EuaSound(cfg, w, buf, cp);
    } else if c == ORDER_MF {
      MfSound(cfg, w, buf, cp);
    } else if c == ORDER_SFE {
      SfeSound(cfg, w, buf, cp);
    } else if c == ORDER_SF || c == ORDER_GE {
      FieldOrGraphicSound(cfg, w, buf, cp);
    } else {
      CharsSound(cfg, w, buf, cp);
    }
  }

  // For every byte string: cells stay well formed, and cells outside the screen are not touched.
  lemma {:induction false} RunSound(cfg: Cfg, w: Wr, buf: seq<byte>, cp: nat)
    requires Ready(cfg, w) && Sound(w)
    ensures var o := Run(cfg, w, buf, cp); Sound(o.w) && SameBeyond(cfg.n, w.cells, o.w.cells)
    decreases |buf| - cp
  {
    hide Order;
    if cp < |buf| {
      OrderSound(cfg, w, buf, cp);
      var s := Order(cfg, w, buf, cp);
      if s.ok {
        RunSound(cfg, s.w, buf, s.cp);
      }
    }
  }

  // --- The pass after the write -----------------------------------------------------------------

  // The pass only touches codes, character sets and marks of the active cells.
  predicate OnlyMarks(n: nat, before: seq<Cell>, after: seq<Cell>)
  {
    && SameBeyond(n, before, after)
    && forall k :: 0 <= k < |before| ==>
         && after[k] == before[k].(ec := after[k].ec, cs := after[k].cs, db := after[k].db)
         && after[k].cs in {before[k].cs, CS_BASE}
  }

  lemma MarkedOnlyMarks(q: Post, n: nat, b: nat, siBad: bool)
    requires 0 < n <= |q.cells| && b < n && -1 <= q.db < n && -1 <= q.pb < n
    ensures OnlyMarks(n, q.cells, Marked(q, n, b, siBad))
  {
  }

  lemma ClassifiedOnlyMarks(p: Post, n: nat, b: nat)
    requires PostReady(p, n) && b < n
    ensures var q := Classified(p, n, b);
            && OnlyMarks(n, p.cells, q.cells) && 0 < n <= |q.cells|
            && -1 <= q.db < n && -1 <= q.pb < n
  {
  }

  lemma PostStepOnlyMarks(p: Post, n: nat, b: nat)
    requires PostReady(p, n) && b < n
    ensures OnlyMarks(n, p.cells, PostStep(p, n, b).cells)
  {
    hide Marked, Classified;
    ClassifiedOnlyMarks(p, n, b);
    var q := Classified(p, n, b);
    MarkedOnlyMarks(q, n, b, p.si || p.field);
    var marked := Marked(q, n, b, p.si || p.field);
    assert OnlyMarks(n, marked, Killed(marked, p.pb, b));
    assert OnlyMarks(n, Killed(marked, p.pb, b), AfterSi(Killed(marked, p.pb, b), p.pb, b));
  }

  lemma {:induction false} PostAfterOnlyMarks(p: Post, n: nat, b0: nat, k: nat)
    requires PostReady(p, n) && b0 < n && k <= n
    ensures OnlyMarks(n, p.cells, PostAfter(p, n, b0, k).cells)
  {
    hide PostStep;
    if k > 0 {
      PostAfterOnlyMarks(p, n, b0, k - 1);
      PostStepOnlyMarks(PostAfter(p, n, b0, k - 1), n, At(b0, k - 1, n));
    }
  }

  lemma PostProcessSound(dbcs: bool, cells: seq<Cell>, n: nat, formatted: bool)
    requires 0 < n <= |cells| && AllOk(cells)
    ensures var r := PostProcess(dbcs, cells, n, formatted);
            && AllOk(r.cells) && SameBeyond(n, cells, r.cells)
            && HasField(r.cells, n) == HasField(cells, n)
  {
    if dbcs {
      var f := PostField(cells, n, formatted);
      PostAfterOnlyMarks(PostInit(cells, n, f), n, PostBegin(f, n), PostCount(f, n));
    }
  }
}
