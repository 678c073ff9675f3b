/**
 On screens with an even number of cells, an attribute always holds the null code that ctlr_add_fa
 stores with it, over every run of commands; and what follows from it for right halves of
 double-byte characters (Common/ctlr.c:2413-2598, 2755-2765).
 */
module AttributeCodes {
  import opened Bytes
  import opened Screen
  import opened DbcsLook
  import opened WriteOrders
  import opened DbcsPost
  import opened DbcsMarks
  import opened DbcsStable
  import opened Commands
  import opened WriteSafety
  import opened DeviceInvariant

  predicate NullAttribute(c: Cell) { c.fa != 0 ==> c.ec == EBC_NULL }

  predicate NullAttributes(cells: seq<Cell>)
  {
    forall k :: 0 <= k < |cells| ==> NullAttribute(cells[k])
  }

  // --- Orders ---------------------------------------------------------------------------------

  lemma ModifiedNull(cfg: Cfg, c: Cell, attr: byte, v: byte)
    requires NullAttribute(c)
    ensures NullAttribute(Modified(cfg, c, attr, v))
  {
    hide Printable;
  }

  lemma {:induction false} MfPairsNull(cfg: Cfg, c: Cell, buf: seq<byte>, p: nat, na: nat)
    requires NullAttribute(c)
    ensures NullAttribute(MfPairs(cfg, c, buf, p, na).c)
    decreases na
  {
    if na > 0 && p + 1 < |buf| {
      ModifiedNull(cfg, c, buf[p], buf[p + 1]);
      MfPairsNull(cfg, Modified(cfg, c, buf[p], buf[p + 1]), buf, p + 2, na - 1);
    }
  }

  lemma PlaceNull(cfg: Cfg, w: Wr, ec: byte, cs: byte)
    requires Ready(cfg, w) && NullAttributes(w.cells)
    ensures NullAttributes(Place(cfg, w, ec, cs).cells)
  {
  }

  lemma PlaceTwoNull(cfg: Cfg, w: Wr, c1: byte, c2: byte)
    requires Ready(cfg, w) && NullAttributes(w.cells)
    ensures NullAttributes(PlaceTwo(cfg, w, c1, c2).cells)
  {
    hide Place, NullAttributes;
    PlaceNull(cfg, w, c1, w.d.cs);
    PlaceNull(cfg, Place(cfg, w, c1, w.d.cs), c2, w.d.cs);
  }

  lemma StartFieldNull(cfg: Cfg, w: Wr, fa: byte)
    requires Ready(cfg, w) && NullAttributes(w.cells)
    ensures NullAttributes(StartField(cfg, w, fa).cells)
  {
    hide Printable;
  }

  lemma {:induction false} SfePairsNull(cfg: Cfg, w: Wr, buf: seq<byte>, p: nat, na: nat, e: Defaults, any: bool)
    requires Ready(cfg, w) && NullAttributes(w.cells)
    ensures NullAttributes(SfePairs(cfg, w, buf, p, na, e, any).w.cells)
    decreases na
  {
    hide StartField, NullAttributes, Gathered;
    if na > 0 && p + 1 < |buf| {
      if buf[p] == XA_3270 {
        StartFieldNull(cfg, w, buf[p + 1]);
        SfePairsNull(cfg, StartField(cfg, w, buf[p + 1]), buf, p + 2, na - 1, e, true);
      } else {
        SfePairsNull(cfg, w, buf, p + 2, na - 1, Gathered(cfg, e, buf[p], buf[p + 1]), any);
      }
    }
  }

  lemma SfeNull(cfg: Cfg, w: Wr, buf: seq<byte>, cp: nat)
    requires Ready(cfg, w) && NullAttributes(w.cells)
    ensures NullAttributes(OrderSFE(cfg, w, buf, cp).w.cells)
  {
    hide StartField, SfePairs;
    if cp + 1 < |buf| {
      SfePairsNull(cfg, w, buf, cp + 2, buf[cp + 1], NO_DEFAULTS, false);
      StartFieldNull(cfg, SfePairs(cfg, w, buf, cp + 2, buf[cp + 1], NO_DEFAULTS, false).w, 0);
    }
  }

  lemma MfNull(cfg: Cfg, w: Wr, buf: seq<byte>, cp: nat)
    requires Ready(cfg, w) && NullAttributes(w.cells)
    ensures NullAttributes(OrderMF(cfg, w, buf, cp).w.cells)
  {
    hide MfPairs;
    if cp + 1 < |buf| {
      MfPairsNull(cfg, w.cells[w.addr], buf, cp + 2, buf[cp + 1]);
    }
  }

  lemma PtNull(cfg: Cfg, w: Wr, cp: nat)
    requires Ready(cfg, w) && NullAttributes(w.cells)
    ensures NullAttributes(OrderPT(cfg, w, cp).w.cells)
  {
    hide NextUnprotected, NullCount;
  }

  lemma FillNull(cfg: Cfg, cells: seq<Cell>, a: nat, m: nat, c1: byte, c2: byte, cs: byte, d: Defaults)
    requires a < cfg.n <= |cells| && NullAttributes(cells)
    ensures NullAttributes(Fill(cfg, cells, a, m, c1, c2, cs, d))
  {
  }

  lemma RaNull(cfg: Cfg, w: Wr, buf: seq<byte>, cp: nat)
    requires Ready(cfg, w) && NullAttributes(w.cells)
    ensures NullAttributes(OrderRA(cfg, w, buf, cp).w.cells)
  {
    hide Fill, LookAt, DecodeAddr, NullAttributes;
    forall m, c1, c2, cs ensures NullAttributes(Fill(cfg, w.cells, w.addr, m, c1, c2, cs, w.d)) {
      FillNull(cfg, w.cells, w.addr, m, c1, c2, cs, w.d);
    }
  }

  lemma EuaNull(cfg: Cfg, w: Wr, buf: seq<byte>, cp: nat)
    requires Ready(cfg, w) && NullAttributes(w.cells)
    ensures NullAttributes(OrderEUA(cfg, w, buf, cp).w.cells)
  {
    hide RunningAttr, LookAt, DecodeAddr;
  }

  lemma AnyOrderNull(cfg: Cfg, w: Wr, buf: seq<byte>, cp: nat)
    requires Ready(cfg, w) && NullAttributes(w.cells) && cp < |buf|
    ensures NullAttributes(Order(cfg, w, buf, cp).w.cells)
  {
    hide Place, PlaceTwo, StartField, OrderPT, OrderRA, OrderEUA, OrderMF, OrderSFE, Matched, LookAt, DecodeAddr,
      NullAttributes;
    PtNull(cfg, w, cp);
    RaNull(cfg, w, buf, cp);
    EuaNull(cfg, w, buf, cp);
    MfNull(cfg, w, buf, cp);
    SfeNull(cfg, w, buf, cp);
    forall ec, cs ensures NullAttributes(Place(cfg, w, ec, cs).cells) {
      PlaceNull(cfg, w, ec, cs);
    }
    forall c1, c2 ensures NullAttributes(PlaceTwo(cfg, w, c1, c2).cells) {
      PlaceTwoNull(cfg, w, c1, c2);
    }
    forall fa ensures NullAttributes(StartField(cfg, w, fa).cells) {
      StartFieldNull(cfg, w, fa);
    }
  }

  lemma {:induction false} RunNull(cfg: Cfg, w: Wr, buf: seq<byte>, cp: nat)
    requires Ready(cfg, w) && NullAttributes(w.cells)
    ensures NullAttributes(Run(cfg, w, buf, cp).w.cells)
    decreases |buf| - cp
  {
    hide Order, NullAttributes;
    if cp < |buf| {
      AnyOrderNull(cfg, w, buf, cp);
      var s := Order(cfg, w, buf, cp);
      if s.ok {
        RunNull(cfg, s.w, buf, s.cp);
      }
    }
  }

  // --- The pass after a write -----------------------------------------------------------------

  // Behind an attribute, a stretch begins with the next cell.
  predicate FreshStretch(p: Post, n: nat)
    requires PostReady(p, n)
  {
    p.pb >= 0 && p.cells[p.pb].fa != 0 && p.db >= 0 ==> p.db == Inc(p.pb, n)
  }

  predicate SameFields(before: seq<Cell>, after: seq<Cell>)
  {
    |before| == |after| && forall k :: 0 <= k < |before| ==> after[k].fa == before[k].fa
  }

  lemma ClassifiedNull(p: Post, n: nat, b: nat)
    requires PostReady(p, n) && b < n && NullAttributes(p.cells) && FreshStretch(p, n)
    requires p.pb >= 0 ==> Inc(p.pb, n) == b
    ensures var q := Classified(p, n, b);
            && NullAttributes(q.cells) && SameFields(p.cells, q.cells) && q.pb == p.pb
            && -1 <= q.db < n
            && (p.pb >= 0 && p.cells[p.pb].fa != 0 && Ordinary(p.cells[b]) && q.db >= 0 ==> q.db == b)
            && (Ordinary(p.cells[b]) <==> Ordinary(q.cells[b]))
            && (p.cells[b].fa != 0 && q.db >= 0 ==> q.db == Inc(b, n))
  {
  }

  lemma MarkedNull(q: Post, n: nat, b: nat, siBad: bool)
    requires 0 < n <= |q.cells| && n % 2 == 0 && b < n && -1 <= q.db < n && -1 <= q.pb < n
    requires NullAttributes(q.cells)
    requires q.pb >= 0 && q.cells[q.pb].fa != 0 && Ordinary(q.cells[b]) && q.db >= 0 ==> q.db == b
    ensures NullAttributes(Marked(q, n, b, siBad)) && SameFields(q.cells, Marked(q, n, b, siBad))
  {
    assert b + n - b == n;
  }

  lemma KilledNull(cells: seq<Cell>, pb: int, b: nat)
    requires -1 <= pb < |cells| && b < |cells| && NullAttributes(cells)
    ensures var r := AfterSi(Killed(cells, pb, b), pb, b); NullAttributes(r) && SameFields(cells, r)
  {
  }

  // On an even-sized screen no step turns an attribute into a blank: the cell behind it cannot be a
  // right half.
  lemma StepNull(p: Post, n: nat, b: nat)
    requires PostReady(p, n) && b < n && n % 2 == 0 && NullAttributes(p.cells) && FreshStretch(p, n)
    requires p.pb >= 0 ==> Inc(p.pb, n) == b
    ensures var r := PostStep(p, n, b);
            NullAttributes(r.cells) && FreshStretch(r, n) && SameFields(p.cells, r.cells)
  {
    hide Classified, Marked, Killed, AfterSi, NullAttributes;
    ClassifiedNull(p, n, b);
    var q := Classified(p, n, b);
    MarkedNull(q, n, b, p.si || p.field);
    KilledNull(Marked(q, n, b, p.si || p.field), p.pb, b);
  }

  lemma {:induction false} PassNull(cells: seq<Cell>, n: nat, f: int, b0: nat, k: nat)
    requires b0 < n <= |cells| && -1 <= f < n && k <= n && n % 2 == 0 && NullAttributes(cells)
    ensures var p := PostAfter(PostInit(cells, n, f), n, b0, k);
            NullAttributes(p.cells) && FreshStretch(p, n) && SameFields(cells, p.cells)
    decreases k
  {
    hide PostStep, NullAttributes;
    if k > 0 {
      PassNull(cells, n, f, b0, k - 1);
      StepNull(PostAfter(PostInit(cells, n, f), n, b0, k - 1), n, At(b0, k - 1, n));
    }
  }

  lemma PostProcessNull(dbcs: bool, cells: seq<Cell>, n: nat, formatted: bool)
    requires 0 < n <= |cells| && n % 2 == 0 && NullAttributes(cells)
    ensures var r := PostProcess(dbcs, cells, n, formatted).cells;
            NullAttributes(r) && SameFields(cells, r)
  {
    hide PostAfter, NullAttributes;
    if dbcs {
      var f := PostField(cells, n, formatted);
      PassNull(cells, n, f, PostBegin(f, n), PostCount(f, n));
    }
  }

  // --- Commands -------------------------------------------------------------------------------

  predicate EvenSizes(m: Model) { m.Size(false) % 2 == 0 && m.Size(true) % 2 == 0 }

  // Attributes hold nulls, and there is none beyond the screen.
  predicate WellCoded(v: Dev)
  {
    NullAttributes(v.cells) && forall k :: v.N() <= k < |v.cells| ==> v.cells[k].fa == 0
  }

  lemma ErasedWellCoded(m: Model, v: Dev, alt: bool)
    requires v.Fits(m) && WellCoded(v)
    ensures WellCoded(Erased(m, v, alt))
  {
    var v1 := Cleared(v);
    assert forall k :: 0 <= k < |v1.cells| ==> v1.cells[k].fa == 0;
    var v2 := Blanked(v1);
    assert forall k :: 0 <= k < |v2.cells| ==> v2.cells[k].fa == 0;
  }

  lemma EraseAllUnprotectedWellCoded(m: Model, v: Dev)
    requires v.Fits(m) && WellCoded(v)
    ensures WellCoded(ErasedAllUnprotected(m, v))
  {
    hide Unprotected, FirstUnprotected;
  }

  lemma WrittenWellCoded(m: Model, v: Dev, buf: seq<byte>, erase: bool)
    requires Invariant(m, v) && WellCoded(v) && v.N() % 2 == 0
    ensures WellCoded(Written(m, v, buf, erase).v)
  {
    if |buf| >= 2 {
      hide Run, PostProcess, WriteBegin, NullAttributes;
      var cfg, w := WriteCfg(m, v), WriteBegin(m, v, buf[1]);
      WriteBeginSound(m, v, buf[1]);
      RunSound(cfg, w, buf, 2);
      WriteBeginNull(m, v, buf[1]);
      RunNull(cfg, w, buf, 2);
      var o := Run(cfg, w, buf, 2);
      PostProcessNull(m.dbcs, o.w.cells, v.N(), HasField(o.w.cells, v.N()));
    }
  }

  lemma WriteBeginNull(m: Model, v: Dev, wcc: byte)
    requires v.Fits(m) && NullAttributes(v.cells)
    ensures NullAttributes(WriteBegin(m, v, wcc).cells)
  {
    hide FieldAttr;
  }

  lemma ProcessedWellCoded(m: Model, v: Dev, buf: seq<byte>)
    requires Invariant(m, v) && WellCoded(v) && EvenSizes(m)
    ensures WellCoded(Processed(m, v, buf).v)
  {
    hide Written, Erased, ErasedAllUnprotected, WellCoded;
    EraseAllUnprotectedWellCoded(m, v);
    ErasedBlank(m, v, true);
    ErasedBlank(m, v, false);
    ErasedWellCoded(m, v, true);
    ErasedWellCoded(m, v, false);
    WrittenWellCoded(m, Erased(m, v, true), buf, true);
    WrittenWellCoded(m, Erased(m, v, false), buf, true);
    WrittenWellCoded(m, v, buf, false);
  }

  /** Over every run of commands, attributes hold nulls, and there is none beyond the screen. */
  lemma {:induction false} RunWellCoded(m: Model, v: Dev, commands: seq<seq<byte>>)
    requires Invariant(m, v) && WellCoded(v) && EvenSizes(m)
    ensures WellCoded(RunCommands(m, v, commands))
    decreases |commands|
  {
    hide Processed, WellCoded, Invariant;
    InvariantFits(m, v);
    if commands != [] {
      ProcessedInvariant(m, v, commands[0]);
      ProcessedWellCoded(m, v, commands[0]);
      RunWellCoded(m, Processed(m, v, commands[0]).v, commands[1..]);
    }
  }

  lemma InvariantFits(m: Model, v: Dev)
    requires Invariant(m, v)
    ensures v.Fits(m)
  {
  }

  lemma InitialWellCoded(m: Model)
    requires m.Valid()
    ensures WellCoded(Initial(m))
  {
  }

  /** A write that succeeds, in any state that commands reach, leaves every right half paired with a
      left half in a valid character, if and only if the orders left no SI directly followed by two
      double-byte cells, and no old right-half mark on the attribute in front of location 0. */
  lemma WritePairs(m: Model, v: Dev, buf: seq<byte>, erase: bool)
    requires Invariant(m, v) && WellCoded(v) && m.dbcs && v.N() % 2 == 0 && |buf| >= 2
    requires Written(m, v, buf, erase).pds == Okay
    ensures var n := v.N();
            var cells := Run(WriteCfg(m, v), WriteBegin(m, v, buf[1]), buf, 2).w.cells;
            var r := Written(m, v, buf, erase).v.cells;
            var f := PostField(cells, n, HasField(cells, n));
            (forall k :: 0 <= k < n && r[k].db == DbRight ==> Paired(r, n, k))
            <==> !HasPairAfterSi(cells, n, f) && (f < 0 || cells[f].db != DbRight)
  {
    hide Run, PostProcess, WriteBegin, Paired, HasPairAfterSi, NullAttributes, PostField;
    WriteBeginNull(m, v, buf[1]);
    RunNull(WriteCfg(m, v), WriteBegin(m, v, buf[1]), buf, 2);
    var cells := Run(WriteCfg(m, v), WriteBegin(m, v, buf[1]), buf, 2).w.cells;
    FieldHoldsNull(cells, v.N(), HasField(cells, v.N()));
    RightHalvesPairedIff(cells, v.N(), HasField(cells, v.N()));
  }

  lemma FieldHoldsNull(cells: seq<Cell>, n: nat, formatted: bool)
    requires 0 < n <= |cells| && NullAttributes(cells)
    ensures var f := PostField(cells, n, formatted); f >= 0 ==> cells[f].ec == EBC_NULL
  {
    hide FindField;
    var f := PostField(cells, n, formatted);
    assert f >= 0 ==> NullAttribute(cells[f]);
  }
}
