/**
 Command streams that a host can send to any terminal from power-on, and on which orders do something
 else than they are for (Common/ctlr.c:1477-1676, 2450-2598).
 */
module HostStreams {
  import opened Bytes
  import opened Screen
  import opened DbcsLook
  import opened WriteOrders
  import opened DbcsPost
  import opened DbcsStable
  import opened Commands
  import opened DeviceInvariant
  import opened OrderMeaning

  // --- A tab, then Erase Unprotected to Address -------------------------------------------------

  /** Erase/Write: a protected field of one blank and an unprotected one holding the letter A; then from the blank
      a tab, which goes to the letter, and Erase Unprotected to Address up to the end of the screen. */
  const TAB_THEN_ERASE: seq<byte> :=
    [0xF5, 0x40,
     ORDER_SF, 0xE0, 0x40, ORDER_SF, 0xC0, 0xC1,
     ORDER_SBA, 0x40, 0xC1, ORDER_PT, ORDER_EUA, 0x40, 0x40]

  const PROTECTED_FIELD := NULL_CELL.(fa := 0xE0)
  const UNPROTECTED_FIELD := NULL_CELL.(fa := 0xC0)
  const BLANK_CELL := NULL_CELL.(ec := 0x40)
  const LETTER_A := NULL_CELL.(ec := 0xC1)

  function Nulls(k: nat): (r: seq<Cell>)
    ensures |r| == k
  {
    seq(k, _ => NULL_CELL)
  }

  // The screen after the first `k` of the four cells are written.
  function FourCells(size: nat, k: nat): (r: seq<Cell>)
    requires 4 <= size && k <= 4
    ensures |r| == size
  {
    [PROTECTED_FIELD, BLANK_CELL, UNPROTECTED_FIELD, LETTER_A][..k] + Nulls(size - k)
  }

  lemma FourCellsNext(size: nat, k: nat, c: Cell)
    requires 4 <= size && k < 4 && c == [PROTECTED_FIELD, BLANK_CELL, UNPROTECTED_FIELD, LETTER_A][k]
    ensures FourCells(size, k)[k] == NULL_CELL
    ensures FourCells(size, k)[k := c] == FourCells(size, k + 1)
  {
  }

  lemma FourCellsNone(size: nat)
    requires 4 <= size
    ensures FourCells(size, 0) == Nulls(size)
  {
  }

  // --- Orders of a stream, one at a time --------------------------------------------------------

  lemma OneOrder(cfg: Cfg, w: Wr, buf: seq<byte>, cp: nat, s: Step)
    requires Ready(cfg, w) && cp < |buf| && s == Order(cfg, w, buf, cp) && s.ok
    ensures Run(cfg, w, buf, cp) == Run(cfg, s.w, buf, s.cp)
  {
    hide Order;
  }

  // SF on an empty cell.
  lemma StartsField(cfg: Cfg, w: Wr, buf: seq<byte>, cp: nat, fa: byte)
    requires Ready(cfg, w) && cp + 1 < |buf| && buf[cp] == ORDER_SF && buf[cp + 1] == fa
    requires w.cells[w.addr] == NULL_CELL && Printable(fa) == fa
    ensures Run(cfg, w, buf, cp)
            == Run(cfg, w.(cells := w.cells[w.addr := NULL_CELL.(fa := fa)], addr := Inc(w.addr, cfg.n),
                           formatted := true, curFa := fa, lastCmd := true, lastZpt := false), buf, cp + 2)
  {
    hide Printable;
    OneOrder(cfg, w, buf, cp, OrderSF(cfg, w, buf, cp));
  }

  // A graphic character on an empty cell.
  lemma StoresChar(cfg: Cfg, w: Wr, buf: seq<byte>, cp: nat, c: byte)
    requires Ready(cfg, w) && cp < |buf| && buf[cp] == c && 0x40 <= c < 0xFF
    requires w.cells[w.addr] == NULL_CELL && w.d == NO_DEFAULTS && !cfg.dbcs
    ensures Run(cfg, w, buf, cp)
            == Run(cfg, w.(cells := w.cells[w.addr := NULL_CELL.(ec := c)], addr := Inc(w.addr, cfg.n),
                           lastCmd := false, lastZpt := false), buf, cp + 1)
  {
    OneOrder(cfg, w, buf, cp, OrderChar(cfg, w, buf, cp));
  }

  // The state after the cells are written.
  lemma WritesFourCells(cfg: Cfg, size: nat, w: Wr)
    requires 4 <= cfg.n <= size && !cfg.dbcs
    requires w == Wr(Nulls(size), 0, false, NO_DEFAULTS, w.curFa, true, false, -1)
    ensures Run(cfg, w, TAB_THEN_ERASE, 2)
            == Run(cfg, Wr(FourCells(size, 4), Inc(3, cfg.n), true, NO_DEFAULTS, 0xC0, false, false, -1),
                   TAB_THEN_ERASE, 8)
  {
    hide FourCells, Run, Nulls;
    FourCellsNone(size);
    FourCellsNext(size, 0, PROTECTED_FIELD);
    FourCellsNext(size, 1, BLANK_CELL);
    FourCellsNext(size, 2, UNPROTECTED_FIELD);
    FourCellsNext(size, 3, LETTER_A);
    var w1 := Wr(FourCells(size, 1), 1, true, NO_DEFAULTS, 0xE0, true, false, -1);
    var w2 := Wr(FourCells(size, 2), 2, true, NO_DEFAULTS, 0xE0, false, false, -1);
    var w3 := Wr(FourCells(size, 3), 3, true, NO_DEFAULTS, 0xC0, true, false, -1);
    StartsField(cfg, w, TAB_THEN_ERASE, 2, 0xE0);
    StoresChar(cfg, w1, TAB_THEN_ERASE, 4, 0x40);
    StartsField(cfg, w2, TAB_THEN_ERASE, 5, 0xC0);
    StoresChar(cfg, w3, TAB_THEN_ERASE, 7, 0xC1);
  }

  // SBA to the blank, and the tab to the letter.
  lemma TabsToLetter(cfg: Cfg, size: nat, addr: nat)
    requires 4 <= cfg.n <= size && !cfg.dbcs && addr < cfg.n
    ensures Run(cfg, Wr(FourCells(size, 4), addr, true, NO_DEFAULTS, 0xC0, false, false, -1), TAB_THEN_ERASE, 8)
            == Run(cfg, Wr(FourCells(size, 4), 3, true, NO_DEFAULTS, 0xE0, true, false, -1), TAB_THEN_ERASE, 12)
  {
    hide Run, NextUnprotected, FieldAttr;
    var cells, n := FourCells(size, 4), cfg.n;
    var w := Wr(cells, addr, true, NO_DEFAULTS, 0xC0, false, false, -1);
    var w1 := Wr(cells, 1, true, NO_DEFAULTS, 0xE0, true, false, -1);
    SameFieldAsBefore(cells, n, true, 1);
    AttributeGoverns(cells, n, 0);
    OneOrder(cfg, w, TAB_THEN_ERASE, 8, Step(w1, 11, true));
    NextUnprotectedNearest(cells, n, 1);
    assert StartsUnprotected(cells, n, 3) && !StartsUnprotected(cells, n, 2);
    OneOrder(cfg, w1, TAB_THEN_ERASE, 11, Step(w1.(addr := 3), 12, true));
  }

  lemma {:induction false} NoAttributeOnTheWay(cells: seq<Cell>, n: nat, a: nat, o: nat)
    requires a + o < n <= |cells| && forall k :: a <= k < n ==> cells[k].fa == 0
    ensures Unbroken(cells, n, a, o)
    decreases o
  {
    if o > 0 {
      NoAttributeOnTheWay(cells, n, a, o - 1);
    }
  }

  // The erase takes the letter for part of the protected field.
  lemma ErasesNothing(cfg: Cfg, size: nat)
    requires 4 <= cfg.n <= size && !cfg.dbcs
    ensures var w := Wr(FourCells(size, 4), 3, true, NO_DEFAULTS, 0xE0, true, false, -1);
            Run(cfg, w, TAB_THEN_ERASE, 12).ok
            && Run(cfg, w, TAB_THEN_ERASE, 12).w.cells == w.cells
            && Run(cfg, w, TAB_THEN_ERASE, 12).w.icAddr == -1
  {
    hide FieldAttr, RunningAttr;
    var cells, n := FourCells(size, 4), cfg.n;
    var w := Wr(cells, 3, true, NO_DEFAULTS, 0xE0, true, false, -1);
    var after := EraseRange(cfg, cells, 3, Lap(3, 0, n), 0xE0);
    assert HasField(cells, n) by { assert cells[0].fa != 0; }
    forall k | 0 <= k < size ensures after[k] == cells[k] {
      ErasedCell(cfg, w, 0, k);
      if 3 <= k < n {
        NoAttributeOnTheWay(cells, n, 3, k - 3);
      }
    }
    assert after == cells;
    OneOrder(cfg, w, TAB_THEN_ERASE, 12, OrderEUA(cfg, w, TAB_THEN_ERASE, 12));
  }

  /** From power-on, on every terminal without double-byte support, the stream is accepted, and the letter, which
      is in an unprotected field on the way of the erase, is still there. */
  lemma TabThenEraseMisses(m: Model)
    requires m.Valid() && !m.dbcs && 4 <= m.Size(false)
    ensures var r := Processed(m, Initial(m), TAB_THEN_ERASE);
            && r.pds == Okay && r.v.formatted && r.v.cells[3] == LETTER_A
            && !IsProtected(FieldAttr(r.v.cells, r.v.N(), r.v.formatted, 3))
  {
    hide Run, FieldAttr, FourCells;
    var v := Erased(m, Initial(m), false);
    var size, cfg := m.Allocated(), WriteCfg(m, v);
    assert v.cells == Nulls(size);
    var w := WriteBegin(m, v, 0x40);
    WritesFourCells(cfg, size, w);
    TabsToLetter(cfg, size, Inc(3, cfg.n));
    ErasesNothing(cfg, size);
    FourCellsFields(size, cfg.n);
  }

  lemma FourCellsFields(size: nat, n: nat)
    requires 4 <= n <= size
    ensures var cells := FourCells(size, 4);
            HasField(cells, n) && cells[3] == LETTER_A && FieldAttr(cells, n, true, 3) == 0xC0
  {
    hide FieldAttr;
    var cells := FourCells(size, 4);
    assert cells[2].fa != 0;
    SameFieldAsBefore(cells, n, true, 3);
    AttributeGoverns(cells, n, 2);
  }

  // --- A stale right half -------------------------------------------------------------------------

  // Erase/Write: a double-byte character between SO and SI; then Write: an attribute over its right half.
  const DOUBLE_BYTE_A: seq<byte> := [0xF5, 0x40, EBC_SO, 0x41, 0x41, EBC_SI]
  const FIELD_OVER_HALF: seq<byte> := [0xF1, 0x40, ORDER_SBA, 0x40, 0xC2, ORDER_SF, 0xC0]

  const HALF := NULL_CELL.(ec := 0x41)

  predicate Empty(c: Cell) { c == NULL_CELL.(db := c.db) && c.db in {DbNone, DbSb} }

  // One step of the pass over an empty cell outside any stretch.
  lemma EmptyStep(p: Post, n: nat, b: nat)
    requires PostReady(p, n) && b < n && p.pb != b && p.db == -1 && !p.so && !p.field
    requires Empty(p.cells[b]) && (p.pb >= 0 ==> p.cells[p.pb].db != DbLeft)
    ensures var r := PostStep(p, n, b);
            && r == p.(cells := p.cells[b := r.cells[b]], pb := b)
            && Empty(r.cells[b])
  {
  }

  lemma {:induction false} EmptySteps(p0: Post, n: nat, b0: nat, i: nat, k: nat)
    requires PostReady(p0, n) && b0 < n && i <= k <= n && p0.pb == -1
    requires var p := PostAfter(p0, n, b0, i);
             && p.db == -1 && !p.so && !p.field && p.ok
             && (p.pb >= 0 ==> p.cells[p.pb].db != DbLeft)
             && forall j :: i <= j < k ==> Empty(p.cells[At(b0, j, n)])
    ensures var p, r := PostAfter(p0, n, b0, i), PostAfter(p0, n, b0, k);
            && r.db == -1 && !r.so && !r.field && r.ok && r.si == p.si
            && (r.pb >= 0 ==> r.cells[r.pb].db != DbLeft)
            && (k > i ==> r.cells[r.pb].db != DbSi)
            && forall j :: 0 <= j < n ==>
                 if i <= j < k then Empty(r.cells[At(b0, j, n)])
                 else r.cells[At(b0, j, n)] == p.cells[At(b0, j, n)]
    decreases k
  {
    hide PostStep, Empty;
    if k > i {
      EmptySteps(p0, n, b0, i, k - 1);
      var q := PostAfter(p0, n, b0, k - 1);
      assert q.pb != At(b0, k - 1, n);
      EmptyStep(q, n, At(b0, k - 1, n));
      EmptyMark(PostAfter(p0, n, b0, k).cells[At(b0, k - 1, n)]);
    }
  }

  lemma EmptyMark(c: Cell)
    requires Empty(c)
    ensures c.db != DbLeft && c.db != DbSi
  {
  }

  // The screen of the first command, before and after the pass.
  function Shifted(size: nat): (r: seq<Cell>)
    requires 4 <= size
    ensures |r| == size
  {
    [NULL_CELL.(ec := EBC_SO), HALF, HALF, NULL_CELL.(ec := EBC_SI)] + Nulls(size - 4)
  }

  predicate Shown(cells: seq<Cell>, n: nat)
    requires 4 <= n <= |cells|
  {
    && cells[0] == NULL_CELL.(ec := EBC_SO) && cells[1] == HALF.(db := DbLeft)
    && cells[2] == HALF.(db := DbRight) && cells[3] == NULL_CELL.(ec := EBC_SI, db := DbSi)
    && forall k :: 4 <= k < n ==> Empty(cells[k])
  }

  // The state of the pass behind the right half.
  function BehindHalves(size: nat): Post
    requires 6 <= size
  {
    Post(Shifted(size)[1 := HALF.(db := DbLeft)][2 := HALF.(db := DbRight)], true, false, false, 1, 2, true)
  }

  lemma FirstThreeSteps(size: nat, n: nat)
    requires 6 <= n <= size && n % 2 == 0
    ensures PostAfter(PostInit(Shifted(size), n, -1), n, 0, 3) == BehindHalves(size)
  {
    hide Nulls;
    var c := Shifted(size);
    var p0 := PostInit(c, n, -1);
    var p1 := Post(c, true, false, false, 1, 0, true);
    var p2 := p1.(cells := c[1 := HALF.(db := DbLeft)], pb := 1);
    var p3 := BehindHalves(size);
    assert PostAfter(p0, n, 0, 1) == p1 by {
      assert PostAfter(p0, n, 0, 0) == p0;
      assert PostStep(p0, n, 0) == p1 by { assert c[0 := c[0]] == c; }
    }
    assert PostAfter(p0, n, 0, 2) == p2 by {
      assert 1 + n - 1 == n;
      assert PostStep(p1, n, 1) == p2;
    }
    assert (2 + n - 1) % 2 == 1;
    assert PostStep(p2, n, 2) == p3;
  }

  lemma FirstFourSteps(size: nat, n: nat)
    requires 6 <= n <= size && n % 2 == 0
    ensures var p := PostAfter(PostInit(Shifted(size), n, -1), n, 0, 4);
            && p.ok && p.db == -1 && !p.so && !p.field && p.pb == 3
            && p.cells == BehindHalves(size).cells[3 := NULL_CELL.(ec := EBC_SI, db := DbSi)]
  {
    hide PostAfter, PostInit;
    FirstThreeSteps(size, n);
    AfterNext(PostInit(Shifted(size), n, -1), n, 0, 3);
  }

  lemma PassShows(size: nat, n: nat)
    requires 6 <= n <= size && n % 2 == 0
    ensures var r := PostProcess(true, Shifted(size), n, false);
            r.ok && |r.cells| == size && Shown(r.cells, n)
  {
    hide PostStep, PostAfter;
    FirstFourSteps(size, n);
    var p0 := PostInit(Shifted(size), n, -1);
    var p := PostAfter(p0, n, 0, 4);
    forall j | 4 <= j < n ensures Empty(p.cells[At(0, j, n)]) {
      assert At(0, j, n) == j && p.cells[j] == Shifted(size)[j] == NULL_CELL;
    }
    EmptySteps(p0, n, 0, 4, n);
    var r := PostAfter(p0, n, 0, n).cells;
    forall j | 0 <= j < n ensures if j < 4 then r[j] == p.cells[j] else Empty(r[j]) {
      assert At(0, j, n) == j;
    }
  }

  lemma RunEnds(cfg: Cfg, w: Wr, buf: seq<byte>)
    requires Ready(cfg, w)
    ensures Run(cfg, w, buf, |buf|) == Outcome(w, true)
  {
  }

  // SO at the start of an unformatted screen.
  lemma ShiftsOut(cfg: Cfg, w: Wr, buf: seq<byte>, cp: nat)
    requires Ready(cfg, w) && cfg.dbcs && cfg.n >= 6 && !w.formatted && w.addr == 0 && w.d == NO_DEFAULTS
    requires cp < |buf| && buf[cp] == EBC_SO && w.cells[0] == NULL_CELL
    ensures Run(cfg, w, buf, cp)
            == Run(cfg, w.(cells := w.cells[0 := NULL_CELL.(ec := EBC_SO)], addr := 1, lastCmd := true,
                           lastZpt := false), buf, cp + 1)
  {
    assert OpenShift(w.cells, cfg.n, -1, cfg.n - 1, false) == -1;
    assert LookAt(cfg, w, 0) == NOT_DBCS;
    OneOrder(cfg, w, buf, cp, OrderSO(cfg, w, cp));
  }

  // The character behind it.
  lemma StoresHalves(cfg: Cfg, w: Wr, buf: seq<byte>, cp: nat)
    requires Ready(cfg, w) && cfg.dbcs && cfg.n >= 6 && cfg.n % 2 == 0 && !w.formatted && w.addr == 1
    requires w.d == NO_DEFAULTS && w.cells[0].ec == EBC_SO && w.cells[1] == NULL_CELL && w.cells[2] == NULL_CELL
    requires cp + 1 < |buf| && buf[cp] == buf[cp + 1] == 0x41
    ensures Run(cfg, w, buf, cp)
            == Run(cfg, w.(cells := w.cells[1 := HALF][2 := HALF], addr := 3, lastCmd := false, lastZpt := false),
                   buf, cp + 2)
  {
    hide LookAt;
    LooksLeft(cfg, w, 1);
    OneOrder(cfg, w, buf, cp, OrderChar(cfg, w, buf, cp));
  }

  // The SI behind that.
  lemma ShiftsIn(cfg: Cfg, w: Wr, buf: seq<byte>, cp: nat)
    requires Ready(cfg, w) && cfg.dbcs && cfg.n >= 6 && cfg.n % 2 == 0 && !w.formatted && w.addr == 3
    requires w.d == NO_DEFAULTS && w.cells[0].ec == EBC_SO && w.cells[1] == HALF && w.cells[2] == HALF
    requires w.cells[3] == NULL_CELL && cp < |buf| && buf[cp] == EBC_SI
    ensures Run(cfg, w, buf, cp)
            == Run(cfg, w.(cells := w.cells[3 := NULL_CELL.(ec := EBC_SI)], addr := 4, lastCmd := true,
                           lastZpt := false), buf, cp + 1)
  {
    hide LookAt, Matched, Run;
    LooksLeft(cfg, w, 3);
    FindsSo(w.cells, cfg.n);
    OneOrder(cfg, w, buf, cp, OrderSI(cfg, w, cp));
  }

  lemma FindsSo(cells: seq<Cell>, n: nat)
    requires 6 <= n <= |cells| && cells[0].ec == EBC_SO && cells[1] == HALF && cells[2] == HALF
    ensures Matched(cells, n, -1, 2)
  {
    assert Matched(cells, n, -1, 0);
    assert Matched(cells, n, -1, 1);
  }

  // The orders of the first command.
  lemma WritesShifted(cfg: Cfg, size: nat, w: Wr)
    requires 6 <= cfg.n <= size && cfg.n % 2 == 0 && cfg.dbcs
    requires w == Wr(Nulls(size), 0, false, NO_DEFAULTS, w.curFa, true, false, -1)
    ensures var o := Run(cfg, w, DOUBLE_BYTE_A, 2);
            o.ok && o.w.cells == Shifted(size) && o.w.icAddr == -1 && o.w.d == NO_DEFAULTS
  {
    hide Run, Nulls;
    var c0 := Nulls(size);
    NullsAre(size);
    NullsAre(size - 4);
    var c1 := c0[0 := NULL_CELL.(ec := EBC_SO)];
    var c2 := c1[1 := HALF][2 := HALF];
    var c3 := c2[3 := NULL_CELL.(ec := EBC_SI)];
    ShiftsOut(cfg, w, DOUBLE_BYTE_A, 2);
    StoresHalves(cfg, w.(cells := c1, addr := 1), DOUBLE_BYTE_A, 3);
    ShiftsIn(cfg, w.(cells := c2, addr := 3, lastCmd := false), DOUBLE_BYTE_A, 5);
    RunEnds(cfg, w.(cells := c3, addr := 4), DOUBLE_BYTE_A);
    assert c3 == Shifted(size);
  }

  lemma NullsAre(k: nat)
    ensures forall j :: 0 <= j < k ==> Nulls(k)[j] == NULL_CELL
  {
  }

  // Behind the SO at address 0, odd addresses are left halves.
  lemma LooksLeft(cfg: Cfg, w: Wr, a: nat)
    requires Ready(cfg, w) && cfg.dbcs && cfg.n >= 6 && cfg.n % 2 == 0 && !w.formatted && a in {1, 3}
    requires w.cells[0].ec == EBC_SO && w.cells[a].cs == CS_BASE
    requires a == 3 ==> !IsShift(w.cells[1].ec) && !IsShift(w.cells[2].ec)
    ensures LookAt(cfg, w, a) == Look(DbLeft, InSubfield)
  {
    var n := cfg.n;
    assert OpenShift(w.cells, n, -1, 0, false) == 0;
    if a == 3 {
      assert OpenShift(w.cells, n, -1, 1, false) == 0;
      assert OpenShift(w.cells, n, -1, 2, false) == 0;
      assert (3 + n) % 2 == 1;
    } else {
      assert (1 + n) % 2 == 1;
    }
  }

  // The screen of the second command, in front of the pass.
  lemma PutsField(cfg: Cfg, w: Wr)
    requires Ready(cfg, w) && 6 <= cfg.n && w.d == NO_DEFAULTS && w.icAddr == -1 && Shown(w.cells, cfg.n)
    ensures var o := Run(cfg, w, FIELD_OVER_HALF, 2);
            o.ok && o.w.icAddr == -1
            && o.w.cells == w.cells[2 := UNPROTECTED_FIELD.(db := DbRight)]
  {
    hide Run, FieldAttr;
    var w1 := w.(addr := 2, curFa := FieldAttr(w.cells, cfg.n, w.formatted, 2), lastCmd := true, lastZpt := false);
    OneOrder(cfg, w, FIELD_OVER_HALF, 2, Step(w1, 5, true));
    var s := OrderSF(cfg, w1, FIELD_OVER_HALF, 5);
    OneOrder(cfg, w1, FIELD_OVER_HALF, 5, s);
    RunEnds(cfg, s.w, FIELD_OVER_HALF);
  }

  // The pass begins behind the new attribute, at the SI, and comes round to the SO and the left half.
  lemma SecondPass(cells: seq<Cell>, n: nat)
    requires 6 <= n <= |cells| && n % 2 == 0 && Shown(cells, n)
    ensures var c := cells[2 := UNPROTECTED_FIELD.(db := DbRight)];
            HasField(c, n) && PostField(c, n, true) == 2 && PostProcess(true, c, n, true).ok
  {
    hide PostStep, PostAfter;
    var c := cells[2 := UNPROTECTED_FIELD.(db := DbRight)];
    FieldAtTwo(c, n);
    var p0 := PostInit(c, n, 2);
    var p1 := PostAfter(p0, n, 3, 1);
    FirstSi(c, n);
    forall j | 1 <= j < n - 3 ensures Empty(p1.cells[At(3, j, n)]) {
      assert At(3, j, n) == 3 + j;
    }
    EmptySteps(p0, n, 3, 1, n - 3);
    var p2 := PostAfter(p0, n, 3, n - 3);
    assert At(3, n - 3, n) == 0 && At(3, n - 2, n) == 1 && At(3, n - 4, n) == n - 1;
    assert p2.cells[0] == c[0] && p2.cells[1] == c[1];
    LastTwo(p2, n);
    AfterNext(p0, n, 3, n - 3);
    AfterNext(p0, n, 3, n - 2);
  }

  lemma FirstSi(c: seq<Cell>, n: nat)
    requires 6 <= n <= |c| && c[2] == UNPROTECTED_FIELD.(db := DbRight)
    requires c[3] == NULL_CELL.(ec := EBC_SI, db := DbSi)
    ensures var p := PostAfter(PostInit(c, n, 2), n, 3, 1);
            p == Post(c, false, true, false, -1, 3, true)
  {
    var p0 := PostInit(c, n, 2);
    assert PostAfter(p0, n, 3, 0) == p0;
    assert c[3 := c[3]] == c;
    assert PostStep(p0, n, 3) == Post(c, false, true, false, -1, 3, true);
  }

  lemma LastTwo(p: Post, n: nat)
    requires PostReady(p, n) && 6 <= n && n % 2 == 0 && p.ok && !p.so && !p.field && p.db == -1 && p.pb == n - 1
    requires p.cells[n - 1].db != DbLeft && p.cells[n - 1].db != DbSi
    requires p.cells[0] == NULL_CELL.(ec := EBC_SO) && p.cells[1] == HALF.(db := DbLeft)
    ensures PostStep(PostStep(p, n, 0), n, 1).ok
  {
    var q := PostStep(p, n, 0);
    assert q == p.(cells := p.cells[0 := p.cells[0]], so := true, si := false, db := 1, pb := 0);
    assert q.cells[1] == p.cells[1];
    assert 1 + n - 1 == n;
  }

  lemma FieldAtTwo(c: seq<Cell>, n: nat)
    requires 6 <= n <= |c| && c[2].fa != 0 && forall k :: 0 <= k < n && k != 2 ==> c[k].fa == 0
    ensures HasField(c, n) && PostField(c, n, true) == 2
  {
    FindBackComplete(c, n, 0);
  }

  /** From power-on, on every double-byte terminal with an even number of cells, both commands are accepted; the
      attribute keeps the mark of the right half that it replaced, which is no half of a character. */
  lemma FieldKeepsRightMark(m: Model)
    requires m.Valid() && m.dbcs && 6 <= m.Size(false) && m.Size(false) % 2 == 0
    ensures var r1 := Processed(m, Initial(m), DOUBLE_BYTE_A);
            var r2 := Processed(m, r1.v, FIELD_OVER_HALF);
            && r1.pds == r2.pds == Okay && 6 <= r2.v.N() <= |r2.v.cells|
            && r2.v.cells[2].fa == 0xC0 && r2.v.cells[2].db == DbRight && !Paired(r2.v.cells, r2.v.N(), 2)
  {
    hide Run, PostProcess, FieldAttr, Shifted, Shown;
    var v := Erased(m, Initial(m), false);
    var size, cfg := m.Allocated(), WriteCfg(m, v);
    assert v.cells == Nulls(size);
    WritesShifted(cfg, size, WriteBegin(m, v, 0x40));
    NoFieldShifted(size, cfg.n);
    PassShows(size, cfg.n);
    var v1 := Processed(m, Initial(m), DOUBLE_BYTE_A).v;
    assert Shown(v1.cells, cfg.n);
    var w := WriteBegin(m, v1, 0x40);
    PutsField(cfg, w);
    SecondPass(v1.cells, cfg.n);
    var c := v1.cells[2 := UNPROTECTED_FIELD.(db := DbRight)];
    AttributeNotVisited(c, cfg.n, true);
    NullNotPaired(Processed(m, v1, FIELD_OVER_HALF).v.cells, cfg.n, 2);
  }

  lemma NoFieldShifted(size: nat, n: nat)
    requires 4 <= n <= size
    ensures !HasField(Shifted(size), n)
  {
  }
}
