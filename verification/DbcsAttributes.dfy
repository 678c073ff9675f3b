/**
 The two computations of the double-byte state for cells that have the double-byte character set of
 their own, outside double-byte fields: they agree except directly behind an SI, and sometimes at the last
 address of an unformatted screen (Common/ctlr.c:2366-2384, 2450-2598).
 */
module DbcsAttributes {
  import opened Bytes
  import opened Screen
  import opened DbcsLook
  import opened DbcsPost
  import opened DbcsMarks
  import opened DbcsStable
  import opened DbcsCodes
  import opened DbcsFields

  // A run of cells with the set, as far back as it goes.
  predicate RunOfSet(cells: seq<Cell>, n: nat, b0: nat, e: nat, g: nat, i: nat)
    requires b0 < n <= |cells|
  {
    && e <= g <= i < n && (forall j :: g <= j <= i ==> SetAt(cells[At(b0, j, n)]))
    && (g > e ==> !SetAt(cells[At(b0, g - 1, n)]))
  }

  function RunStart(cells: seq<Cell>, n: nat, b0: nat, e: nat, i: nat): (g: nat)
    requires b0 < n <= |cells| && e <= i < n && SetAt(cells[At(b0, i, n)])
    ensures RunOfSet(cells, n, b0, e, g, i)
    decreases i
  {
    if i > e && SetAt(cells[At(b0, i - 1, n)]) then RunStart(cells, n, b0, e, i - 1) else i
  }

  // Outside a double-byte field the pass knows that it is.
  lemma {:induction false} NotInField(cells: seq<Cell>, n: nat, f: int, b0: nat, e: nat, i: nat)
    requires b0 < n <= |cells| && e <= i < n && n % 2 == 0 && -1 <= f < n
    requires PostAfter(PostInit(cells, n, f), n, b0, i).ok
    requires Outside(cells, n, f, b0, e)
    requires forall j :: e <= j < i ==> cells[At(b0, j, n)].fa == 0
    ensures !PostAfter(PostInit(cells, n, f), n, b0, i).field
    decreases i
  {
    hide PostStep, SameStructure, Regular;
    var p0 := PostInit(cells, n, f);
    if i > 0 {
      var b := At(b0, i - 1, n);
      OkBefore(p0, n, b0, i - 1, i);
      CellAhead(cells, n, f, b0, i - 1);
      AfterNext(p0, n, b0, i - 1);
      var p := PostAfter(p0, n, b0, i - 1);
      if i > e {
        NotInField(cells, n, f, b0, e, i - 1);
        if cells[b].ec == EBC_SO {
          StepSo(p, n, b);
        } else if cells[b].ec == EBC_SI {
          StepSi(p, n, b);
        } else {
          StepOrdinary(p, n, b);
        }
      } else {
        StepField(p, n, b);
      }
    }
  }

  // A cell without the set of its own leaves no stretch behind, unless it opens one or is inside one.
  lemma NoStretch(p: Post, n: nat, b: nat)
    requires PostReady(p, n) && b < n && p.pb != b && PostStep(p, n, b).ok && !SetAt(p.cells[b])
    requires !PostStep(p, n, b).field && !PostStep(p, n, b).so
    ensures PostStep(p, n, b).db == -1
    ensures SiAt(p.cells[b]) && !AfterSiAt(p) ==> AfterSiAt(PostStep(p, n, b))
  {
    hide PostStep;
    if p.cells[b].fa != 0 {
      StepField(p, n, b);
    } else if p.cells[b].ec == EBC_SO {
      StepSo(p, n, b);
    } else if p.cells[b].ec == EBC_SI {
      StepSi(p, n, b);
    } else {
      StepOrdinary(p, n, b);
    }
  }

  // A cell with the set is not accepted between SO and SI.
  lemma SetOutside(cells: seq<Cell>, n: nat, f: int, b0: nat, g: nat)
    requires b0 < n <= |cells| && g < n && n % 2 == 0 && -1 <= f < n
    requires PostAfter(PostInit(cells, n, f), n, b0, g + 1).ok && SetAt(cells[At(b0, g, n)])
    ensures !PostAfter(PostInit(cells, n, f), n, b0, g).so
  {
    hide PostStep, PostAfter, SameStructure;
    var p0 := PostInit(cells, n, f);
    OkBefore(p0, n, b0, g, g + 1);
    RegularAfter(cells, n, f, b0, g);
    AfterNext(p0, n, b0, g);
    var q := PostAfter(p0, n, b0, g);
    Passed(q, n, b0, g);
    assert q.cells[At(b0, g, n)] == cells[At(b0, g, n)];
    StepOrdinary(q, n, At(b0, g, n));
  }

  // The mark of an SI behind the cell in front of `g`.
  lemma BehindSiIff(cells: seq<Cell>, n: nat, f: int, b0: nat, g: nat)
    requires b0 < n <= |cells| && 0 < g < n && n % 2 == 0 && -1 <= f < n
    requires PostAfter(PostInit(cells, n, f), n, b0, g).ok
    ensures AfterSiAt(PostAfter(PostInit(cells, n, f), n, b0, g)) ==> SiAt(cells[At(b0, g - 1, n)])
    ensures SiAt(cells[At(b0, g - 1, n)]) ==> AfterSiAt(PostAfter(PostInit(cells, n, f), n, b0, g))
  {
    hide PostStep, PostAfter, PostInit, SameStructure;
    var q := PostAfter(PostInit(cells, n, f), n, b0, g);
    RegularAfter(cells, n, f, b0, g);
    if AfterSiAt(q) {
      MarkedSi(cells, q, n, b0, g);
    }
    if SiAt(cells[At(b0, g - 1, n)]) {
      BehindSi(cells, n, f, b0, g - 1);
    }
  }

  // The pass is outside double-byte fields where the stretch of positions from `e` begins.
  predicate Outside(cells: seq<Cell>, n: nat, f: int, b0: nat, e: nat)
    requires b0 < n <= |cells| && e < n && -1 <= f < n
  {
    if e == 0 then f < 0 || !IsDbcsSet(cells[f].cs)
    else cells[At(b0, e - 1, n)].fa != 0 && !IsDbcsSet(cells[At(b0, e - 1, n)].cs)
  }

  // In front of a run there is no stretch and no open SO.
  lemma BeforeRun(cells: seq<Cell>, n: nat, f: int, b0: nat, e: nat, g: nat)
    requires b0 < n <= |cells| && e <= g < n && n % 2 == 0 && -1 <= f < n
    requires PostAfter(PostInit(cells, n, f), n, b0, g + 1).ok && SetAt(cells[At(b0, g, n)])
    requires g > e ==> !SetAt(cells[At(b0, g - 1, n)])
    requires Outside(cells, n, f, b0, e)
    requires forall j :: e <= j < g ==> cells[At(b0, j, n)].fa == 0
    ensures var p := PostAfter(PostInit(cells, n, f), n, b0, g);
            && p.db == -1 && !p.so && !p.field
            && (AfterSiAt(p) <==> g > 0 && SiAt(cells[At(b0, g - 1, n)]))
  {
    hide PostStep, PostAfter, SameStructure;
    var p0 := PostInit(cells, n, f);
    OkBefore(p0, n, b0, g, g + 1);
    NotInField(cells, n, f, b0, e, g);
    SetOutside(cells, n, f, b0, g);
    if g > 0 {
      hide Regular;
      var b := At(b0, g - 1, n);
      OkBefore(p0, n, b0, g - 1, g);
      CellAhead(cells, n, f, b0, g - 1);
      AfterNext(p0, n, b0, g - 1);
      NoStretch(PostAfter(p0, n, b0, g - 1), n, b);
      BehindSiIff(cells, n, f, b0, g);
    } else {
      FirstState(cells, n, f, b0);
    }
  }

  // What the pass finds at a position that it has not visited.
  lemma CellAhead(cells: seq<Cell>, n: nat, f: int, b0: nat, i: nat)
    requires b0 < n <= |cells| && i < n && n % 2 == 0 && -1 <= f < n
    requires PostAfter(PostInit(cells, n, f), n, b0, i).ok
    ensures var p, b := PostAfter(PostInit(cells, n, f), n, b0, i), At(b0, i, n);
            PostReady(p, n) && |p.cells| == |cells| && p.pb != b && p.cells[b] == cells[b]
  {
    hide PostStep, PostAfter, PostInit, SameStructure;
    RegularAfter(cells, n, f, b0, i);
    Passed(PostAfter(PostInit(cells, n, f), n, b0, i), n, b0, i);
  }

  lemma FirstState(cells: seq<Cell>, n: nat, f: int, b0: nat)
    requires b0 < n <= |cells| && -1 <= f < n
    ensures PostAfter(PostInit(cells, n, f), n, b0, 0) == PostInit(cells, n, f)
  {
  }

  // In a run the stretch begins with its first cell.
  lemma {:induction false} WithinRun(cells: seq<Cell>, n: nat, f: int, b0: nat, e: nat, g: nat, i: nat)
    requires b0 < n <= |cells| && n % 2 == 0 && -1 <= f < n && RunOfSet(cells, n, b0, e, g, i)
    requires PostAfter(PostInit(cells, n, f), n, b0, i + 1).ok
    requires Outside(cells, n, f, b0, e)
    requires forall j :: e <= j < g ==> cells[At(b0, j, n)].fa == 0
    ensures var p := PostAfter(PostInit(cells, n, f), n, b0, i);
            && p.db == (if i == g then -1 else At(b0, g, n))
            && (AfterSiAt(p) <==> i == g > 0 && SiAt(cells[At(b0, g - 1, n)]))
    decreases i
  {
    hide PostStep, PostAfter, PostInit, SameStructure, Regular;
    var p0 := PostInit(cells, n, f);
    OkBefore(p0, n, b0, g + 1, i + 1);
    if i == g {
      BeforeRun(cells, n, f, b0, e, g);
    } else {
      var b := At(b0, i - 1, n);
      OkBefore(p0, n, b0, i, i + 1);
      OkBefore(p0, n, b0, i - 1, i);
      WithinRun(cells, n, f, b0, e, g, i - 1);
      CellAhead(cells, n, f, b0, i - 1);
      AfterNext(p0, n, b0, i - 1);
      StepOrdinary(PostAfter(p0, n, b0, i - 1), n, b);
    }
  }

  lemma MarkInRun(cells: seq<Cell>, n: nat, f: int, b0: nat, e: nat, g: nat, i: nat, count: nat)
    requires b0 < n <= |cells| && n % 2 == 0 && -1 <= f < n && RunOfSet(cells, n, b0, e, g, i) && i < count <= n
    requires PostAfter(PostInit(cells, n, f), n, b0, count).ok
    requires Outside(cells, n, f, b0, e)
    requires forall j :: e <= j < g ==> cells[At(b0, j, n)].fa == 0
    ensures Answer(PostAfter(PostInit(cells, n, f), n, b0, count).cells[At(b0, i, n)].db)
            == if i == g > 0 && SiAt(cells[At(b0, g - 1, n)]) then DbNone
               else if (i - g) % 2 == 0 then DbLeft else DbRight
  {
    hide PostStep, PostAfter, PostInit, SameStructure;
    var p0, b := PostInit(cells, n, f), At(b0, i, n);
    OkBefore(p0, n, b0, i, count);
    OkBefore(p0, n, b0, i + 1, count);
    WithinRun(cells, n, f, b0, e, g, i);
    RegularAfter(cells, n, f, b0, i);
    AfterNext(p0, n, b0, i);
    var p := PostAfter(p0, n, b0, i);
    Passed(p, n, b0, i);
    assert p.cells[b] == cells[b];
    StepOrdinary(p, n, b);
    HalfParity(b0, g, i, n);
    MarkKept(cells, n, f, b0, i, count);
  }

  // --- The scan -----------------------------------------------------------------------------------

  // Back to the cell in front of the run; but from the last address of an unformatted screen it does not move.
  lemma {:induction false} ScanOfRun(cells: seq<Cell>, n: nat, b0: nat, f: int, e: nat, g: nat, i: nat)
    requires b0 < n <= |cells| && FieldStart(cells, n, b0, f, e, i) && RunOfSet(cells, n, b0, e, g, i)
    requires forall j :: g <= j <= i ==> cells[At(b0, j, n)].cs == CS_DBCS
    requires f >= 0 ==> cells[f].cs != CS_DBCS
    requires g > e ==> cells[At(b0, g - 1, n)].cs != CS_DBCS || IsShift(cells[At(b0, g - 1, n)].ec)
    requires f < 0 ==> e == 0 && b0 == 0
    ensures AttributeStart(cells, n, f, At(b0, i, n))
            == if f < 0 && i == n - 1 then n - 1 else Dec(At(b0, g, n), n)
    decreases i
  {
    var x := At(b0, i, n);
    if x != Stop(f, n) {
      if i > g {
        OneBack(cells, n, b0, f, e, i);
        ScanOfRun(cells, n, b0, f, e, g, i - 1);
      } else {
        var y := Dec(x, n);
        assert g > e ==> y == At(b0, g - 1, n);
        assert g == e ==> y == Stop(f, n);
      }
    } else {
      NotAtField(cells, n, b0, f, e, i);
    }
  }

  lemma NotAtField(cells: seq<Cell>, n: nat, b0: nat, f: int, e: nat, i: nat)
    requires b0 < n <= |cells| && FieldStart(cells, n, b0, f, e, i) && At(b0, i, n) == Stop(f, n)
    requires f < 0 ==> e == 0 && b0 == 0
    ensures if f < 0 then i == n - 1 else cells[At(b0, i, n)] == cells[f]
  {
  }

  lemma RunHalf(n: nat, b0: nat, g: nat, i: nat)
    requires b0 < n && g <= i < n && n % 2 == 0
    ensures Half(At(b0, i, n) + n - Dec(At(b0, g, n), n)) == if (i - g) % 2 == 0 then DbLeft else DbRight
  {
    HalfInField(n, b0, Dec(At(b0, g, n), n), g, i);
  }

  // What the scan answers in a run.
  lemma LookInRun(r: seq<Cell>, n: nat, formatted: bool, b0: nat, f: int, e: nat, g: nat, k: nat)
    requires b0 < n <= |r| && k < n && n % 2 == 0 && f == FindField(r, n, formatted, k)
    requires FieldStart(r, n, b0, f, e, Off(b0, k, n)) && RunOfSet(r, n, b0, e, g, Off(b0, k, n))
    requires forall j :: g <= j <= Off(b0, k, n) ==> r[At(b0, j, n)].cs == CS_DBCS
    requires f >= 0 ==> r[f].cs != CS_DBCS
    requires g > e ==> r[At(b0, g - 1, n)].cs != CS_DBCS || IsShift(r[At(b0, g - 1, n)].ec)
    requires f < 0 ==> e == 0 && b0 == 0
    ensures LookLeft(true, r, n, formatted, k).state
            == if f < 0 && k == n - 1 then DbRight else if (Off(b0, k, n) - g) % 2 == 0 then DbLeft else DbRight
  {
    hide FindField, AttributeStart, FieldStart;
    var i := Off(b0, k, n);
    assert At(b0, i, n) == k;
    ScanOfRun(r, n, b0, f, e, g, i);
    RunHalf(n, b0, g, i);
  }

  /** On an even-sized screen, for a cell with the double-byte set outside double-byte fields, after a pass without
      errors the mark agrees with the left-looking scan, unless the cell stands directly behind an SI, which leaves it
      without a mark, or at the last address of an unformatted screen in a run of such cells that begins at an
      odd address, where the scan answers right and the mark is left.  `g` is where that run begins, counted from
      where the pass begins, and `e` where the field does. */
  lemma MarksOfSet(cells: seq<Cell>, n: nat, formatted: bool, k: nat) returns (e: nat, g: nat)
    requires k < n <= |cells| && n % 2 == 0 && formatted == HasField(cells, n)
    requires PostProcess(true, cells, n, formatted).ok && SetAt(cells[k])
    requires forall j :: 0 <= j < n && cells[j].fa == 0 && IsDbcsSet(cells[j].cs) ==> cells[j].cs == CS_DBCS
    requires var f := FindField(cells, n, formatted, k); f >= 0 ==> !IsDbcsSet(cells[f].cs)
    ensures var b0 := PostBegin(PostField(cells, n, formatted), n);
            FieldStart(cells, n, b0, FindField(cells, n, formatted, k), e, Off(b0, k, n))
            && RunOfSet(cells, n, b0, e, g, Off(b0, k, n))
    ensures var r := PostProcess(true, cells, n, formatted).cells;
            (LookLeft(true, r, n, formatted, k).state == Answer(r[k].db)) <==>
              (!BehindAnSi(cells, n, formatted, g, k)
               && !(FindField(cells, n, formatted, k) < 0 && k == n - 1 && g % 2 == 1))
  {
    hide PostAfter, PostStep, FindField, HasField, AttributeStart, RunOfSet, FieldStart, LookLeft, SameStructure;
    var f0 := PostField(cells, n, formatted);
    var b0, count := PostBegin(f0, n), PostCount(f0, n);
    var r := PostAfter(PostInit(cells, n, f0), n, b0, count).cells;
    SameInResult(cells, n, f0, formatted, count, k);
    var f := FindField(cells, n, formatted, k);
    e := FieldStartOf(cells, n, formatted, k);
    var i := Off(b0, k, n);
    assert At(b0, i, n) == k;
    InsideField(cells, n, b0, f, e, i);
    g := RunStart(cells, n, b0, e, i);
    FieldOfPosition(cells, n, formatted, f, e, k);
    RunFacts(cells, n, b0, f, e, g, i);
    MarkInRun(cells, n, f0, b0, e, g, i, count);
    RunInResult(cells, r, n, b0, f, e, g, i);
    LookInRun(r, n, formatted, b0, f, e, g, k);
  }

  // The cell at `k` is the first of a run and stands directly behind an SI that the pass visits.
  predicate BehindAnSi(cells: seq<Cell>, n: nat, formatted: bool, g: nat, k: nat)
    requires k < n <= |cells|
  {
    var b0 := PostBegin(PostField(cells, n, formatted), n);
    0 < g == Off(b0, k, n) && SiAt(cells[Dec(k, n)])
  }

  lemma InsideField(cells: seq<Cell>, n: nat, b0: nat, f: int, e: nat, i: nat)
    requires b0 < n <= |cells| && FieldStart(cells, n, b0, f, e, i)
    ensures -1 <= f < n && e <= i < n
  {
  }

  lemma SameInResult(cells: seq<Cell>, n: nat, f0: int, formatted: bool, count: nat, k: nat)
    requires k < n <= |cells| && n % 2 == 0 && -1 <= f0 < n && count <= n
    requires PostAfter(PostInit(cells, n, f0), n, PostBegin(f0, n), count).ok
    ensures var r := PostAfter(PostInit(cells, n, f0), n, PostBegin(f0, n), count).cells;
            && |r| == |cells| && SameStructure(r, cells, n)
            && FindField(r, n, formatted, k) == FindField(cells, n, formatted, k)
  {
    hide PostAfter, PostStep, FindField, HasField;
    RegularAfter(cells, n, f0, PostBegin(f0, n), count);
    SameAttributes(cells, PostAfter(PostInit(cells, n, f0), n, PostBegin(f0, n), count).cells, n, formatted, k);
  }

  lemma FieldOfPosition(cells: seq<Cell>, n: nat, formatted: bool, f: int, e: nat, k: nat)
    requires k < n <= |cells| && f == FindField(cells, n, formatted, k) && formatted == HasField(cells, n)
    requires f >= 0 ==> !IsDbcsSet(cells[f].cs)
    requires FieldStart(cells, n, PostBegin(PostField(cells, n, formatted), n), f, e,
                        Off(PostBegin(PostField(cells, n, formatted), n), k, n))
    ensures var f0 := PostField(cells, n, formatted);
            var b0 := PostBegin(f0, n);
            && (f < 0 ==> f0 < 0 && e == 0 && b0 == 0)
            && Outside(cells, n, f0, b0, e)
  {
    hide FindBack;
    FindBackComplete(cells, n, 0);
    FindBackComplete(cells, n, k);
  }

  lemma RunFacts(cells: seq<Cell>, n: nat, b0: nat, f: int, e: nat, g: nat, i: nat)
    requires b0 < n <= |cells| && FieldStart(cells, n, b0, f, e, i) && RunOfSet(cells, n, b0, e, g, i)
    ensures forall j :: e <= j < g ==> cells[At(b0, j, n)].fa == 0
  {
  }

  // The run in the cells after the pass.
  lemma RunInResult(cells: seq<Cell>, r: seq<Cell>, n: nat, b0: nat, f: int, e: nat, g: nat, i: nat)
    requires b0 < n <= |cells| == |r| && FieldStart(cells, n, b0, f, e, i) && RunOfSet(cells, n, b0, e, g, i)
    requires SameStructure(r, cells, n)
    requires forall j :: 0 <= j < n && cells[j].fa == 0 && IsDbcsSet(cells[j].cs) ==> cells[j].cs == CS_DBCS
    requires f >= 0 ==> !IsDbcsSet(cells[f].cs)
    ensures FieldStart(r, n, b0, f, e, i) && RunOfSet(r, n, b0, e, g, i)
    ensures forall j :: g <= j <= i ==> r[At(b0, j, n)].cs == CS_DBCS && !IsShift(r[At(b0, j, n)].ec)
    ensures f >= 0 ==> r[f].cs != CS_DBCS
    ensures g > e ==> r[At(b0, g - 1, n)].cs != CS_DBCS || IsShift(r[At(b0, g - 1, n)].ec)
  {
    assert g > e ==> cells[At(b0, g - 1, n)].fa == 0;
  }
}
