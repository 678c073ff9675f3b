/**
 The two computations of the double-byte state in double-byte fields: they agree, except in the field
 in which the pass after a write begins, whose cells it leaves without marks (Common/ctlr.c:2338-2365,
 2450-2598).
 */
module DbcsFields {
  import opened Bytes
  import opened Screen
  import opened DbcsLook
  import opened DbcsPost
  import opened DbcsMarks
  import opened DbcsStable
  import opened DbcsCodes

  // The pass behind a double-byte attribute, or at its beginning inside a double-byte field.
  lemma FieldEntered(cells: seq<Cell>, n: nat, f: int, b0: nat, e: nat)
    requires b0 < n <= |cells| && e < n && n % 2 == 0 && -1 <= f < n && PostAfter(PostInit(cells, n, f), n, b0, e).ok
    requires if e == 0 then f >= 0 && IsDbcsSet(cells[f].cs)
             else cells[At(b0, e - 1, n)].fa != 0 && IsDbcsSet(cells[At(b0, e - 1, n)].cs)
    ensures var p := PostAfter(PostInit(cells, n, f), n, b0, e);
            p.field && p.db == (if e == 0 then -1 else At(b0, e, n)) && !AfterSiAt(p)
  {
    hide PostStep, SameStructure;
    if e > 0 {
      var p0, b := PostInit(cells, n, f), At(b0, e - 1, n);
      OkBefore(p0, n, b0, e - 1, e);
      RegularAfter(cells, n, f, b0, e - 1);
      AfterNext(p0, n, b0, e - 1);
      var p := PostAfter(p0, n, b0, e - 1);
      Passed(p, n, b0, e - 1);
      assert p.cells[b] == cells[b];
      StepField(p, n, b);
    }
  }

  /** In a double-byte field there are neither SO nor SI, and the stretch begins with its first cell; but where the pass
      begins there is none until a cell has the double-byte set of its own. */
  lemma {:induction false} FieldState(cells: seq<Cell>, n: nat, f: int, b0: nat, e: nat, i: nat)
    requires b0 < n <= |cells| && e <= i < n && n % 2 == 0 && -1 <= f < n
    requires PostAfter(PostInit(cells, n, f), n, b0, i).ok
    requires if e == 0 then f >= 0 && IsDbcsSet(cells[f].cs)
             else cells[At(b0, e - 1, n)].fa != 0 && IsDbcsSet(cells[At(b0, e - 1, n)].cs)
    requires forall j :: e <= j < i ==> cells[At(b0, j, n)].fa == 0 && !IsDbcsSet(cells[At(b0, j, n)].cs)
    ensures var p := PostAfter(PostInit(cells, n, f), n, b0, i);
            p.field && p.db == (if e == 0 then -1 else At(b0, e, n)) && !AfterSiAt(p)
    decreases i
  {
    hide PostStep, PostAfter, PostInit, SameStructure;
    var p0 := PostInit(cells, n, f);
    if i == e {
      FieldEntered(cells, n, f, b0, e);
    } else {
      var b := At(b0, i - 1, n);
      OkBefore(p0, n, b0, i - 1, i);
      FieldState(cells, n, f, b0, e, i - 1);
      RegularAfter(cells, n, f, b0, i - 1);
      AfterNext(p0, n, b0, i - 1);
      var p := PostAfter(p0, n, b0, i - 1);
      Passed(p, n, b0, i - 1);
      assert p.cells[b] == cells[b];
      if cells[b].ec == EBC_SO {
        StepSo(p, n, b);
      } else if cells[b].ec == EBC_SI {
        StepSi(p, n, b);
      } else {
        StepOrdinary(p, n, b);
      }
    }
  }

  // The mark that such a cell gets, and keeps but for a left half that a field cuts off.
  lemma MarkInField(cells: seq<Cell>, n: nat, f: int, b0: nat, e: nat, i: nat, count: nat)
    requires b0 < n <= |cells| && e <= i < count <= n && n % 2 == 0 && -1 <= f < n
    requires PostAfter(PostInit(cells, n, f), n, b0, count).ok && Ordinary(cells[At(b0, i, n)])
    requires if e == 0 then f >= 0 && IsDbcsSet(cells[f].cs)
             else cells[At(b0, e - 1, n)].fa != 0 && IsDbcsSet(cells[At(b0, e - 1, n)].cs)
    requires forall j :: e <= j <= i ==> cells[At(b0, j, n)].fa == 0 && !IsDbcsSet(cells[At(b0, j, n)].cs)
    ensures Answer(PostAfter(PostInit(cells, n, f), n, b0, count).cells[At(b0, i, n)].db)
            == if e == 0 then DbNone else if (i - e) % 2 == 0 then DbLeft else DbRight
  {
    hide PostStep, PostAfter, PostInit, SameStructure;
    var p0, b := PostInit(cells, n, f), At(b0, i, n);
    OkBefore(p0, n, b0, i, count);
    OkBefore(p0, n, b0, i + 1, count);
    FieldState(cells, n, f, b0, e, i);
    RegularAfter(cells, n, f, b0, i);
    AfterNext(p0, n, b0, i);
    var p := PostAfter(p0, n, b0, i);
    Passed(p, n, b0, i);
    assert p.cells[b] == cells[b];
    StepOrdinary(p, n, b);
    if e > 0 {
      HalfParity(b0, e, i, n);
    }
    MarkKept(cells, n, f, b0, i, count);
  }

  lemma MarkKept(cells: seq<Cell>, n: nat, f: int, b0: nat, i: nat, count: nat)
    requires b0 < n <= |cells| && i < count <= n && n % 2 == 0 && -1 <= f < n
    requires PostAfter(PostInit(cells, n, f), n, b0, count).ok && Ordinary(cells[At(b0, i, n)])
    ensures var p0, b := PostInit(cells, n, f), At(b0, i, n);
            Answer(PostAfter(p0, n, b0, count).cells[b].db) == Answer(PostAfter(p0, n, b0, i + 1).cells[b].db)
  {
    hide PostStep, PostAfter, PostInit, SameStructure, IsRight;
    var p0 := PostInit(cells, n, f);
    SettledAfter(p0, n, b0, i, count);
    if i + 1 < count {
      var b1 := At(b0, i + 1, n);
      OkBefore(p0, n, b0, i + 1, count);
      OkBefore(p0, n, b0, i + 2, count);
      RegularAfter(cells, n, f, b0, i + 1);
      AfterNext(p0, n, b0, i + 1);
      var p := PostAfter(p0, n, b0, i + 1);
      Passed(p, n, b0, i + 1);
      assert p.cells[b1] == cells[b1];
      if cells[b1].fa != 0 {
        StepField(p, n, b1);
      } else if cells[b1].ec == EBC_SO {
        StepSo(p, n, b1);
      } else if cells[b1].ec == EBC_SI {
        StepSi(p, n, b1);
      } else {
        StepOrdinary(p, n, b1);
      }
    }
  }

  /** On an even-sized screen, in a double-byte field whose cells have no character set of their own, after a pass
      without errors the marks agree with the left-looking scan if and only if the field is not the one in which the
      pass begins, the field of location 0.  There the scan tells left and right halves apart, and the
      cells bear no marks. */
  lemma MarksInField(cells: seq<Cell>, n: nat, formatted: bool, k: nat)
    requires k < n <= |cells| && n % 2 == 0 && formatted == HasField(cells, n) && Ordinary(cells[k])
    requires PostProcess(true, cells, n, formatted).ok
    requires var f := FindField(cells, n, formatted, k);
             && f >= 0 && cells[f].cs == CS_DBCS
             && forall j :: 0 <= j < n && 0 < Off(f, j, n) <= Off(f, k, n) ==> !IsDbcsSet(cells[j].cs)
    ensures var r, f := PostProcess(true, cells, n, formatted).cells, FindField(cells, n, formatted, k);
            && (f != PostField(cells, n, formatted) ==>
                  LookLeft(true, r, n, formatted, k).state == Answer(r[k].db))
            && (f == PostField(cells, n, formatted) ==>
                  LookLeft(true, r, n, formatted, k).state != DbNone == Answer(r[k].db))
  {
    hide PostAfter, PostStep, FindField, HasField;
    var f0 := PostField(cells, n, formatted);
    var b0, count := PostBegin(f0, n), PostCount(f0, n);
    var p := PostAfter(PostInit(cells, n, f0), n, b0, count);
    RegularAfter(cells, n, f0, b0, count);
    SameAttributes(cells, p.cells, n, formatted, k);
    var f := FindField(cells, n, formatted, k);
    var e := FieldStartOf(cells, n, formatted, k);
    var i := Off(b0, k, n);
    SomeField(cells, n, formatted, k);
    StartOfField(cells, n, f0, f, e, k);
    MarkInField(cells, n, f0, b0, e, i, count);
    HalfInField(n, b0, f, e, i);
  }

  lemma SomeField(cells: seq<Cell>, n: nat, formatted: bool, k: nat)
    requires k < n <= |cells| && FindField(cells, n, formatted, k) >= 0
    ensures PostField(cells, n, formatted) >= 0
  {
    hide FindBack;
    FindBackComplete(cells, n, 0);
    FindBackComplete(cells, n, k);
  }

  // The positions of the field in the pass.
  lemma StartOfField(cells: seq<Cell>, n: nat, f0: int, f: nat, e: nat, k: nat)
    requires k < n <= |cells| && -1 <= f0 < n && f < n && cells[f].fa != 0 && cells[k].fa == 0 && IsDbcsSet(cells[f].cs)
    requires var b0 := PostBegin(f0, n); FieldStart(cells, n, b0, f, e, Off(b0, k, n))
    requires forall j :: 0 <= j < n && 0 < Off(f, j, n) <= Off(f, k, n) ==> !IsDbcsSet(cells[j].cs)
    requires f0 >= 0
    ensures var b0 := PostBegin(f0, n);
            && f == Dec(At(b0, e, n), n) && (e == 0 <==> f == f0) && (e > 0 ==> At(b0, e - 1, n) == f)
            && forall j :: e <= j <= Off(b0, k, n) ==>
                 cells[At(b0, j, n)].fa == 0 && !IsDbcsSet(cells[At(b0, j, n)].cs)
  {
    var b0 := PostBegin(f0, n);
    var i := Off(b0, k, n);
    forall j | e <= j <= i ensures cells[At(b0, j, n)].fa == 0 && !IsDbcsSet(cells[At(b0, j, n)].cs) {
      var x := At(b0, j, n);
      assert Off(f, x, n) == j - e + 1;
    }
  }

  lemma HalfInField(n: nat, b0: nat, f: nat, e: nat, i: nat)
    requires b0 < n && f < n && e <= i < n && n % 2 == 0 && f == Dec(At(b0, e, n), n)
    ensures Half(At(b0, i, n) + n - f) == if (i - e) % 2 == 0 then DbLeft else DbRight
  {
    HalfParity(b0, e, i, n);
    var x: int, h: int := At(b0, e, n), n / 2;
    assert n == 2 * h;
    assert f == x - 1 || f == x - 1 + 2 * h;
  }
}
