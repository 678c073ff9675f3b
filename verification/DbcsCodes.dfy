/**
 What the pass after a write does to the characters of the screen: pairs of halves that are no valid
 character become blanks, left halves cut off by a field become nulls, and nothing else changes
 (Common/ctlr.c:2444-2598).
 */
module DbcsCodes {
  import opened Bytes
  import opened Screen
  import opened DbcsLook
  import opened DbcsPost
  import opened DbcsMarks
  import opened DbcsStable

  // In front of a right half stands an ordinary cell whose code is still the one written.
  lemma FrontOfRight(cells: seq<Cell>, n: nat, f: int, b0: nat, i: nat)
    requires b0 < n <= |cells| && i < n && n % 2 == 0 && -1 <= f < n
    requires PostAfter(PostInit(cells, n, f), n, b0, i).ok
    requires IsRight(PostAfter(PostInit(cells, n, f), n, b0, i), n, At(b0, i, n))
    ensures i > 0 && Ordinary(cells[At(b0, i - 1, n)])
    ensures PostAfter(PostInit(cells, n, f), n, b0, i).cells[At(b0, i - 1, n)].ec == cells[At(b0, i - 1, n)].ec
  {
    hide PostStep, PostAfter, PostInit, SameStructure, IsRight;
    var p0 := PostInit(cells, n, f);
    RegularAfter(cells, n, f, b0, i);
    RightInStretch(cells, PostAfter(p0, n, b0, i), n, b0, i);
    OkBefore(p0, n, b0, i - 1, i);
    RegularAfter(cells, n, f, b0, i - 1);
    AfterNext(p0, n, b0, i - 1);
    var p, b := PostAfter(p0, n, b0, i - 1), At(b0, i - 1, n);
    Passed(p, n, b0, i - 1);
    assert p.cells[b] == cells[b];
    StepOrdinary(p, n, b);
    if IsRight(p, n, b) {
      RightInStretch(cells, p, n, b0, i - 1);
      assert false;
    }
  }

  // The code of an ordinary cell when the pass has just visited it.
  lemma CodeVisited(cells: seq<Cell>, n: nat, f: int, b0: nat, i: nat)
    requires b0 < n <= |cells| && i < n && n % 2 == 0 && -1 <= f < n && Ordinary(cells[At(b0, i, n)])
    requires PostAfter(PostInit(cells, n, f), n, b0, i).ok && PostAfter(PostInit(cells, n, f), n, b0, i + 1).ok
    ensures var p, r, b := PostAfter(PostInit(cells, n, f), n, b0, i), PostAfter(PostInit(cells, n, f), n, b0, i + 1),
                           At(b0, i, n);
            && (IsRight(p, n, b) ==> i > 0)
            && r.cells[b].ec == (if IsRight(p, n, b) && !ValidDbcsChar(cells[At(b0, i - 1, n)].ec, cells[b].ec)
                                 then EBC_SPACE else cells[b].ec)
            && r.cells[b].db != DbDead
  {
    hide PostStep, PostAfter, PostInit, SameStructure, IsRight, ValidDbcsChar;
    var p0, b := PostInit(cells, n, f), At(b0, i, n);
    RegularAfter(cells, n, f, b0, i);
    AfterNext(p0, n, b0, i);
    var p := PostAfter(p0, n, b0, i);
    Passed(p, n, b0, i);
    assert p.cells[b] == cells[b];
    StepOrdinary(p, n, b);
    if IsRight(p, n, b) {
      FrontOfRight(cells, n, f, b0, i);
    }
  }

  // What the next step makes of it.
  lemma CodeBehind(cells: seq<Cell>, n: nat, f: int, b0: nat, i: nat)
    requires b0 < n <= |cells| && i + 1 < n && n % 2 == 0 && -1 <= f < n && Ordinary(cells[At(b0, i, n)])
    requires PostAfter(PostInit(cells, n, f), n, b0, i + 1).ok && PostAfter(PostInit(cells, n, f), n, b0, i + 2).ok
    ensures var p, r, b, b1 := PostAfter(PostInit(cells, n, f), n, b0, i + 1),
                               PostAfter(PostInit(cells, n, f), n, b0, i + 2), At(b0, i, n), At(b0, i + 1, n);
            && (r.cells[b].db == DbDead ==> r.cells[b].ec == EBC_NULL || p.cells[b].db == DbDead)
            && (r.cells[b].db != DbDead ==>
                  r.cells[b].ec == if Ordinary(cells[b1]) && IsRight(p, n, b1)
                                      && !ValidDbcsChar(cells[b].ec, cells[b1].ec)
                                   then EBC_SPACE else p.cells[b].ec)
  {
    hide PostStep, PostAfter, PostInit, SameStructure, IsRight, ValidDbcsChar;
    var p0, b1 := PostInit(cells, n, f), At(b0, i + 1, n);
    RegularAfter(cells, n, f, b0, i + 1);
    AfterNext(p0, n, b0, i + 1);
    var p := PostAfter(p0, n, b0, i + 1);
    Passed(p, n, b0, i + 1);
    assert p.cells[b1] == cells[b1];
    if cells[b1].fa != 0 {
      StepField(p, n, b1);
    } else if cells[b1].ec == EBC_SO {
      StepSo(p, n, b1);
    } else if cells[b1].ec == EBC_SI {
      StepSi(p, n, b1);
    } else {
      StepOrdinary(p, n, b1);
      if IsRight(p, n, b1) {
        FrontOfRight(cells, n, f, b0, i + 1);
      }
    }
  }

  // Right halves are those that were visited as such.
  lemma RightMeans(cells: seq<Cell>, n: nat, f: int, b0: nat, i: nat, count: nat)
    requires b0 < n <= |cells| && i < count <= n && n % 2 == 0 && -1 <= f < n
    requires PostAfter(PostInit(cells, n, f), n, b0, count).ok
    ensures PostAfter(PostInit(cells, n, f), n, b0, count).cells[At(b0, i, n)].db == DbRight
            <==> Ordinary(cells[At(b0, i, n)]) && IsRight(PostAfter(PostInit(cells, n, f), n, b0, i), n, At(b0, i, n))
  {
    hide PostStep, PostAfter, PostInit, SameStructure, Stretch;
    var p0, b := PostInit(cells, n, f), At(b0, i, n);
    OkBefore(p0, n, b0, i, count);
    OkBefore(p0, n, b0, i + 1, count);
    if PostAfter(p0, n, b0, count).cells[b].db == DbRight {
      RightSince(cells, n, f, b0, i, count);
      RightWasMarked(cells, p0, n, f, b0, i);
    }
    if Ordinary(cells[b]) && IsRight(PostAfter(p0, n, b0, i), n, b) {
      RegularAfter(cells, n, f, b0, i);
      AfterNext(p0, n, b0, i);
      var p := PostAfter(p0, n, b0, i);
      Passed(p, n, b0, i);
      StepOrdinary(p, n, b);
      NoRightBehindSi(cells, n, f, b0, i);
      RightStays(cells, n, f, b0, i, count);
    }
  }

  // The cell directly behind an SI is no right half.
  lemma NoRightBehindSi(cells: seq<Cell>, n: nat, f: int, b0: nat, i: nat)
    requires b0 < n <= |cells| && i < n && n % 2 == 0 && -1 <= f < n
    requires PostAfter(PostInit(cells, n, f), n, b0, i).ok
    requires IsRight(PostAfter(PostInit(cells, n, f), n, b0, i), n, At(b0, i, n))
    ensures !AfterSiAt(PostAfter(PostInit(cells, n, f), n, b0, i))
  {
    hide PostStep, PostAfter, PostInit, SameStructure, IsRight;
    FrontOfRight(cells, n, f, b0, i);
    RegularAfter(cells, n, f, b0, i);
    var p := PostAfter(PostInit(cells, n, f), n, b0, i);
    if AfterSiAt(p) {
      MarkedSi(cells, p, n, b0, i);
      assert false;
    }
  }

  // The last code of an ordinary cell that was visited.
  lemma CodeLast(cells: seq<Cell>, n: nat, f: int, b0: nat, i: nat, count: nat)
    requires b0 < n <= |cells| && i < count <= n && n % 2 == 0 && -1 <= f < n && Ordinary(cells[At(b0, i, n)])
    requires PostAfter(PostInit(cells, n, f), n, b0, count).ok
    ensures var last, b, b1 := PostAfter(PostInit(cells, n, f), n, b0, count).cells, At(b0, i, n), At(b0, i + 1, n);
            && (last[b].db == DbRight ==> i > 0)
            && last[b].ec ==
               if last[b].db == DbDead then EBC_NULL
               else if last[b].db == DbRight then
                 if ValidDbcsChar(cells[At(b0, i - 1, n)].ec, cells[b].ec) then cells[b].ec else EBC_SPACE
               else if i + 1 < count && last[b1].db == DbRight then
                 if ValidDbcsChar(cells[b].ec, cells[b1].ec) then cells[b].ec else EBC_SPACE
               else cells[b].ec
  {
    hide PostStep, PostAfter, PostInit, IsRight, ValidDbcsChar, Ordinary;
    var p0 := PostInit(cells, n, f);
    OkBefore(p0, n, b0, i, count);
    OkBefore(p0, n, b0, i + 1, count);
    CodeVisited(cells, n, f, b0, i);
    RightMeans(cells, n, f, b0, i, count);
    SettledAfter(p0, n, b0, i, count);
    if i + 1 < count {
      OkBefore(p0, n, b0, i + 2, count);
      CodeBehind(cells, n, f, b0, i);
      RightMeans(cells, n, f, b0, i + 1, count);
      if PostAfter(p0, n, b0, count).cells[At(b0, i, n)].db == DbRight
         && PostAfter(p0, n, b0, count).cells[At(b0, i + 1, n)].db == DbRight {
        NotBothRight(cells, n, f, b0, i);
      }
    }
  }

  lemma NotBothRight(cells: seq<Cell>, n: nat, f: int, b0: nat, i: nat)
    requires b0 < n <= |cells| && i + 1 < n && n % 2 == 0 && -1 <= f < n && Ordinary(cells[At(b0, i, n)])
    requires PostAfter(PostInit(cells, n, f), n, b0, i + 1).ok
    requires IsRight(PostAfter(PostInit(cells, n, f), n, b0, i), n, At(b0, i, n))
    ensures !IsRight(PostAfter(PostInit(cells, n, f), n, b0, i + 1), n, At(b0, i + 1, n))
  {
    hide PostStep, PostAfter, PostInit, SameStructure, IsRight;
    var p0 := PostInit(cells, n, f);
    OkBefore(p0, n, b0, i, i + 1);
    RegularAfter(cells, n, f, b0, i);
    RegularAfter(cells, n, f, b0, i + 1);
    AfterNext(p0, n, b0, i);
    var p, r := PostAfter(p0, n, b0, i), PostAfter(p0, n, b0, i + 1);
    Passed(p, n, b0, i);
    StepOrdinary(p, n, At(b0, i, n));
    RightInStretch(cells, p, n, b0, i);
    if IsRight(r, n, At(b0, i + 1, n)) {
      RightInStretch(cells, r, n, b0, i + 1);
      assert false;
    }
  }

  /** On an even-sized screen a pass without errors changes the code of a character in two cases only: the halves of a
      pair that is no valid character become blanks, and a left half cut off by a field becomes a null. */
  lemma CodesAfterPass(cells: seq<Cell>, n: nat, formatted: bool, k: nat)
    requires k < n <= |cells| && n % 2 == 0 && Ordinary(cells[k]) && PostProcess(true, cells, n, formatted).ok
    ensures var r, f := PostProcess(true, cells, n, formatted).cells, PostField(cells, n, formatted);
            r[k].ec ==
              if r[k].db == DbDead then 0
              else if r[k].db == DbRight then
                if ValidDbcsChar(cells[Dec(k, n)].ec, cells[k].ec) then cells[k].ec else 0x40
              else if Inc(k, n) != f && r[Inc(k, n)].db == DbRight then
                if ValidDbcsChar(cells[k].ec, cells[Inc(k, n)].ec) then cells[k].ec else 0x40
              else cells[k].ec
  {
    hide PostAfter, PostInit, PostField, ValidDbcsChar, FindField;
    var f := PostField(cells, n, formatted);
    var b0, count := PostBegin(f, n), PostCount(f, n);
    VisitsAllBut(n, f, k);
    var i := Off(b0, k, n);
    CodeLast(cells, n, f, b0, i, count);
    if i + 1 < count {
      assert At(b0, i + 1, n) == Inc(k, n);
    } else if f < 0 {
      assert Inc(k, n) == b0;
      FirstNotRight(cells, n, f, b0, count);
    }
    if i > 0 {
      assert At(b0, i - 1, n) == Dec(k, n);
    }
  }
}
