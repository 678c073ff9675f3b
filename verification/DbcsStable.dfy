/**
 An error-free pass over the double-byte marks is stable: passing again changes nothing, and right
 halves complete valid characters.  No assumption is made on how double-byte data is introduced.
 */
module DbcsStable {
  import opened Bytes
  import opened Screen
  import opened DbcsLook
  import opened DbcsPost
  import opened DbcsMarks

  // Attributes, character sets and shift codes are where they were.
  ghost predicate SameStructure(c1: seq<Cell>, c2: seq<Cell>, n: nat)
    requires n <= |c1| == |c2|
  {
    SameShifts(c1, c2, n) && forall k :: 0 <= k < n ==> c1[k].cs == c2[k].cs
  }

  /** The state of an error-free pass after `i` positions: the current stretch is made of ordinary
      cells, and the marks say what kind of cell bears them. */
  ghost predicate Regular(cells: seq<Cell>, p: Post, n: nat, b0: nat, i: nat)
    requires b0 < n <= |cells| && i <= n
  {
    && |p.cells| == |cells| && PostReady(p, n) && p.ok
    && p.pb == (if i == 0 then -1 else At(b0, i - 1, n))
    && SameStructure(p.cells, cells, n)
    && (forall j :: i <= j < n ==> p.cells[At(b0, j, n)] == cells[At(b0, j, n)])
    && (p.db >= 0 && i < n ==>
          Off(b0, p.db, n) <= i && forall j :: Off(b0, p.db, n) <= j < i ==> Ordinary(cells[At(b0, j, n)]))
    && (forall j :: 0 <= j < i && p.cells[At(b0, j, n)].db == DbLeft ==> Ordinary(cells[At(b0, j, n)]))
    && (forall j :: 0 <= j < i && p.cells[At(b0, j, n)].db == DbSi ==>
          cells[At(b0, j, n)].fa == 0 && cells[At(b0, j, n)].ec == EBC_SI)
  }

  lemma RightInStretch(cells: seq<Cell>, p: Post, n: nat, b0: nat, i: nat)
    requires b0 < n <= |cells| && i < n && n % 2 == 0 && Regular(cells, p, n, b0, i)
    requires IsRight(p, n, At(b0, i, n))
    ensures i > 0 && p.db >= 0 && Stretch(p, At(b0, i, n)) == p.db
    ensures Off(b0, p.db, n) <= i - 1 && (i - Off(b0, p.db, n)) % 2 == 1
    ensures Ordinary(cells[At(b0, i - 1, n)])
  {
    hide SameStructure;
    var b := At(b0, i, n);
    assert b + n - b == n;
    HalfParity(b0, Off(b0, p.db, n), i, n);
  }

  lemma RegularField(cells: seq<Cell>, p: Post, n: nat, b0: nat, i: nat)
    requires b0 < n <= |cells| && i < n && n % 2 == 0 && Regular(cells, p, n, b0, i)
    requires cells[At(b0, i, n)].fa != 0
    ensures Regular(cells, PostStep(p, n, At(b0, i, n)), n, b0, i + 1)
  {
    hide PostStep;
    var b := At(b0, i, n);
    Passed(p, n, b0, i);
    StepLocal(p, n, b);
    StepField(p, n, b);
    forall j | i + 1 <= j < n ensures At(b0, j, n) != b && At(b0, j, n) != p.pb {
    }
  }

  lemma RegularShift(cells: seq<Cell>, p: Post, n: nat, b0: nat, i: nat)
    requires b0 < n <= |cells| && i < n && n % 2 == 0 && Regular(cells, p, n, b0, i)
    requires cells[At(b0, i, n)].fa == 0 && IsShift(cells[At(b0, i, n)].ec)
    requires PostStep(p, n, At(b0, i, n)).ok
    ensures Regular(cells, PostStep(p, n, At(b0, i, n)), n, b0, i + 1)
  {
    hide PostStep;
    var b := At(b0, i, n);
    Passed(p, n, b0, i);
    StepLocal(p, n, b);
    if cells[b].ec == EBC_SO {
      StepSo(p, n, b);
    } else {
      StepSi(p, n, b);
    }
    forall j | i + 1 <= j < n ensures At(b0, j, n) != b && At(b0, j, n) != p.pb {
    }
  }

  lemma StructureOrdinary(cells: seq<Cell>, p: Post, n: nat, b0: nat, i: nat)
    requires b0 < n <= |cells| && i < n && n % 2 == 0 && Regular(cells, p, n, b0, i)
    requires Ordinary(cells[At(b0, i, n)]) && PostStep(p, n, At(b0, i, n)).ok
    ensures SameStructure(PostStep(p, n, At(b0, i, n)).cells, cells, n)
  {
    hide PostStep, IsRight, Stretch, OrdinaryMark;
    var b := At(b0, i, n);
    Passed(p, n, b0, i);
    StepLocal(p, n, b);
    StepOrdinary(p, n, b);
    if IsRight(p, n, b) {
      RightInStretch(cells, p, n, b0, i);
    }
  }

  lemma RegularOrdinary(cells: seq<Cell>, p: Post, n: nat, b0: nat, i: nat)
    requires b0 < n <= |cells| && i < n && n % 2 == 0 && Regular(cells, p, n, b0, i)
    requires Ordinary(cells[At(b0, i, n)]) && PostStep(p, n, At(b0, i, n)).ok
    ensures Regular(cells, PostStep(p, n, At(b0, i, n)), n, b0, i + 1)
  {
    hide PostStep, IsRight, SameStructure, Spoiled;
    var b := At(b0, i, n);
    StructureOrdinary(cells, p, n, b0, i);
    SameOrdinary(cells, p.cells, n, b);
    Passed(p, n, b0, i);
    StepLocal(p, n, b);
    StepOrdinary(p, n, b);
    LaterPositions(p, n, b0, i);
  }

  lemma SameOrdinary(c1: seq<Cell>, c2: seq<Cell>, n: nat, b: nat)
    requires b < n <= |c1| == |c2| && SameStructure(c2, c1, n)
    ensures Ordinary(c1[b]) <==> Ordinary(c2[b])
  {
  }

  lemma LaterPositions(p: Post, n: nat, b0: nat, i: nat)
    requires b0 < n && i < n && p.pb == (if i == 0 then -1 else At(b0, i - 1, n))
    ensures forall j :: i + 1 <= j < n ==> At(b0, j, n) != At(b0, i, n) && At(b0, j, n) != p.pb
  {
  }

  lemma RegularInit(cells: seq<Cell>, n: nat, f: int, b0: nat)
    requires b0 < n <= |cells| && -1 <= f < n
    ensures Regular(cells, PostInit(cells, n, f), n, b0, 0)
  {
  }

  lemma {:induction false} RegularAfter(cells: seq<Cell>, n: nat, f: int, b0: nat, i: nat)
    requires b0 < n <= |cells| && i <= n && n % 2 == 0 && -1 <= f < n
    requires PostAfter(PostInit(cells, n, f), n, b0, i).ok
    ensures Regular(cells, PostAfter(PostInit(cells, n, f), n, b0, i), n, b0, i)
    decreases i
  {
    hide PostStep, Regular;
    var p0 := PostInit(cells, n, f);
    if i == 0 {
      RegularInit(cells, n, f, b0);
    } else {
      var p := PostAfter(p0, n, b0, i - 1);
      StepOk(p, n, At(b0, i - 1, n));
      RegularAfter(cells, n, f, b0, i - 1);
      var c := cells[At(b0, i - 1, n)];
      if c.fa != 0 {
        RegularField(cells, p, n, b0, i - 1);
      } else if IsShift(c.ec) {
        RegularShift(cells, p, n, b0, i - 1);
      } else {
        RegularOrdinary(cells, p, n, b0, i - 1);
      }
    }
  }

  // --- What later steps leave alone ---------------------------------------------------------------

  // A position is not touched again once the next one has been passed.
  lemma {:induction false} Settled(p: Post, n: nat, b0: nat, j: nat, k: nat)
    requires PostReady(p, n) && b0 < n && j + 2 <= k <= n
    ensures PostAfter(p, n, b0, k).cells[At(b0, j, n)] == PostAfter(p, n, b0, j + 2).cells[At(b0, j, n)]
    decreases k
  {
    hide PostStep;
    if k > j + 2 {
      Settled(p, n, b0, j, k - 1);
      StepLocal(PostAfter(p, n, b0, k - 1), n, At(b0, k - 1, n));
    }
  }

  // The final content of position `i`, which the step after it may have changed.
  lemma SettledAfter(p: Post, n: nat, b0: nat, i: nat, count: nat)
    requires PostReady(p, n) && b0 < n && i < count <= n
    ensures var last := PostAfter(p, n, b0, count).cells[At(b0, i, n)];
            last == PostAfter(p, n, b0, if i + 1 == count then i + 1 else i + 2).cells[At(b0, i, n)]
  {
    hide PostStep;
    if i + 1 < count {
      Settled(p, n, b0, i, count);
    }
  }

  // A right half is not changed by the step after it.
  lemma RightKept(cells: seq<Cell>, p: Post, n: nat, b0: nat, i: nat)
    requires b0 < n <= |cells| && i + 1 < n && n % 2 == 0 && Regular(cells, p, n, b0, i)
    requires Ordinary(cells[At(b0, i, n)]) && IsRight(p, n, At(b0, i, n))
    requires PostStep(p, n, At(b0, i, n)).ok
    requires PostStep(PostStep(p, n, At(b0, i, n)), n, At(b0, i + 1, n)).ok
    ensures var r := PostStep(p, n, At(b0, i, n));
            PostStep(r, n, At(b0, i + 1, n)).cells[At(b0, i, n)] == r.cells[At(b0, i, n)]
  {
    hide PostStep;
    var b, b1 := At(b0, i, n), At(b0, i + 1, n);
    var r := PostStep(p, n, b);
    RegularOrdinary(cells, p, n, b0, i);
    RightInStretch(cells, p, n, b0, i);
    StepOrdinary(p, n, b);
    if r.cells[b1].fa != 0 {
      StepField(r, n, b1);
    } else if r.cells[b1].ec == EBC_SO {
      StepSo(r, n, b1);
    } else if r.cells[b1].ec == EBC_SI {
      StepSi(r, n, b1);
    } else {
      StepOrdinary(r, n, b1);
      if IsRight(r, n, b1) {
        RightInStretch(cells, r, n, b0, i + 1);
        assert false;
      }
    }
  }

  // --- A second pass ------------------------------------------------------------------------------

  /** The second pass over the final cells `last` has the flags of the first one, and has stored its
      marks at the positions passed. */
  ghost predicate Shadows(last: seq<Cell>, p: Post, q: Post, n: nat, b0: nat, i: nat)
    requires b0 < n <= |last| && i <= n
  {
    && |p.cells| == |last| && PostReady(q, n)
    && q == p.(cells := q.cells) && |q.cells| == |last|
    && (forall j :: n <= j < |last| ==> q.cells[j] == last[j])
    && (forall j :: 0 <= j < i ==>
          q.cells[At(b0, j, n)] == last[At(b0, j, n)].(db := p.cells[At(b0, j, n)].db))
    && (forall j :: i <= j < n ==> q.cells[At(b0, j, n)] == last[At(b0, j, n)])
  }

  /** What the final cells keep of the step at position `i`, from `p` to `r`: the structure, the
      content of the position in front, and a valid character where one is completed. */
  ghost predicate Kept(last: seq<Cell>, p: Post, r: Post, n: nat, b0: nat, i: nat)
    requires b0 < n <= |last| == |p.cells| == |r.cells| && i < n
  {
    var b := At(b0, i, n);
    && SameStructure(last, p.cells, n)
    && (i > 0 ==> last[At(b0, i - 1, n)] == r.cells[At(b0, i - 1, n)])
    && (i > 0 && Ordinary(p.cells[b]) && IsRight(p, n, b) ==>
          ValidDbcsChar(last[At(b0, i - 1, n)].ec, last[b].ec))
  }

  // Conversely to StepSo, StepSi and StepOrdinary: when a step is accepted.
  lemma StepAccepted(p: Post, n: nat, b: nat)
    requires PostReady(p, n) && b < n && p.pb != b && p.cells[b].fa == 0
    ensures PostStep(p, n, b).ok <==>
            && p.ok
            && (p.cells[b].ec == EBC_SO ==> !p.so && !p.field)
            && (p.cells[b].ec == EBC_SI ==> !p.si && !p.field)
            && (Ordinary(p.cells[b]) && p.so ==> p.cells[b].cs == CS_BASE)
            && (p.pb >= 0 && p.cells[p.pb].db == DbLeft && !AfterSiAt(p) ==>
                  Ordinary(p.cells[b]) && IsRight(p, n, b))
  {
  }

  lemma ShadowField(cells: seq<Cell>, last: seq<Cell>, p: Post, q: Post, n: nat, b0: nat, i: nat)
    requires b0 < n <= |cells| == |last| && i < n && n % 2 == 0
    requires Regular(cells, p, n, b0, i) && Shadows(last, p, q, n, b0, i)
    requires cells[At(b0, i, n)].fa != 0
    requires Kept(last, p, PostStep(p, n, At(b0, i, n)), n, b0, i)
    ensures Shadows(last, PostStep(p, n, At(b0, i, n)), PostStep(q, n, At(b0, i, n)), n, b0, i + 1)
  {
    hide PostStep;
    var b := At(b0, i, n);
    Passed(p, n, b0, i);
    StepLocal(p, n, b);
    StepLocal(q, n, b);
    StepField(p, n, b);
    StepField(q, n, b);
    forall j | i + 1 <= j < n ensures At(b0, j, n) != b && At(b0, j, n) != p.pb {
    }
  }

  lemma ShadowOther(cells: seq<Cell>, last: seq<Cell>, p: Post, q: Post, n: nat, b0: nat, i: nat)
    requires b0 < n <= |cells| == |last| && i < n && n % 2 == 0
    requires Regular(cells, p, n, b0, i) && Shadows(last, p, q, n, b0, i)
    requires cells[At(b0, i, n)].fa == 0 && PostStep(p, n, At(b0, i, n)).ok
    requires Kept(last, p, PostStep(p, n, At(b0, i, n)), n, b0, i)
    ensures Shadows(last, PostStep(p, n, At(b0, i, n)), PostStep(q, n, At(b0, i, n)), n, b0, i + 1)
  {
    hide PostStep, IsRight, OrdinaryMark;
    var b := At(b0, i, n);
    Passed(p, n, b0, i);
    SameStep(last, p, q, n, b0, i);
    StepLocal(p, n, b);
    StepLocal(q, n, b);
    StepAccepted(p, n, b);
    StepAccepted(q, n, b);
    if p.cells[b].ec == EBC_SO {
      StepSo(p, n, b);
      StepSo(q, n, b);
    } else if p.cells[b].ec == EBC_SI {
      StepSi(p, n, b);
      StepSi(q, n, b);
    } else {
      StepOrdinary(p, n, b);
      StepOrdinary(q, n, b);
    }
    forall j | i + 1 <= j < n ensures At(b0, j, n) != b && At(b0, j, n) != p.pb {
    }
  }

  // Both passes take the same decisions at position `i`.
  lemma SameStep(last: seq<Cell>, p: Post, q: Post, n: nat, b0: nat, i: nat)
    requires b0 < n <= |last| && i < n && Shadows(last, p, q, n, b0, i)
    requires PostReady(p, n) && p.pb == (if i == 0 then -1 else At(b0, i - 1, n))
    requires SameStructure(last, p.cells, n)
    ensures var b := At(b0, i, n);
            && q.cells[b] == last[b] && q.cells[b].fa == p.cells[b].fa && q.cells[b].cs == p.cells[b].cs
            && (p.cells[b].fa == 0 ==>
                  && (q.cells[b].ec == EBC_SO <==> p.cells[b].ec == EBC_SO)
                  && (q.cells[b].ec == EBC_SI <==> p.cells[b].ec == EBC_SI))
            && Stretch(q, b) == Stretch(p, b) && IsRight(q, n, b) == IsRight(p, n, b)
            && AfterSiAt(q) == AfterSiAt(p) && OrdinaryMark(q, n, b) == OrdinaryMark(p, n, b)
            && (i > 0 ==> q.cells[q.pb] == last[q.pb].(db := p.cells[p.pb].db))
  {
  }

  lemma SameAsBoth(c1: seq<Cell>, c2: seq<Cell>, cells: seq<Cell>, n: nat)
    requires n <= |c1| == |c2| == |cells| && SameStructure(c1, cells, n) && SameStructure(c2, cells, n)
    ensures SameStructure(c1, c2, n)
  {
  }

  lemma KeptStep(cells: seq<Cell>, n: nat, f: int, b0: nat, i: nat, count: nat)
    requires b0 < n <= |cells| && i < count <= n && n % 2 == 0 && -1 <= f < n
    requires PostAfter(PostInit(cells, n, f), n, b0, count).ok
    ensures var p0 := PostInit(cells, n, f);
            Kept(PostAfter(p0, n, b0, count).cells, PostAfter(p0, n, b0, i),
                 PostAfter(p0, n, b0, i + 1), n, b0, i)
  {
    hide PostStep, PostAfter, Stretch, IsRight, PostInit, SameStructure;
    var p0 := PostInit(cells, n, f);
    AfterNext(p0, n, b0, i);
    var p, r := PostAfter(p0, n, b0, i), PostAfter(p0, n, b0, i + 1);
    var last := PostAfter(p0, n, b0, count).cells;
    var b := At(b0, i, n);
    OkBefore(p0, n, b0, i, count);
    OkBefore(p0, n, b0, i + 1, count);
    RegularAfter(cells, n, f, b0, i);
    RegularAfter(cells, n, f, b0, count);
    SameAsBoth(last, p.cells, cells, n);
    if i > 0 {
      SettledAfter(p0, n, b0, i - 1, count);
    }
    Passed(p, n, b0, i);
    if Ordinary(p.cells[b]) && IsRight(p, n, b) {
      StepOrdinary(p, n, b);
      RightInStretch(cells, p, n, b0, i);
      SettledAfter(p0, n, b0, i, count);
      if i + 1 < count {
        AfterNext(p0, n, b0, i + 1);
        OkBefore(p0, n, b0, i + 2, count);
        RightKept(cells, p, n, b0, i);
      }
      assert last[b] == r.cells[b];
    }
  }

  lemma {:induction false} ShadowsAfter(cells: seq<Cell>, n: nat, f: int, b0: nat, i: nat, count: nat)
    requires b0 < n <= |cells| && i <= count <= n && n % 2 == 0 && -1 <= f < n
    requires PostAfter(PostInit(cells, n, f), n, b0, count).ok
    ensures var p0 := PostInit(cells, n, f);
            var last := PostAfter(p0, n, b0, count).cells;
            Shadows(last, PostAfter(p0, n, b0, i), PostAfter(PostInit(last, n, f), n, b0, i), n, b0, i)
    decreases i
  {
    hide PostStep, Shadows, Kept, Regular, SameStructure;
    var p0 := PostInit(cells, n, f);
    var last := PostAfter(p0, n, b0, count).cells;
    RegularAfter(cells, n, f, b0, count);
    if i == 0 {
      ShadowsInit(cells, n, f, b0, PostAfter(p0, n, b0, count), count);
    } else {
      var p := PostAfter(p0, n, b0, i - 1);
      var q := PostAfter(PostInit(last, n, f), n, b0, i - 1);
      ShadowsAfter(cells, n, f, b0, i - 1, count);
      KeptStep(cells, n, f, b0, i - 1, count);
      OkBefore(p0, n, b0, i - 1, count);
      OkBefore(p0, n, b0, i, count);
      RegularAfter(cells, n, f, b0, i - 1);
      if cells[At(b0, i - 1, n)].fa != 0 {
        ShadowField(cells, last, p, q, n, b0, i - 1);
      } else {
        ShadowOther(cells, last, p, q, n, b0, i - 1);
      }
    }
  }

  lemma ShadowsInit(cells: seq<Cell>, n: nat, f: int, b0: nat, end: Post, count: nat)
    requires b0 < n <= |cells| && -1 <= f < n && count <= n && Regular(cells, end, n, b0, count)
    ensures Shadows(end.cells, PostInit(cells, n, f), PostInit(end.cells, n, f), n, b0, 0)
  {
  }

  /** On an even-sized screen, when a pass finds no error a second pass finds none and changes
      nothing. */
  lemma SecondPassChangesNothing(cells: seq<Cell>, n: nat, formatted: bool)
    requires 0 < n <= |cells| && n % 2 == 0 && PostProcess(true, cells, n, formatted).ok
    ensures var r := PostProcess(true, cells, n, formatted);
            PostProcess(true, r.cells, n, formatted) == r
  {
    hide PostAfter, SameShifts;
    var f := PostField(cells, n, formatted);
    var b0, count := PostBegin(f, n), PostCount(f, n);
    var p := PostAfter(PostInit(cells, n, f), n, b0, count);
    var last := p.cells;
    RegularAfter(cells, n, f, b0, count);
    FieldsKept(cells, last, n, formatted);
    ShadowsAfter(cells, n, f, b0, count, count);
    var q := PostAfter(PostInit(last, n, f), n, b0, count);
    forall x | 0 <= x < |last| ensures q.cells[x] == last[x] {
      if x < n {
        assert At(b0, Off(b0, x, n), n) == x;
      }
    }
    assert q.cells == last;
  }

  lemma FieldsKept(cells: seq<Cell>, last: seq<Cell>, n: nat, formatted: bool)
    requires 0 < n <= |cells| == |last| && SameShifts(last, cells, n)
    ensures PostField(last, n, formatted) == PostField(cells, n, formatted)
  {
    SameAttributes(cells, last, n, formatted, 0);
  }

  // --- Pairs --------------------------------------------------------------------------------------

  predicate SiAt(c: Cell) { c.fa == 0 && c.ec == EBC_SI }

  predicate SetAt(c: Cell) { Ordinary(c) && IsDbcsSet(c.cs) }

  // Two cells with the double-byte character set directly follow an SI.
  predicate PairAfterSi(cells: seq<Cell>, n: nat, b0: nat, i: nat)
    requires b0 < n <= |cells| && i + 2 < n
  {
    SiAt(cells[At(b0, i, n)]) && SetAt(cells[At(b0, i + 1, n)]) && SetAt(cells[At(b0, i + 2, n)])
  }

  // No cell with the double-byte character set directly follows an SI.
  predicate NoSetAfterSi(cells: seq<Cell>, n: nat)
    requires n <= |cells|
  {
    forall k :: 0 <= k < n && SiAt(cells[k]) ==> !SetAt(cells[Inc(k, n)])
  }

  lemma NoPairAfterSi(cells: seq<Cell>, n: nat, b0: nat, i: nat)
    requires b0 < n <= |cells| && i + 2 < n && NoSetAfterSi(cells, n)
    ensures !PairAfterSi(cells, n, b0, i)
  {
    assert Inc(At(b0, i, n), n) == At(b0, i + 1, n);
  }

  // An accepted SI ends the stretch and bears its mark.
  lemma {:induction false} BehindSi(cells: seq<Cell>, n: nat, f: int, b0: nat, i: nat)
    requires b0 < n <= |cells| && i < n && n % 2 == 0 && -1 <= f < n && SiAt(cells[At(b0, i, n)])
    requires PostAfter(PostInit(cells, n, f), n, b0, i + 1).ok
    ensures var r := PostAfter(PostInit(cells, n, f), n, b0, i + 1);
            r.db == -1 && !r.so && r.si && !r.field && AfterSiAt(r)
  {
    hide PostStep, PostAfter, PostInit, SameStructure;
    var p0 := PostInit(cells, n, f);
    OkBefore(p0, n, b0, i, i + 1);
    RegularAfter(cells, n, f, b0, i);
    AfterNext(p0, n, b0, i);
    var p := PostAfter(p0, n, b0, i);
    Passed(p, n, b0, i);
    StepSi(p, n, At(b0, i, n));
    if AfterSiAt(p) {
      NotFirst(cells, n, f, b0, i);
      MarkedSi(cells, p, n, b0, i);
      BehindSi(cells, n, f, b0, i - 1);
    }
  }

  lemma NotFirst(cells: seq<Cell>, n: nat, f: int, b0: nat, i: nat)
    requires b0 < n <= |cells| && i <= n && -1 <= f < n && AfterSiAt(PostAfter(PostInit(cells, n, f), n, b0, i))
    ensures i > 0
  {
  }

  // The cell behind an SI, and the stretch that it may begin.
  lemma FirstBehindSi(cells: seq<Cell>, n: nat, f: int, b0: nat, i: nat)
    requires b0 < n <= |cells| && i + 1 < n && n % 2 == 0 && -1 <= f < n
    requires SiAt(cells[At(b0, i, n)]) && Ordinary(cells[At(b0, i + 1, n)])
    requires PostAfter(PostInit(cells, n, f), n, b0, i + 2).ok
    ensures var r, b := PostAfter(PostInit(cells, n, f), n, b0, i + 2), At(b0, i + 1, n);
            && r.db == (if SetAt(cells[b]) then b else -1)
            && !r.so && !r.field && r.cells[b].db == DbSb
  {
    hide PostStep, PostAfter, PostInit;
    var p0 := PostInit(cells, n, f);
    OkBefore(p0, n, b0, i + 1, i + 2);
    RegularAfter(cells, n, f, b0, i + 1);
    AfterNext(p0, n, b0, i + 1);
    BehindSi(cells, n, f, b0, i);
    var p := PostAfter(p0, n, b0, i + 1);
    Passed(p, n, b0, i + 1);
    StepOrdinary(p, n, At(b0, i + 1, n));
  }

  lemma SecondBehindSi(cells: seq<Cell>, n: nat, f: int, b0: nat, i: nat)
    requires b0 < n <= |cells| && i + 2 < n && n % 2 == 0 && -1 <= f < n && PairAfterSi(cells, n, b0, i)
    requires PostAfter(PostInit(cells, n, f), n, b0, i + 3).ok
    ensures var r := PostAfter(PostInit(cells, n, f), n, b0, i + 3).cells;
            r[At(b0, i + 2, n)].db == DbRight && r[At(b0, i + 1, n)].db == DbSb
  {
    hide PostStep, PostAfter, PostInit;
    var p0 := PostInit(cells, n, f);
    OkBefore(p0, n, b0, i + 2, i + 3);
    FirstBehindSi(cells, n, f, b0, i);
    RegularAfter(cells, n, f, b0, i + 2);
    AfterNext(p0, n, b0, i + 2);
    var p := PostAfter(p0, n, b0, i + 2);
    Passed(p, n, b0, i + 2);
    StepOrdinary(p, n, At(b0, i + 2, n));
    HalfParity(b0, i + 1, i + 2, n);
  }

  // Two double-byte cells behind an SI: the second is a right half, but the first no left half.
  lemma PairAfterSiUnpaired(cells: seq<Cell>, n: nat, f: int, b0: nat, i: nat, count: nat)
    requires b0 < n <= |cells| && i + 2 < count <= n && n % 2 == 0 && -1 <= f < n
    requires PostAfter(PostInit(cells, n, f), n, b0, count).ok && PairAfterSi(cells, n, b0, i)
    ensures var r := PostAfter(PostInit(cells, n, f), n, b0, count).cells;
            r[At(b0, i + 2, n)].db == DbRight && r[At(b0, i + 1, n)].db == DbSb
  {
    hide PostStep, PostAfter, PostInit, PairAfterSi;
    var p0 := PostInit(cells, n, f);
    OkBefore(p0, n, b0, i + 3, count);
    SecondBehindSi(cells, n, f, b0, i);
    RightStays(cells, n, f, b0, i + 2, count);
    SettledAfter(p0, n, b0, i + 1, count);
  }

  // Conversely, a right half two positions behind an SI is the second of two such cells.
  lemma RightBehindSi(cells: seq<Cell>, n: nat, f: int, b0: nat, i: nat)
    requires b0 < n <= |cells| && i + 2 < n && n % 2 == 0 && -1 <= f < n && SiAt(cells[At(b0, i, n)])
    requires PostAfter(PostInit(cells, n, f), n, b0, i + 2).ok
    requires Ordinary(cells[At(b0, i + 2, n)])
    requires IsRight(PostAfter(PostInit(cells, n, f), n, b0, i + 2), n, At(b0, i + 2, n))
    ensures PairAfterSi(cells, n, b0, i)
  {
    hide PostStep, PostAfter, PostInit;
    RegularAfter(cells, n, f, b0, i + 2);
    RightInStretch(cells, PostAfter(PostInit(cells, n, f), n, b0, i + 2), n, b0, i + 2);
    FirstBehindSi(cells, n, f, b0, i);
  }

  // The mark given in front of a right half is that of a left half, unless an SI is in front of both.
  lemma LeftMark(cells: seq<Cell>, p: Post, n: nat, b0: nat, i: nat)
    requires b0 < n <= |cells| && i + 1 < n && n % 2 == 0
    requires Regular(cells, p, n, b0, i) && PostStep(p, n, At(b0, i, n)).ok
    requires Regular(cells, PostStep(p, n, At(b0, i, n)), n, b0, i + 1)
    requires IsRight(PostStep(p, n, At(b0, i, n)), n, At(b0, i + 1, n))
    ensures Ordinary(cells[At(b0, i, n)]) && Stretch(p, At(b0, i, n)) >= 0
    ensures PostStep(p, n, At(b0, i, n)).cells[At(b0, i, n)].db == if AfterSiAt(p) then DbSb else DbLeft
  {
    hide PostStep, SameStructure, IsRight;
    var b := At(b0, i, n);
    Passed(p, n, b0, i);
    RightInStretch(cells, PostStep(p, n, b), n, b0, i + 1);
    assert p.cells[b] == cells[b];
    StepOrdinary(p, n, b);
    if IsRight(p, n, b) {
      RightInStretch(cells, p, n, b0, i);
      assert false;
    }
  }

  lemma LeftBeforeRight(cells: seq<Cell>, n: nat, f: int, b0: nat, i: nat)
    requires b0 < n <= |cells| && i < n && n % 2 == 0 && -1 <= f < n
    requires PostAfter(PostInit(cells, n, f), n, b0, i).ok && Ordinary(cells[At(b0, i, n)])
    requires IsRight(PostAfter(PostInit(cells, n, f), n, b0, i), n, At(b0, i, n))
    requires i >= 2 ==> !PairAfterSi(cells, n, b0, i - 2)
    ensures i > 0
    ensures PostAfter(PostInit(cells, n, f), n, b0, i).cells[At(b0, i - 1, n)].db == DbLeft
  {
    hide PostStep, IsRight, Regular, AfterSiAt, Stretch, PairAfterSi;
    var p0 := PostInit(cells, n, f);
    RegularAfter(cells, n, f, b0, i);
    RightInStretch(cells, PostAfter(p0, n, b0, i), n, b0, i);
    OkBefore(p0, n, b0, i - 1, i);
    RegularAfter(cells, n, f, b0, i - 1);
    var p := PostAfter(p0, n, b0, i - 1);
    LeftMark(cells, p, n, b0, i - 1);
    if AfterSiAt(p) {
      NotFirst(cells, n, f, b0, i - 1);
      MarkedSi(cells, p, n, b0, i - 1);
      RightBehindSi(cells, n, f, b0, i - 2);
    }
  }

  lemma MarkedSi(cells: seq<Cell>, p: Post, n: nat, b0: nat, i: nat)
    requires b0 < n <= |cells| && 0 < i <= n && Regular(cells, p, n, b0, i) && AfterSiAt(p)
    ensures SiAt(cells[At(b0, i - 1, n)])
  {
    hide SameStructure;
  }

  lemma AfterNext(p0: Post, n: nat, b0: nat, i: nat)
    requires PostReady(p0, n) && b0 < n && i < n
    ensures PostAfter(p0, n, b0, i + 1) == PostStep(PostAfter(p0, n, b0, i), n, At(b0, i, n))
  {
  }

  // A right half is only ever marked at an ordinary position, as a right half.
  lemma RightMark(cells: seq<Cell>, p: Post, n: nat, b0: nat, i: nat)
    requires b0 < n <= |cells| && i < n && Regular(cells, p, n, b0, i)
    requires PostStep(p, n, At(b0, i, n)).ok
    requires PostStep(p, n, At(b0, i, n)).cells[At(b0, i, n)].db == DbRight
    ensures Ordinary(cells[At(b0, i, n)]) && IsRight(p, n, At(b0, i, n))
  {
    hide PostStep, IsRight, SameStructure;
    var b := At(b0, i, n);
    Passed(p, n, b0, i);
    assert p.cells[b] == cells[b];
    if p.cells[b].fa != 0 {
      StepField(p, n, b);
    } else if p.cells[b].ec == EBC_SO {
      StepSo(p, n, b);
    } else if p.cells[b].ec == EBC_SI {
      StepSi(p, n, b);
    } else {
      StepOrdinary(p, n, b);
    }
  }

  // A step never turns the position in front of it into a right half.
  lemma PrevMarks(cells: seq<Cell>, p: Post, n: nat, b0: nat, i: nat)
    requires b0 < n <= |cells| && 0 < i < n && Regular(cells, p, n, b0, i)
    requires var r := PostStep(p, n, At(b0, i, n)); r.ok && r.cells[p.pb].db == DbRight
    ensures p.cells[p.pb].db == DbRight
  {
    hide PostStep, IsRight, SameStructure;
    var b := At(b0, i, n);
    Passed(p, n, b0, i);
    if p.cells[b].fa != 0 {
      StepField(p, n, b);
    } else if p.cells[b].ec == EBC_SO {
      StepSo(p, n, b);
    } else if p.cells[b].ec == EBC_SI {
      StepSi(p, n, b);
    } else {
      StepOrdinary(p, n, b);
    }
  }

  // A final right half has been one since the step at its position.
  lemma RightSince(cells: seq<Cell>, n: nat, f: int, b0: nat, i: nat, count: nat)
    requires b0 < n <= |cells| && i < count <= n && n % 2 == 0 && -1 <= f < n
    requires PostAfter(PostInit(cells, n, f), n, b0, count).ok
    requires PostAfter(PostInit(cells, n, f), n, b0, count).cells[At(b0, i, n)].db == DbRight
    ensures PostAfter(PostInit(cells, n, f), n, b0, i + 1).cells[At(b0, i, n)].db == DbRight
  {
    hide PostStep, PostAfter, Regular, PostInit;
    var p0 := PostInit(cells, n, f);
    SettledAfter(p0, n, b0, i, count);
    if i + 1 < count {
      OkBefore(p0, n, b0, i + 1, count);
      AfterNext(p0, n, b0, i + 1);
      OkBefore(p0, n, b0, i + 2, count);
      RegularAfter(cells, n, f, b0, i + 1);
      PrevMarks(cells, PostAfter(p0, n, b0, i + 1), n, b0, i + 1);
    }
  }

  // What a right half says about the step that marked it.
  lemma RightWasMarked(cells: seq<Cell>, p0: Post, n: nat, f: int, b0: nat, i: nat)
    requires b0 < n <= |cells| && i < n && n % 2 == 0 && -1 <= f < n && p0 == PostInit(cells, n, f)
    requires PostAfter(p0, n, b0, i).ok && PostAfter(p0, n, b0, i + 1).ok
    requires PostAfter(p0, n, b0, i + 1).cells[At(b0, i, n)].db == DbRight
    ensures Ordinary(cells[At(b0, i, n)]) && IsRight(PostAfter(p0, n, b0, i), n, At(b0, i, n))
  {
    hide *;
    RegularAfter(cells, n, f, b0, i);
    AfterNext(p0, n, b0, i);
    RightMark(cells, PostAfter(p0, n, b0, i), n, b0, i);
  }

  // The cell stands directly behind a left half, and the two are a valid character.
  predicate Paired(cells: seq<Cell>, n: nat, k: nat)
    requires k < n <= |cells|
  {
    cells[Dec(k, n)].db == DbLeft && ValidDbcsChar(cells[Dec(k, n)].ec, cells[k].ec)
  }

  // A position that the pass does not visit stays as it is.
  lemma {:induction false} NotVisited(p: Post, n: nat, b0: nat, k: nat, x: nat)
    requires PostReady(p, n) && p.pb == -1 && b0 < n && k <= n && x < |p.cells|
    requires forall j :: 0 <= j < k ==> At(b0, j, n) != x
    ensures PostAfter(p, n, b0, k).cells[x] == p.cells[x]
    decreases k
  {
    hide PostStep;
    if k > 0 {
      NotVisited(p, n, b0, k - 1, x);
      StepLocal(PostAfter(p, n, b0, k - 1), n, At(b0, k - 1, n));
    }
  }

  // The pass begins behind the attribute in front of location 0 and ends in front of it.
  lemma VisitsAllBut(n: nat, f: int, k: nat)
    requires k < n && n % 2 == 0 && -1 <= f < n
    ensures var b0, count := PostBegin(f, n), PostCount(f, n);
            if k == f then forall j :: 0 <= j < count ==> At(b0, j, n) != k
            else Off(b0, k, n) < count && At(b0, Off(b0, k, n), n) == k
  {
  }

  // Among the cells that the pass visits, an SI directly followed by two double-byte cells.
  predicate HasPairAfterSi(cells: seq<Cell>, n: nat, f: int)
    requires 0 < n <= |cells| && -1 <= f < n
  {
    exists i :: 0 <= i && i + 2 < PostCount(f, n) && PairAfterSi(cells, n, PostBegin(f, n), i)
  }

  lemma RightVisited(cells: seq<Cell>, n: nat, formatted: bool, k: nat)
    requires k < n <= |cells| && n % 2 == 0 && PostProcess(true, cells, n, formatted).ok
    requires k != PostField(cells, n, formatted) && !HasPairAfterSi(cells, n, PostField(cells, n, formatted))
    ensures var r := PostProcess(true, cells, n, formatted).cells; r[k].db == DbRight ==> Paired(r, n, k)
  {
    hide PostAfter, PostStep, Regular, IsRight, PostCount, PostBegin, PairAfterSi;
    var f := PostField(cells, n, formatted);
    var b0, count := PostBegin(f, n), PostCount(f, n);
    var p0 := PostInit(cells, n, f);
    var last := PostAfter(p0, n, b0, count).cells;
    VisitsAllBut(n, f, k);
    var i := Off(b0, k, n);
    if last[k].db == DbRight {
      RightSince(cells, n, f, b0, i, count);
      OkBefore(p0, n, b0, i, count);
      OkBefore(p0, n, b0, i + 1, count);
      RightWasMarked(cells, p0, n, f, b0, i);
      LeftBeforeRight(cells, n, f, b0, i);
      assert Dec(k, n) == At(b0, i - 1, n);
      PairKept(cells, n, f, b0, i, count);
    }
  }

  lemma AttributeNotVisited(cells: seq<Cell>, n: nat, formatted: bool)
    requires 0 < n <= |cells| && n % 2 == 0
    ensures var f := PostField(cells, n, formatted);
            f >= 0 ==> PostProcess(true, cells, n, formatted).cells[f] == cells[f]
  {
    hide PostAfter, PostCount, PostBegin;
    var f := PostField(cells, n, formatted);
    if f >= 0 {
      VisitsAllBut(n, f, f);
      NotVisited(PostInit(cells, n, f), n, PostBegin(f, n), PostCount(f, n), f);
    }
  }

  lemma PairAfterSiNotPaired(cells: seq<Cell>, n: nat, formatted: bool)
    requires 0 < n <= |cells| && n % 2 == 0 && PostProcess(true, cells, n, formatted).ok
    requires HasPairAfterSi(cells, n, PostField(cells, n, formatted))
    ensures var r := PostProcess(true, cells, n, formatted).cells;
            exists k :: 0 <= k < n && r[k].db == DbRight && !Paired(r, n, k)
  {
    hide PostAfter, PostCount, PostBegin, PostInit, PairAfterSi;
    var f := PostField(cells, n, formatted);
    var b0, count := PostBegin(f, n), PostCount(f, n);
    var i :| 0 <= i && i + 2 < count && PairAfterSi(cells, n, b0, i);
    PairAfterSiUnpaired(cells, n, f, b0, i, count);
    var r, k := PostProcess(true, cells, n, formatted).cells, At(b0, i + 2, n);
    assert Dec(k, n) == At(b0, i + 1, n);
    assert r[k].db == DbRight && !Paired(r, n, k);
  }

  /** On an even-sized screen, after a pass without errors every right half stands directly behind a
      left half and the two are a valid character, if and only if no SI is directly followed by two
      double-byte cells, and the attribute in front of location 0, which the pass does not visit, was
      not left marked as a right half.  That attribute holds a null, as every attribute does (see
      AttributeCodes). */
  lemma RightHalvesPairedIff(cells: seq<Cell>, n: nat, formatted: bool)
    requires 0 < n <= |cells| && n % 2 == 0 && PostProcess(true, cells, n, formatted).ok
    requires var f := PostField(cells, n, formatted); f >= 0 ==> cells[f].ec == EBC_NULL
    ensures var f, r := PostField(cells, n, formatted), PostProcess(true, cells, n, formatted).cells;
            (forall k :: 0 <= k < n && r[k].db == DbRight ==> Paired(r, n, k))
            <==> !HasPairAfterSi(cells, n, f) && (f < 0 || cells[f].db != DbRight)
  {
    hide PostProcess, PostField, Paired, HasPairAfterSi;
    var f, r := PostField(cells, n, formatted), PostProcess(true, cells, n, formatted).cells;
    AttributeNotVisited(cells, n, formatted);
    if HasPairAfterSi(cells, n, f) {
      PairAfterSiNotPaired(cells, n, formatted);
    } else {
      forall k | 0 <= k < n && k != f ensures r[k].db == DbRight ==> Paired(r, n, k) {
        RightVisited(cells, n, formatted, k);
      }
      if f >= 0 {
        NullNotPaired(r, n, f);
      }
    }
  }

  lemma NullNotPaired(cells: seq<Cell>, n: nat, k: nat)
    requires k < n <= |cells| && cells[k].ec == EBC_NULL
    ensures !Paired(cells, n, k)
  {
  }

  // So it is for every cell without an attribute, if no double-byte cell directly follows an SI.
  lemma RightHalvesPaired(cells: seq<Cell>, n: nat, formatted: bool, k: nat)
    requires k < n <= |cells| && n % 2 == 0 && NoSetAfterSi(cells, n)
    requires PostProcess(true, cells, n, formatted).ok && cells[k].fa == 0
    ensures var r := PostProcess(true, cells, n, formatted).cells; r[k].db == DbRight ==> Paired(r, n, k)
  {
    hide PostProcess, NoSetAfterSi, PairAfterSi;
    var f := PostField(cells, n, formatted);
    forall i | 0 <= i && i + 2 < PostCount(f, n) ensures !PairAfterSi(cells, n, PostBegin(f, n), i) {
      NoPairAfterSi(cells, n, PostBegin(f, n), i);
    }
    RightVisited(cells, n, formatted, k);
  }

  // --- Left halves --------------------------------------------------------------------------------

  // A left half survives the next step only if that marks a right half.
  lemma LeftNeedsRight(p: Post, n: nat, b: nat)
    requires PostReady(p, n) && b < n && 0 <= p.pb != b && PostStep(p, n, b).cells[p.pb].db == DbLeft
    ensures PostStep(p, n, b).cells[b].db == DbRight
  {
  }

  // A right half stays one.
  lemma RightStays(cells: seq<Cell>, n: nat, f: int, b0: nat, i: nat, count: nat)
    requires b0 < n <= |cells| && i < count <= n && n % 2 == 0 && -1 <= f < n
    requires PostAfter(PostInit(cells, n, f), n, b0, count).ok
    requires PostAfter(PostInit(cells, n, f), n, b0, i + 1).cells[At(b0, i, n)].db == DbRight
    ensures PostAfter(PostInit(cells, n, f), n, b0, count).cells[At(b0, i, n)].db == DbRight
  {
    hide PostStep, PostAfter, Regular, PostInit, IsRight;
    var p0 := PostInit(cells, n, f);
    OkBefore(p0, n, b0, i, count);
    OkBefore(p0, n, b0, i + 1, count);
    RightWasMarked(cells, p0, n, f, b0, i);
    SettledAfter(p0, n, b0, i, count);
    if i + 1 < count {
      OkBefore(p0, n, b0, i + 2, count);
      AfterNext(p0, n, b0, i);
      AfterNext(p0, n, b0, i + 1);
      RegularAfter(cells, n, f, b0, i);
      RightKept(cells, PostAfter(p0, n, b0, i), n, b0, i);
    }
  }

  lemma LeftThenRight(cells: seq<Cell>, n: nat, f: int, b0: nat, i: nat, count: nat)
    requires b0 < n <= |cells| && i + 1 < count <= n && n % 2 == 0 && -1 <= f < n
    requires PostAfter(PostInit(cells, n, f), n, b0, count).ok
    requires PostAfter(PostInit(cells, n, f), n, b0, count).cells[At(b0, i, n)].db == DbLeft
    ensures PostAfter(PostInit(cells, n, f), n, b0, count).cells[At(b0, i + 1, n)].db == DbRight
  {
    hide PostStep, PostAfter, PostInit;
    var p0 := PostInit(cells, n, f);
    SettledAfter(p0, n, b0, i, count);
    AfterNext(p0, n, b0, i + 1);
    LeftNeedsRight(PostAfter(p0, n, b0, i + 1), n, At(b0, i + 1, n));
    RightStays(cells, n, f, b0, i + 1, count);
  }

  // The first position of a pass is no right half.
  lemma FirstNotRight(cells: seq<Cell>, n: nat, f: int, b0: nat, count: nat)
    requires b0 < n <= |cells| && 0 < count <= n && n % 2 == 0 && -1 <= f < n
    requires PostAfter(PostInit(cells, n, f), n, b0, count).ok
    ensures PostAfter(PostInit(cells, n, f), n, b0, count).cells[b0].db != DbRight
  {
    hide PostStep, PostAfter, Regular, PostInit, IsRight;
    var p0 := PostInit(cells, n, f);
    assert At(b0, 0, n) == b0;
    if PostAfter(p0, n, b0, count).cells[b0].db == DbRight {
      RightSince(cells, n, f, b0, 0, count);
      OkBefore(p0, n, b0, 0, count);
      OkBefore(p0, n, b0, 1, count);
      RightWasMarked(cells, p0, n, f, b0, 0);
      RegularAfter(cells, n, f, b0, 0);
      RightInStretch(cells, PostAfter(p0, n, b0, 0), n, b0, 0);
      assert false;
    }
  }

  /** On an even-sized screen, after a pass without errors every left half stands directly in front of
      a right half, with two exceptions: the last position of the pass, behind which only an old mark
      of the attribute in front of location 0 can be a right half, and an old mark of that attribute
      itself. */
  lemma LeftHalvesPaired(cells: seq<Cell>, n: nat, formatted: bool, k: nat)
    requires k < n <= |cells| && n % 2 == 0 && PostProcess(true, cells, n, formatted).ok
    ensures var f, r := PostField(cells, n, formatted), PostProcess(true, cells, n, formatted).cells;
            r[k].db == DbLeft ==>
              (r[Inc(k, n)].db == DbRight <==>
                 if Inc(k, n) == f then cells[f].db == DbRight
                 else k != f && !(f < 0 && k == n - 1))
  {
    hide PostAfter, PostInit, PostField;
    var f := PostField(cells, n, formatted);
    var b0, count := PostBegin(f, n), PostCount(f, n);
    var r := PostProcess(true, cells, n, formatted).cells;
    var i := Off(b0, k, n);
    AttributeNotVisited(cells, n, formatted);
    if r[k].db == DbLeft && Inc(k, n) != f {
      if k == f || (f < 0 && k == n - 1) {
        FirstNotRight(cells, n, f, b0, count);
      } else {
        assert i + 1 < count && At(b0, i + 1, n) == Inc(k, n);
        LeftThenRight(cells, n, f, b0, i, count);
      }
    }
  }

  lemma PairKept(cells: seq<Cell>, n: nat, f: int, b0: nat, i: nat, count: nat)
    requires b0 < n <= |cells| && 0 < i < count <= n && n % 2 == 0 && -1 <= f < n
    requires PostAfter(PostInit(cells, n, f), n, b0, count).ok
    requires var p := PostAfter(PostInit(cells, n, f), n, b0, i);
             Ordinary(cells[At(b0, i, n)]) && IsRight(p, n, At(b0, i, n))
    ensures var p0 := PostInit(cells, n, f);
            var last := PostAfter(p0, n, b0, count).cells;
            && last[At(b0, i - 1, n)].db == PostAfter(p0, n, b0, i).cells[At(b0, i - 1, n)].db
            && ValidDbcsChar(last[At(b0, i - 1, n)].ec, last[At(b0, i, n)].ec)
  {
    hide PostStep, IsRight;
    var p0 := PostInit(cells, n, f);
    var p := PostAfter(p0, n, b0, i);
    OkBefore(p0, n, b0, i, count);
    OkBefore(p0, n, b0, i + 1, count);
    RegularAfter(cells, n, f, b0, i);
    KeptStep(cells, n, f, b0, i, count);
    Passed(p, n, b0, i);
    StepOrdinary(p, n, At(b0, i, n));
  }

  /** The list of control codes in valid_dbcs_char is never reached: only pairs of graphic codes are
      valid, so a control code that a write accepts as X'00xx' is turned into spaces. */
  lemma ControlCodesNeverValid(c1: byte, c2: byte)
    ensures ValidDbcsChar(c1, c2) <==> 0x40 <= c1 < 0xFF && 0x40 <= c2 < 0xFF
  {
  }
}
