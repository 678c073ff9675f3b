/**
 The two computations of the double-byte state agree: the marks stored by the pass after a write,
 and the left-looking scan used while writing.
 */
module DbcsMarks {
  import opened Bytes
  import opened Screen
  import opened DbcsLook
  import opened DbcsPost

  predicate Ordinary(c: Cell) { c.fa == 0 && !IsShift(c.ec) }

  // What a stored mark means to the left-looking scan.
  function Answer(db: DbcsState): DbcsState
  {
    if db == DbLeft || db == DbDead then DbLeft else if db == DbRight then DbRight else DbNone
  }

  /** The position, counted from `b0`, of the SO that is open in front of position `i`, or -1; `si`
      tells whether an SI has been passed on the way back. */
  ghost function Back(cells: seq<Cell>, n: nat, b0: nat, i: nat, si: bool): (r: int)
    requires b0 < n <= |cells| && i <= n
    ensures -1 <= r < i
  {
    if i == 0 then -1
    else
      var c := cells[At(b0, i - 1, n)];
      if c.fa != 0 then -1
      else if c.ec == EBC_SI then Back(cells, n, b0, i - 1, true)
      else if c.ec == EBC_SO then if si then Back(cells, n, b0, i - 1, false) else i - 1
      else Back(cells, n, b0, i - 1, si)
  }

  // The same attributes, and shift codes at the same places.
  ghost predicate SameShifts(c1: seq<Cell>, c2: seq<Cell>, n: nat)
    requires n <= |c1| == |c2|
  {
    forall k :: 0 <= k < n ==>
      && c1[k].fa == c2[k].fa
      && (c1[k].fa == 0 ==>
            (c1[k].ec == EBC_SO <==> c2[k].ec == EBC_SO) && (c1[k].ec == EBC_SI <==> c2[k].ec == EBC_SI))
  }

  lemma {:induction false} SameBack(c1: seq<Cell>, c2: seq<Cell>, n: nat, b0: nat, i: nat, si: bool)
    requires b0 < n <= |c1| == |c2| && i <= n && SameShifts(c1, c2, n)
    ensures Back(c1, n, b0, i, si) == Back(c2, n, b0, i, si)
  {
    if i > 0 {
      SameBack(c1, c2, n, b0, i - 1, false);
      SameBack(c1, c2, n, b0, i - 1, true);
    }
  }

  // What position `i` ought to be.
  ghost function Expected(cells: seq<Cell>, n: nat, b0: nat, i: nat): DbcsState
    requires b0 < n <= |cells| && i <= n
  {
    var so := Back(cells, n, b0, i, false);
    if so < 0 then DbNone else Half(i - so)
  }

  // --- One accepted step of the pass, cell by cell ----------------------------------------------

  lemma StepLocal(p: Post, n: nat, b: nat)
    requires PostReady(p, n) && b < n
    ensures forall j :: 0 <= j < |p.cells| && j != b && j != p.pb ==> PostStep(p, n, b).cells[j] == p.cells[j]
  {
    hide Marked;
    var q := Classified(p, n, b);
    MarkedLocal(q, n, b, p.si || p.field);
  }

  lemma MarkedLocal(q: Post, n: nat, b: nat, siBad: bool)
    requires 0 < n <= |q.cells| && b < n && -1 <= q.db < n && -1 <= q.pb < n
    ensures forall j :: 0 <= j < |q.cells| && j != b && j != q.pb ==>
              Marked(q, n, b, siBad)[j] == q.cells[j]
  {
  }

  // The cell in front of an attribute.
  function BeforeField(c: Cell): Cell
  {
    if c.db == DbLeft then c.(ec := EBC_NULL, db := DbDead)
    else if c.db == DbSi then c.(db := DbNone) else c
  }

  lemma StepField(p: Post, n: nat, b: nat)
    requires PostReady(p, n) && b < n && p.cells[b].fa != 0 && p.pb != b
    ensures var r := PostStep(p, n, b);
            && r.so == p.so && r.si == p.si && r.ok == p.ok && r.field == IsDbcsSet(p.cells[b].cs)
            && r.db == (if r.field then Inc(b, n) else -1)
            && r.cells[b] == p.cells[b].(db := DbNone)
            && (p.pb >= 0 ==> r.cells[p.pb] == BeforeField(p.cells[p.pb]))
  {
  }

  predicate AfterSiAt(p: Post)
    requires -1 <= p.pb < |p.cells|
  {
    p.pb >= 0 && p.cells[p.pb].db == DbSi
  }

  lemma StepSo(p: Post, n: nat, b: nat)
    requires PostReady(p, n) && b < n && p.pb != b && PostStep(p, n, b).ok
    requires p.cells[b].fa == 0 && p.cells[b].ec == EBC_SO
    ensures var r := PostStep(p, n, b);
            && p.ok && !p.so && !p.field && r.so && !r.si && !r.field && r.db == Inc(b, n)
            && r.cells[b] == p.cells[b].(db := if AfterSiAt(p) then DbSb else DbNone)
            && (p.pb >= 0 ==> r.cells[p.pb] == p.cells[p.pb] && p.cells[p.pb].db != DbLeft)
  {
  }

  lemma StepSi(p: Post, n: nat, b: nat)
    requires PostReady(p, n) && b < n && p.pb != b && PostStep(p, n, b).ok
    requires p.cells[b].fa == 0 && p.cells[b].ec == EBC_SI
    ensures var r := PostStep(p, n, b);
            && p.ok && !p.si && !p.field && !r.so && r.si && !r.field && r.db == -1
            && r.cells[b] == p.cells[b].(db := if AfterSiAt(p) then DbSb else DbSi)
            && (p.pb >= 0 ==> r.cells[p.pb] == p.cells[p.pb] && p.cells[p.pb].db != DbLeft)
  {
  }

  // Where the double-byte stretch of an ordinary cell starts, or -1.
  function Stretch(p: Post, b: nat): int
    requires b < |p.cells|
  {
    if IsDbcsSet(p.cells[b].cs) then if p.db < 0 then b else p.db
    else if !p.so && !p.field then -1 else p.db
  }

  predicate IsRight(p: Post, n: nat, b: nat)
    requires b < |p.cells|
  {
    Stretch(p, b) >= 0 && (b + n - Stretch(p, b)) % 2 == 1
  }

  // Whether the cell completes an invalid character.
  predicate Spoiled(p: Post, n: nat, b: nat)
    requires b < |p.cells| && -1 <= p.pb < |p.cells|
  {
    IsRight(p, n, b) && p.pb >= 0 && !ValidDbcsChar(p.cells[p.pb].ec, p.cells[b].ec)
  }

  function OrdinaryMark(p: Post, n: nat, b: nat): DbcsState
    requires b < |p.cells| && -1 <= p.pb < |p.cells|
  {
    if AfterSiAt(p) then DbSb
    else if Stretch(p, b) < 0 then DbNone
    else if IsRight(p, n, b) then DbRight else DbLeft
  }

  lemma StepOrdinary(p: Post, n: nat, b: nat)
    requires PostReady(p, n) && b < n && p.pb != b && PostStep(p, n, b).ok && Ordinary(p.cells[b])
    ensures var r := PostStep(p, n, b);
            && p.ok && (p.so ==> p.cells[b].cs == CS_BASE)
            && r.so == p.so && r.si == p.si && r.field == p.field && r.db == Stretch(p, b)
            && r.cells[b] == p.cells[b].(ec := if Spoiled(p, n, b) then EBC_SPACE else p.cells[b].ec,
                                         db := OrdinaryMark(p, n, b))
            && (p.pb >= 0 ==>
                  && r.cells[p.pb] == p.cells[p.pb].(ec := if Spoiled(p, n, b) then EBC_SPACE
                                                           else p.cells[p.pb].ec)
                  && (p.cells[p.pb].db == DbLeft ==> IsRight(p, n, b)))
  {
  }

  // --- The pass -------------------------------------------------------------------------------

  // No double-byte character sets: double-byte data is only between SO and SI.
  predicate OnlySubfields(cells: seq<Cell>, n: nat)
    requires n <= |cells|
  {
    forall k :: 0 <= k < n ==> !IsDbcsSet(cells[k].cs)
  }

  // Every position passed bears the mark it ought to.
  ghost predicate Bears(cells: seq<Cell>, p: Post, n: nat, b0: nat, i: nat)
    requires b0 < n <= |cells| == |p.cells| && i <= n
  {
    && (forall j :: 0 <= j < i && Ordinary(cells[At(b0, j, n)]) ==>
          Answer(p.cells[At(b0, j, n)].db) == Expected(cells, n, b0, j))
    && (forall j :: 0 <= j < i && p.cells[At(b0, j, n)].db == DbLeft ==> Ordinary(cells[At(b0, j, n)]))
    && (forall j :: 0 <= j < i && p.cells[At(b0, j, n)].db == DbSi ==>
          cells[At(b0, j, n)].fa == 0 && cells[At(b0, j, n)].ec == EBC_SI)
  }

  /** The state of an error-free pass after `i` positions: the flags and the start of the current
      stretch follow the open SO, and every ordinary position passed bears its mark. */
  ghost predicate Follows(cells: seq<Cell>, p: Post, n: nat, b0: nat, i: nat)
    requires b0 < n <= |cells| && i <= n
  {
    && |p.cells| == |cells| && PostReady(p, n) && p.ok && !p.field
    && p.pb == (if i == 0 then -1 else At(b0, i - 1, n))
    && SameShifts(p.cells, cells, n) && OnlySubfields(p.cells, n)
    && Back(cells, n, b0, i, true) == -1
    && (Back(cells, n, b0, i, false) >= 0 ==> p.so)
    && p.db == (if Back(cells, n, b0, i, false) < 0 then -1
                else At(b0, Back(cells, n, b0, i, false) + 1, n))
    && Bears(cells, p, n, b0, i)
    && (forall j :: Back(cells, n, b0, i, false) < j < i && Back(cells, n, b0, i, false) >= 0 ==>
          Ordinary(cells[At(b0, j, n)]))
  }

  // On an even-sized screen, parities of positions are parities of addresses.
  lemma HalfParity(b0: nat, e: nat, i: nat, n: nat)
    requires b0 < n && n % 2 == 0 && e <= i < n
    ensures (At(b0, i, n) + n - At(b0, e, n)) % 2 == (i - e) % 2
  {
    var x, h := At(b0, i, n) + n - At(b0, e, n), n / 2;
    assert x == i - e || x == i - e + 2 * h || x == i - e + 4 * h;
  }

  lemma HalfAfterSo(b0: nat, so: nat, i: nat, n: nat)
    requires b0 < n && n % 2 == 0 && so < i < n
    ensures (At(b0, i, n) + n - At(b0, so + 1, n)) % 2 == 1 <==> Half(i - so) == DbRight
    ensures Half(i - so) == DbRight ==> so < i - 1
    ensures Half(i - so) in {DbLeft, DbRight}
  {
    hide At;
    HalfParity(b0, so + 1, i, n);
  }

  // Positions passed earlier are neither `i` nor, but for the last one, the previous position.
  lemma Passed(p: Post, n: nat, b0: nat, i: nat)
    requires b0 < n && i < n && p.pb == (if i == 0 then -1 else At(b0, i - 1, n))
    ensures p.pb != At(b0, i, n)
    ensures forall j :: 0 <= j < i ==> At(b0, j, n) != At(b0, i, n)
    ensures forall j :: 0 <= j < i - 1 ==> At(b0, j, n) != p.pb
  {
  }

  lemma LeftIsOrdinary(cells: seq<Cell>, p: Post, n: nat, b0: nat, i: nat)
    requires b0 < n <= |cells| && i < n && Follows(cells, p, n, b0, i)
    ensures p.pb >= 0 && p.cells[p.pb].db == DbLeft ==> Ordinary(cells[p.pb])
  {
  }

  lemma BearsField(cells: seq<Cell>, p: Post, n: nat, b0: nat, i: nat)
    requires b0 < n <= |cells| && i < n && Follows(cells, p, n, b0, i)
    requires cells[At(b0, i, n)].fa != 0
    ensures Bears(cells, PostStep(p, n, At(b0, i, n)), n, b0, i + 1)
  {
    hide PostStep, Expected, OnlySubfields;
    var b := At(b0, i, n);
    Passed(p, n, b0, i);
    StepLocal(p, n, b);
    StepField(p, n, b);
  }

  lemma FollowsField(cells: seq<Cell>, p: Post, n: nat, b0: nat, i: nat)
    requires b0 < n <= |cells| && i < n && n % 2 == 0 && Follows(cells, p, n, b0, i)
    requires cells[At(b0, i, n)].fa != 0
    ensures Follows(cells, PostStep(p, n, At(b0, i, n)), n, b0, i + 1)
  {
    hide PostStep, Expected, Bears;
    var b := At(b0, i, n);
    BearsField(cells, p, n, b0, i);
    LeftIsOrdinary(cells, p, n, b0, i);
    Passed(p, n, b0, i);
    StepLocal(p, n, b);
    StepField(p, n, b);
  }

  lemma FollowsSo(cells: seq<Cell>, p: Post, n: nat, b0: nat, i: nat)
    requires b0 < n <= |cells| && i < n && n % 2 == 0 && Follows(cells, p, n, b0, i)
    requires PostStep(p, n, At(b0, i, n)).ok
    requires cells[At(b0, i, n)].fa == 0 && cells[At(b0, i, n)].ec == EBC_SO
    ensures Follows(cells, PostStep(p, n, At(b0, i, n)), n, b0, i + 1)
  {
    hide PostStep, Expected;
    var b := At(b0, i, n);
    Passed(p, n, b0, i);
    StepLocal(p, n, b);
    StepSo(p, n, b);
  }

  lemma FollowsSi(cells: seq<Cell>, p: Post, n: nat, b0: nat, i: nat)
    requires b0 < n <= |cells| && i < n && n % 2 == 0 && Follows(cells, p, n, b0, i)
    requires PostStep(p, n, At(b0, i, n)).ok
    requires cells[At(b0, i, n)].fa == 0 && cells[At(b0, i, n)].ec == EBC_SI
    ensures Follows(cells, PostStep(p, n, At(b0, i, n)), n, b0, i + 1)
  {
    hide PostStep, Expected;
    var b := At(b0, i, n);
    Passed(p, n, b0, i);
    StepLocal(p, n, b);
    StepSi(p, n, b);
  }

  // An ordinary position is a right half for the pass just if the open SO says so.
  lemma RightAsExpected(cells: seq<Cell>, p: Post, n: nat, b0: nat, i: nat)
    requires b0 < n <= |cells| && i < n && n % 2 == 0 && Follows(cells, p, n, b0, i)
    ensures var b := At(b0, i, n);
            && Stretch(p, b) == p.db
            && (p.db < 0 ==> Expected(cells, n, b0, i) == DbNone && !IsRight(p, n, b))
            && (p.db >= 0 ==> Expected(cells, n, b0, i) == if IsRight(p, n, b) then DbRight else DbLeft)
            && (IsRight(p, n, b) ==> i > 0 && Back(cells, n, b0, i, false) < i - 1)
  {
    hide Half, At, Back, Bears, SameShifts;
    var so := Back(cells, n, b0, i, false);
    if so >= 0 {
      HalfAfterSo(b0, so, i, n);
    }
  }

  lemma BearsOrdinary(cells: seq<Cell>, p: Post, n: nat, b0: nat, i: nat)
    requires b0 < n <= |cells| && i < n && n % 2 == 0 && Follows(cells, p, n, b0, i)
    requires PostStep(p, n, At(b0, i, n)).ok && Ordinary(cells[At(b0, i, n)])
    ensures Bears(cells, PostStep(p, n, At(b0, i, n)), n, b0, i + 1)
  {
    hide PostStep, Expected, IsRight, Stretch, SameShifts, OnlySubfields;
    var b := At(b0, i, n);
    Passed(p, n, b0, i);
    SameKinds(cells, p.cells, n, b);
    StepLocal(p, n, b);
    StepOrdinary(p, n, b);
    RightAsExpected(cells, p, n, b0, i);
    NotOpenAfterSi(cells, p, n, b0, i);
  }

  lemma SameKinds(c1: seq<Cell>, c2: seq<Cell>, n: nat, b: nat)
    requires b < n <= |c1| == |c2| && SameShifts(c2, c1, n)
    ensures Ordinary(c1[b]) <==> Ordinary(c2[b])
  {
  }

  lemma FollowsOrdinary(cells: seq<Cell>, p: Post, n: nat, b0: nat, i: nat)
    requires b0 < n <= |cells| && i < n && n % 2 == 0 && Follows(cells, p, n, b0, i)
    requires PostStep(p, n, At(b0, i, n)).ok && Ordinary(cells[At(b0, i, n)])
    ensures Follows(cells, PostStep(p, n, At(b0, i, n)), n, b0, i + 1)
  {
    hide PostStep, Bears, Expected, IsRight, Stretch, SameShifts, OnlySubfields, Spoiled;
    BearsOrdinary(cells, p, n, b0, i);
    ShiftsOrdinary(cells, p, n, b0, i);
    var b := At(b0, i, n);
    Passed(p, n, b0, i);
    SameKinds(cells, p.cells, n, b);
    StepOrdinary(p, n, b);
    RightAsExpected(cells, p, n, b0, i);
  }

  lemma ShiftsOrdinary(cells: seq<Cell>, p: Post, n: nat, b0: nat, i: nat)
    requires b0 < n <= |cells| && i < n && n % 2 == 0 && Follows(cells, p, n, b0, i)
    requires PostStep(p, n, At(b0, i, n)).ok && Ordinary(cells[At(b0, i, n)])
    ensures var q := PostStep(p, n, At(b0, i, n)).cells; SameShifts(q, cells, n) && OnlySubfields(q, n)
  {
    hide PostStep, Bears, Expected, IsRight, Stretch;
    var b := At(b0, i, n);
    Passed(p, n, b0, i);
    StepLocal(p, n, b);
    StepOrdinary(p, n, b);
    RightAsExpected(cells, p, n, b0, i);
    assert i > 0 && IsRight(p, n, b) ==> Ordinary(cells[At(b0, i - 1, n)]);
  }

  // Directly after an SI there is no open SO.
  lemma NotOpenAfterSi(cells: seq<Cell>, p: Post, n: nat, b0: nat, i: nat)
    requires b0 < n <= |cells| && i < n && Follows(cells, p, n, b0, i)
    ensures AfterSiAt(p) ==> p.db < 0
  {
    if AfterSiAt(p) {
      assert p.cells[At(b0, i - 1, n)].db == DbSi;
      assert Back(cells, n, b0, i, false) == Back(cells, n, b0, i - 1, true) == Back(cells, n, b0, i, true);
    }
  }

  lemma FollowsStep(cells: seq<Cell>, p: Post, n: nat, b0: nat, i: nat)
    requires b0 < n <= |cells| && i < n && n % 2 == 0 && Follows(cells, p, n, b0, i)
    requires PostStep(p, n, At(b0, i, n)).ok
    ensures Follows(cells, PostStep(p, n, At(b0, i, n)), n, b0, i + 1)
  {
    hide PostStep, Follows;
    var c := cells[At(b0, i, n)];
    if c.fa != 0 {
      FollowsField(cells, p, n, b0, i);
    } else if c.ec == EBC_SO {
      FollowsSo(cells, p, n, b0, i);
    } else if c.ec == EBC_SI {
      FollowsSi(cells, p, n, b0, i);
    } else {
      FollowsOrdinary(cells, p, n, b0, i);
    }
  }

  // --- The whole pass -----------------------------------------------------------------------------

  lemma OkBefore(p: Post, n: nat, b0: nat, i: nat, k: nat)
    requires PostReady(p, n) && b0 < n && i <= k <= n && PostAfter(p, n, b0, k).ok
    ensures PostAfter(p, n, b0, i).ok
    decreases k
  {
    if i < k {
      StepOk(PostAfter(p, n, b0, k - 1), n, At(b0, k - 1, n));
      OkBefore(p, n, b0, i, k - 1);
    }
  }

  lemma StepOk(p: Post, n: nat, b: nat)
    requires PostReady(p, n) && b < n && PostStep(p, n, b).ok
    ensures p.ok
  {
  }

  lemma FollowsInit(cells: seq<Cell>, n: nat, f: int, b0: nat)
    requires b0 < n <= |cells| && -1 <= f < n && OnlySubfields(cells, n)
    ensures Follows(cells, PostInit(cells, n, f), n, b0, 0)
  {
  }

  lemma {:induction false} FollowsAfter(cells: seq<Cell>, n: nat, f: int, b0: nat, i: nat)
    requires b0 < n <= |cells| && i <= n && n % 2 == 0 && -1 <= f < n && OnlySubfields(cells, n)
    requires PostAfter(PostInit(cells, n, f), n, b0, i).ok
    ensures Follows(cells, PostAfter(PostInit(cells, n, f), n, b0, i), n, b0, i)
    decreases i
  {
    hide PostStep, Follows, OnlySubfields, PostInit;
    var p := PostInit(cells, n, f);
    if i == 0 {
      FollowsInit(cells, n, f, b0);
    } else {
      StepOk(PostAfter(p, n, b0, i - 1), n, At(b0, i - 1, n));
      FollowsAfter(cells, n, f, b0, i - 1);
      FollowsStep(cells, PostAfter(p, n, b0, i - 1), n, b0, i - 1);
    }
  }

  // --- The scan -----------------------------------------------------------------------------------

  /** The attribute in front of position `i` is just in front of position `e`, and there is none in
      between; without an attribute, `e` is the start of the screen. */
  ghost predicate FieldStart(cells: seq<Cell>, n: nat, b0: nat, f: int, e: nat, i: nat)
    requires b0 < n <= |cells|
  {
    && -1 <= f < n && e <= i < n && Dec(At(b0, e, n), n) == Stop(f, n)
    && (e > 0 ==> f >= 0 && cells[f].fa != 0)
    && forall j :: e <= j < i ==> cells[At(b0, j, n)].fa == 0
  }

  lemma OneBack(cells: seq<Cell>, n: nat, b0: nat, f: int, e: nat, i: nat)
    requires b0 < n <= |cells| && FieldStart(cells, n, b0, f, e, i) && i > e
    ensures var x := At(b0, i - 1, n); Dec(At(b0, i, n), n) == x && x != Stop(f, n) && cells[x].fa == 0
    ensures FieldStart(cells, n, b0, f, e, i - 1)
  {
  }

  lemma {:induction false} OpenShiftIsBack(cells: seq<Cell>, n: nat, b0: nat, f: int, e: nat, i: nat, si: bool)
    requires b0 < n <= |cells| && FieldStart(cells, n, b0, f, e, i) && e <= i
    ensures var r := OpenShift(cells, n, f, Dec(At(b0, i, n), n), si);
            var t := Back(cells, n, b0, i, si);
            if t < 0 then r == -1 else r == At(b0, t, n)
    decreases i
  {
    hide FieldStart, At, Dec, Stop;
    if i > e {
      OneBack(cells, n, b0, f, e, i);
      OpenShiftIsBack(cells, n, b0, f, e, i - 1, true);
      OpenShiftIsBack(cells, n, b0, f, e, i - 1, false);
    } else {
      AtStart(cells, n, b0, f, e);
    }
  }

  lemma AtStart(cells: seq<Cell>, n: nat, b0: nat, f: int, e: nat)
    requires b0 < n <= |cells| && FieldStart(cells, n, b0, f, e, e)
    ensures Dec(At(b0, e, n), n) == Stop(f, n)
    ensures e > 0 ==> At(b0, e - 1, n) == f && cells[f].fa != 0
  {
  }

  // The scan's attribute is where the positions say it is.
  lemma FieldStartOf(cells: seq<Cell>, n: nat, formatted: bool, k: nat) returns (e: nat)
    requires k < n <= |cells| && formatted == HasField(cells, n) && cells[k].fa == 0
    ensures var f0 := PostField(cells, n, formatted);
            var b0 := PostBegin(f0, n);
            && FieldStart(cells, n, b0, FindField(cells, n, formatted, k), e, Off(b0, k, n))
            && Off(b0, k, n) < PostCount(f0, n)
  {
    hide FindBack, HasField;
    var f0 := PostField(cells, n, formatted);
    var f := FindField(cells, n, formatted, k);
    FindBackNearest(cells, n, k, n);
    FindBackNearest(cells, n, 0, n);
    FindBackComplete(cells, n, k);
    FindBackComplete(cells, n, 0);
    if f < 0 {
      e := 0;
      StartWithoutField(cells, n, k);
    } else {
      e := StartAfterField(cells, n, f0, f, k);
    }
  }

  lemma StartWithoutField(cells: seq<Cell>, n: nat, k: nat)
    requires k < n <= |cells| && forall j :: 0 <= j < n && Off(j, k, n) < n ==> cells[j].fa == 0
    ensures FieldStart(cells, n, 0, -1, 0, Off(0, k, n)) && Off(0, k, n) < PostCount(-1, n)
  {
    forall j | 0 <= j < Off(0, k, n) ensures cells[At(0, j, n)].fa == 0 {
      assert Off(At(0, j, n), k, n) < n;
    }
  }

  lemma StartAfterField(cells: seq<Cell>, n: nat, f0: nat, f: nat, k: nat) returns (e: nat)
    requires k < n <= |cells| && f0 < n && f < n && cells[f0].fa != 0 && cells[f].fa != 0 && cells[k].fa == 0
    requires forall j :: 0 <= j < n && Off(j, k, n) < Off(f, k, n) ==> cells[j].fa == 0
    requires forall j :: 0 <= j < n && Off(j, 0, n) < Off(f0, 0, n) ==> cells[j].fa == 0
    ensures var b0 := Inc(f0, n);
            FieldStart(cells, n, b0, f, e, Off(b0, k, n)) && Off(b0, k, n) < PostCount(f0, n)
  {
    var b0 := Inc(f0, n);
    var i := Off(b0, k, n);
    e := if f == f0 then 0 else Off(b0, f, n) + 1;
    assert Off(f0, k, n) == i + 1;
    forall j | e <= j < i ensures cells[At(b0, j, n)].fa == 0 {
      assert Off(At(b0, j, n), k, n) == i - j;
    }
  }

  /** On an even-sized screen whose double-byte data is only between SO and SI, a pass without
      errors leaves marks that agree with the left-looking scan at every ordinary position, also in
      fields that wrap round the screen. */
  lemma MarksAgree(cells: seq<Cell>, n: nat, formatted: bool, k: nat)
    requires k < n <= |cells| && n % 2 == 0 && OnlySubfields(cells, n)
    requires formatted == HasField(cells, n) && Ordinary(cells[k])
    requires PostProcess(true, cells, n, formatted).ok
    ensures var r := PostProcess(true, cells, n, formatted).cells;
            Ordinary(r[k]) && LookLeft(true, r, n, formatted, k).state == Answer(r[k].db)
  {
    hide PostAfter, PostStep, Back, Expected, OpenShift;
    var f0 := PostField(cells, n, formatted);
    var b0, count := PostBegin(f0, n), PostCount(f0, n);
    var p := PostAfter(PostInit(cells, n, f0), n, b0, count);
    var r := p.cells;
    FollowsAfter(cells, n, f0, b0, count);
    var i := Off(b0, k, n);
    SameAttributes(cells, r, n, formatted, k);
    var e := FieldStartOf(r, n, formatted, k);
    SameAttributes(cells, r, n, formatted, 0);
    var f := FindField(r, n, formatted, k);
    OpenShiftIsBack(r, n, b0, f, e, i, false);
    SameBack(r, cells, n, b0, i, false);
    assert At(b0, i, n) == k;
    assert Answer(r[k].db) == Expected(cells, n, b0, i);
    ExpectedLook(cells, n, b0, i, OpenShift(r, n, f, Dec(k, n), false));
  }

  lemma SameAttributes(c1: seq<Cell>, c2: seq<Cell>, n: nat, formatted: bool, k: nat)
    requires k < n <= |c1| == |c2| && forall j :: 0 <= j < n ==> c1[j].fa == c2[j].fa
    ensures FindField(c1, n, formatted, k) == FindField(c2, n, formatted, k)
    ensures HasField(c1, n) == HasField(c2, n)
  {
    SameFindBack(c1, c2, n, k, n);
    assert HasField(c1, n) ==> HasField(c2, n) by {
      if HasField(c1, n) {
        var j :| 0 <= j < n && c1[j].fa != 0;
        assert c2[j].fa != 0;
      }
    }
    assert HasField(c2, n) ==> HasField(c1, n) by {
      if HasField(c2, n) {
        var j :| 0 <= j < n && c2[j].fa != 0;
        assert c1[j].fa != 0;
      }
    }
  }

  // The distance to the open SO has the same parity as an address difference.
  lemma ExpectedLook(cells: seq<Cell>, n: nat, b0: nat, i: nat, so: int)
    requires b0 < n <= |cells| && i < n && n % 2 == 0
    requires var t := Back(cells, n, b0, i, false); so == if t < 0 then -1 else At(b0, t, n)
    ensures Expected(cells, n, b0, i)
            == if so < 0 then DbNone else Half(At(b0, i, n) + n - so)
  {
    hide Back;
    var t := Back(cells, n, b0, i, false);
    if t >= 0 {
      HalfParity(b0, t, i, n);
    }
  }
}
