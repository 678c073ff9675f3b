/**
 Editing a field from the keyboard: making room for one character (ins_prep), typing it (the plain single-byte
 path of key_Character) and deleting it (do_delete) (Common/kybd.c:1009-1107, 1153-1390, 2116-2189), in fields
 that do not wrap the screen.
 */
module FieldEdit {
  import opened Bytes
  import opened Screen

  const EBC_UNDERSCORE: byte := 0x6D

  datatype Toggles = Toggles(insert: bool, blankFill: bool, underscoreFill: bool, reverse: bool)

  // --- Moving cells -----------------------------------------------------------------------------

  // ctlr_bcopy: the cells after a block was copied.
  function Moved(s: seq<Cell>, from: nat, to: nat, count: nat): (r: seq<Cell>)
    requires from + count <= |s| && to + count <= |s|
    ensures |r| == |s|
  {
    s[..to] + s[from..from + count] + s[to + count..]
  }

  method Bcopy(cells: array<Cell>, from: nat, to: nat, count: nat)
    requires from + count <= cells.Length && to + count <= cells.Length
    modifies cells
    ensures cells[..] == Moved(old(cells[..]), from, to, count)
  {
    forall i | 0 <= i < count {
      cells[to + i] := cells[from + i];
    }
  }

  // --- The end of a field -------------------------------------------------------------------------

  // The next attribute after `x`, or `f` after a whole lap.
  function NextField(cells: seq<Cell>, n: nat, f: nat, x: nat): (r: nat)
    requires f < n <= |cells| && x < n
    ensures r < n && (r == f || cells[r].fa != 0)
    decreases Off(x, f, n)
  {
    if x == f || cells[x].fa != 0 then x else NextField(cells, n, f, Inc(x, n))
  }

  // Where the search for room stops.  On an unformatted screen the last cell is not used.
  function Limit(cells: seq<Cell>, n: nat, f: int): (r: nat)
    requires 0 < n <= |cells| && -1 <= f < n
    ensures r < n
  {
    if f == -1 then n - 1 else NextField(cells, n, f, Inc(f, n))
  }

  // The end of the cells that can be used, when these do not wrap.
  function End(cells: seq<Cell>, n: nat, f: int): nat
    requires 0 < n <= |cells| && -1 <= f < n
  {
    var limit := Limit(cells, n, f);
    if f >= 0 && limit == 0 then n else limit
  }

  method FindLimit(cells: array<Cell>, n: nat, f: int) returns (limit: nat)
    requires 0 < n <= cells.Length && -1 <= f < n
    ensures limit == Limit(cells[..], n, f)
  {
    if f == -1 {
      return n - 1;
    }
    limit := Inc(f, n);
    while limit != f && cells[limit].fa == 0
      invariant limit < n && Limit(cells[..], n, f) == NextField(cells[..], n, f, limit)
      decreases Off(limit, f, n)
    {
      limit := Inc(limit, n);
    }
  }

  // --- Making room --------------------------------------------------------------------------------

  function FirstNull(s: seq<Cell>): (k: nat)
    ensures k <= |s| && (forall i :: 0 <= i < k ==> s[i].ec != EBC_NULL)
    ensures k < |s| ==> s[k].ec == EBC_NULL
  {
    if s == [] || s[0].ec == EBC_NULL then 0 else FirstNull(s[1..]) + 1
  }

  predicate IsBlank(t: Toggles, c: Cell)
  {
    t.blankFill && (c.ec == EBC_SPACE || (t.underscoreFill && c.ec == EBC_UNDERSCORE))
  }

  // There is a NUL, or the last cell is a blank that may be given up.
  predicate HasRoom(t: Toggles, s: seq<Cell>)
  {
    FirstNull(s) < |s| || (s != [] && IsBlank(t, s[|s| - 1]))
  }

  // The cell that is given up.
  function GivenUp(s: seq<Cell>): (k: nat)
    requires s != []
    ensures k < |s|
  {
    if FirstNull(s) < |s| then FirstNull(s) else |s| - 1
  }

  /** The cells from the cursor on with a hole in front and one cell given up; the hole keeps its old cell until
      a character is stored. */
  function Opened(s: seq<Cell>, k: nat): (r: seq<Cell>)
    requires k < |s|
    ensures |r| == |s|
  {
    [s[0]] + s[..k] + s[k + 1..]
  }

  datatype Room = Overflow | NoRoom | Ready

  function RoomFor(t: Toggles, s: seq<Cell>): Room
  {
    if HasRoom(t, s) then Ready else if t.reverse then NoRoom else Overflow
  }

  // The screen after making room at `b` among the cells up to `e`.
  function Prepared(t: Toggles, cells: seq<Cell>, b: nat, e: nat): (r: seq<Cell>)
    requires b <= e <= |cells|
    ensures |r| == |cells|
  {
    var s := cells[b..e];
    if HasRoom(t, s) then cells[..b] + Opened(s, GivenUp(s)) + cells[e..] else cells
  }

  // A place for a character: not on an attribute, and in a field that does not wrap.
  predicate Placed(cells: seq<Cell>, n: nat, f: int, b: nat)
  {
    && -1 <= f < n <= |cells| && b < n
    && (f >= 0 ==> cells[f].fa != 0) && cells[b].fa == 0
    && b <= End(cells, n, f)
  }

  // The address `i` cells after `b`, up to the end of the buffer.
  function Step(b: nat, i: nat, n: nat): nat { if b + i == n then 0 else b + i }

  lemma LimitElsewhere(cells: seq<Cell>, n: nat, f: int, b: nat)
    requires Placed(cells, n, f, b)
    ensures var e := End(cells, n, f);
            b <= e <= n && Limit(cells, n, f) == Step(b, e - b, n) && (b == 0 ==> e < n)
    ensures b == End(cells, n, f) ==> f == -1
  {
  }

  lemma StepReaches(b: nat, i: nat, e: nat, n: nat)
    requires b <= b + i <= e <= n && b < n && (b == 0 ==> e < n)
    ensures Step(b, i, n) == Step(b, e - b, n) <==> b + i == e
    ensures b + i < e ==> Step(b, i, n) == b + i < n && Inc(b + i, n) == Step(b, i + 1, n)
  {
  }

  lemma StepStarts(b: nat, n: nat)
    requires b < n
    ensures Step(b, 0, n) == b
  {
  }

  lemma StepEnds(b: nat, e: nat, n: nat)
    requires b <= e <= n && b < n && (b == 0 ==> e < n)
    ensures var limit := Step(b, e - b, n); (if limit < b then limit - b + n else limit - b) == e - b
  {
  }

  // Are there enough NULs or trailing blanks?
  method LookForRoom(cells: array<Cell>, n: nat, t: Toggles, limit: nat, b: nat, ghost e: nat)
    returns (ok: bool)
    requires b <= e <= n <= cells.Length && b < n && limit == Step(b, e - b, n) && (b == 0 ==> e < n)
    ensures ok == HasRoom(t, cells[b..e])
  {
    hide IsBlank, Step, Inc;
    ghost var s := cells[b..e];
    var x: nat, need: int, ntb: int := b, 1, 0;
    ghost var i: nat := 0;
    StepStarts(b, n);
    StepReaches(b, i, e, n);
    while need > 0 && x != limit
      invariant 0 <= i <= |s| && 0 <= need <= 1 && ntb >= 0 && x == Step(b, i, n)
      invariant need == 0 ==> FirstNull(s) < |s|
      invariant need == 1 ==> i <= FirstNull(s) && (ntb > 0 <==> i > 0 && IsBlank(t, s[i - 1]))
      invariant x == limit <==> i == |s|
      decreases need, |s| - i
    {
      StepReaches(b, i, e, n);
      StepReaches(b, i + 1, e, n);
      assert cells[x] == s[i];
      if cells[x].ec == EBC_NULL {
        need := need - 1;
      } else if IsBlank(t, cells[x]) {
        ntb := ntb + 1;
      } else {
        ntb := 0;
      }
      x, i := Inc(x, n), i + 1;
    }
    ok := need - ntb <= 0;
  }

  // Shift right until a NUL is consumed, or else over the last blank.
  method ShiftRight(cells: array<Cell>, n: nat, limit: nat, b: nat, ghost e: nat)
    requires b < e <= n <= cells.Length && limit == Step(b, e - b, n) && (b == 0 ==> e < n)
    modifies cells
    ensures cells[..] == Moved(old(cells[..]), b, b + 1, GivenUp(old(cells[b..e])))
  {
    hide FirstNull, Moved, Step, Inc;
    ghost var s := cells[b..e];
    var x: nat := b;
    ghost var i: nat := 0;
    StepStarts(b, n);
    StepReaches(b, i, e, n);
    StepEnds(b, e, n);
    NothingMoves(cells[..], b);
    while x != limit
      invariant 0 <= i <= |s| && x == Step(b, i, n)
      invariant i <= FirstNull(s) && cells[..] == old(cells[..])
      invariant x == limit <==> i == |s|
      decreases |s| - i
    {
      StepReaches(b, i, e, n);
      StepReaches(b, i + 1, e, n);
      assert cells[x] == s[i];
      if cells[x].ec == EBC_NULL {
        if x > b {
          Bcopy(cells, b, b + 1, x - b);
        }
        return;
      }
      x, i := Inc(x, n), i + 1;
    }
    var copyLen := (if limit < b then limit - b + n else limit - b) - 1;
    Bcopy(cells, b, b + 1, copyLen);
  }

  lemma NothingMoves(cells: seq<Cell>, b: nat)
    requires b + 1 <= |cells|
    ensures Moved(cells, b, b + 1, 0) == cells
  {
  }

  /** ins_prep for one cell: nothing outside the field moves, and of the old cells only the first NUL is lost, or
      without a NUL the last blank. */
  method InsPrep(cells: array<Cell>, n: nat, t: Toggles, f: int, b: nat) returns (r: Room)
    requires n <= cells.Length && Placed(cells[..], n, f, b)
    modifies cells
    ensures var e := End(old(cells[..]), n, f);
            && r == RoomFor(t, old(cells[..])[b..e])
            && cells[..] == Prepared(t, old(cells[..]), b, e)
  {
    hide Limit, IsBlank, FirstNull, Moved, Opened, HasRoom, Step;
    var limit := FindLimit(cells, n, f);
    LimitElsewhere(cells[..], n, f, b);
    ghost var e := End(cells[..], n, f);
    var ok := LookForRoom(cells, n, t, limit, b, e);
    assert cells[..][b..e] == cells[b..e];
    if !ok {
      return if t.reverse then NoRoom else Overflow;
    }
    NoRoomAtAll(t);
    MovedOpens(cells[..], b, e, GivenUp(cells[b..e]));
    ShiftRight(cells, n, limit, b, e);
    return Ready;
  }

  lemma NoRoomAtAll(t: Toggles)
    ensures !HasRoom(t, [])
  {
  }

  // Moving the cells in front of the one that is given up.
  lemma MovedOpens(cells: seq<Cell>, b: nat, e: nat, k: nat)
    requires b <= e <= |cells| && k < e - b
    ensures var s := cells[b..e]; Moved(cells, b, b + 1, k) == cells[..b] + Opened(s, k) + cells[e..]
    ensures k == 0 ==> Moved(cells, b, b + 1, k) == cells
  {
    var s := cells[b..e];
    var x, y := Moved(cells, b, b + 1, k), cells[..b] + Opened(s, k) + cells[e..];
    assert |x| == |y| == |cells|;
    forall i | 0 <= i < |cells|
      ensures x[i] == y[i]
    {
    }
    assert x == y;
  }

  // --- Typing -------------------------------------------------------------------------------------

  predicate IsNumeric(fa: byte) { fa / 16 % 2 == 1 }

  // A character cell as the keyboard stores it.
  function Typed(c: Cell, ebc: byte, cs: byte): Cell
  {
    WithChar(c, ebc, cs).(fg := 0, gr := 0)
  }

  function Modified(cells: seq<Cell>, f: int): (r: seq<Cell>)
    requires -1 <= f < |cells|
    ensures |r| == |cells|
  {
    if f < 0 || IsModified(cells[f].fa) then cells else cells[f := cells[f].(fa := cells[f].fa + 1)]
  }

  datatype Key = Protected | Numeric | DbcsField | FieldFull | Dropped | Accepted

  /** The plain path: no double-byte data, blank fill off.  Where there is no room with reverse input, the
      character is dropped. */
  method TypeChar(cells: array<Cell>, n: nat, t: Toggles, f: int, fa: byte, b: nat, ebc: byte, ge: bool,
                  numericLock: bool) returns (r: Key)
    requires n <= cells.Length && b < n && -1 <= f < n && !t.blankFill
    requires cells[b].fa == 0 ==> Placed(cells[..], n, f, b)
    modifies cells
    ensures var c := old(cells[..]);
            var e := End(c, n, f);
            var makesRoom := t.reverse || t.insert;
            && r == (if c[b].fa != 0 || IsProtected(fa) then Protected
                     else if IsNumeric(fa) && numericLock && !IsNumericKey(ebc) then Numeric
                     else if f >= 0 && c[f].cs == CS_DBCS then DbcsField
                     else if makesRoom && !HasRoom(t, c[b..e]) then if t.reverse then Dropped else FieldFull
                     else Accepted)
            && cells[..] == (if r == Accepted then
                               var p := if makesRoom then Prepared(t, c, b, e) else c;
                               Modified(p[b := Typed(p[b], ebc, if ge then CS_GE else CS_BASE)], f)
                             else if r == Dropped then Modified(c, f)
                             else c)
    // The character is there, and around it only the cells that made room have moved, of which the field attribute
    // is none.
    ensures r == Accepted && (t.reverse || t.insert ==> !(b < f < End(old(cells[..]), n, f))) ==>
              CharacterTyped(old(cells[..]), cells[..], f, b, ebc, if ge then CS_GE else CS_BASE,
                             RoomMade(t, old(cells[..])[b..End(old(cells[..]), n, f)]))
    ensures r == Dropped ==> OnlyFlagged(old(cells[..]), cells[..], f)
  {
    hide Limit, Prepared, HasRoom, CharacterTyped, OnlyFlagged;
    ghost var c, e := cells[..], End(cells[..], n, f);
    if cells[b].fa != 0 || IsProtected(fa) {
      return Protected;
    }
    if IsNumeric(fa) && numericLock && !IsNumericKey(ebc) {
      return Numeric;
    }
    if f >= 0 && cells[f].cs == CS_DBCS {
      return DbcsField;
    }
    var noRoom := false;
    if t.reverse || t.insert {
      UnchangedWithoutRoom(t, cells[..], b, End(cells[..], n, f));
      var room := InsPrep(cells, n, t, f, b);
      if room == Overflow {
        return FieldFull;
      }
      noRoom := room == NoRoom;
    }
    if !noRoom {
      cells[b] := Typed(cells[b], ebc, if ge then CS_GE else CS_BASE);
    }
    MdtSet(cells, f);
    if noRoom {
      FlaggedIs(c, f);
    } else if t.reverse || t.insert ==> !(b < f < e) {
      TypedIs(t, c, f, b, e, ebc, if ge then CS_GE else CS_BASE);
    }
    return if noRoom then Dropped else Accepted;
  }

  // How many cells from the cursor on move right: in insert or reverse mode, those in front of the first NUL.
  function RoomMade(t: Toggles, s: seq<Cell>): nat
  {
    if t.reverse || t.insert then FirstNull(s) else 0
  }

  // A cell whose field attribute says that the field was modified.
  function Flagged(c: Cell): Cell { if c.fa % 2 == 1 then c else c.(fa := c.fa + 1) }

  // Nothing but the modified flag of the field attribute is different.
  predicate OnlyFlagged(before: seq<Cell>, after: seq<Cell>, f: int)
  {
    |before| == |after| && forall k :: 0 <= k < |before| ==>
      after[k] == if k == f then Flagged(before[k]) else before[k]
  }

  /** The cell at `b` holds the character and has no attributes of its own; the `m` cells from there on have moved
      right by one, and the field attribute says that the field was modified. */
  predicate CharacterTyped(before: seq<Cell>, after: seq<Cell>, f: int, b: nat, ebc: byte, cs: byte, m: nat)
  {
    && b < |before| == |after|
    && after[b] == before[b].(ec := ebc, cs := cs, fa := 0, ucs4 := 0, fg := 0, gr := 0)
    && forall k :: 0 <= k < |before| && k != b ==>
         after[k] == if k == f then Flagged(before[k]) else if b < k <= b + m then before[k - 1] else before[k]
  }

  lemma FlaggedIs(c: seq<Cell>, f: int)
    requires -1 <= f < |c|
    ensures OnlyFlagged(c, Modified(c, f), f)
  {
  }

  lemma TypedIs(t: Toggles, c: seq<Cell>, f: int, b: nat, e: nat, ebc: byte, cs: byte)
    requires -1 <= f < |c| && b < |c| && b <= e <= |c| && f != b && !t.blankFill
    requires t.reverse || t.insert ==> HasRoom(t, c[b..e]) && !(b < f < e)
    ensures var p := if t.reverse || t.insert then Prepared(t, c, b, e) else c;
            CharacterTyped(c, Modified(p[b := Typed(p[b], ebc, cs)], f), f, b, ebc, cs, RoomMade(t, c[b..e]))
  {
    hide Prepared, HasRoom, FirstNull;
    if t.reverse || t.insert {
      RoomNotEmpty(t, c, b, e);
      RoomIsNull(t, c[b..e]);
      var p := Prepared(t, c, b, e);
      forall k {:trigger p[k]} | 0 <= k < |c|
        ensures p[k] == if b < k <= b + FirstNull(c[b..e]) then c[k - 1] else c[k]
      {
        PreparedAt(t, c, b, e, k);
      }
      MovedTyped(c, p, f, b, e, FirstNull(c[b..e]), ebc, cs);
    } else {
      MovedTyped(c, c, f, b, e, 0, ebc, cs);
    }
  }

  lemma MovedTyped(c: seq<Cell>, p: seq<Cell>, f: int, b: nat, e: nat, m: nat, ebc: byte, cs: byte)
    requires -1 <= f < |c| == |p| && b < |c| && f != b && (m == 0 || (b + m < e && !(b < f < e)))
    requires forall k {:trigger p[k]} :: 0 <= k < |c| ==> p[k] == if b < k <= b + m then c[k - 1] else c[k]
    ensures CharacterTyped(c, Modified(p[b := Typed(p[b], ebc, cs)], f), f, b, ebc, cs, m)
  {
    var q := p[b := Typed(p[b], ebc, cs)];
    assert p[b] == c[b];
    ModifiedIs(q, f);
    assert f >= 0 ==> q[f] == c[f];
  }

  lemma ModifiedIs(c: seq<Cell>, f: int)
    requires -1 <= f < |c|
    ensures var r := Modified(c, f);
            forall k :: 0 <= k < |c| ==> r[k] == if k == f then Flagged(c[k]) else c[k]
  {
  }

  lemma UnchangedWithoutRoom(t: Toggles, cells: seq<Cell>, b: nat, e: nat)
    requires b <= e <= |cells|
    ensures !HasRoom(t, cells[b..e]) ==> Prepared(t, cells, b, e) == cells
  {
  }

  predicate IsNumericKey(ebc: byte) { 0xF0 <= ebc <= 0xF9 || ebc in {0x4E, 0x60, 0x4B, 0x6B} }

  // mdt_set
  method MdtSet(cells: array<Cell>, f: int)
    requires -1 <= f < cells.Length
    modifies cells
    ensures cells[..] == Modified(old(cells[..]), f)
  {
    if f >= 0 && !IsModified(cells[f].fa) {
      cells[f] := cells[f].(fa := cells[f].fa + 1);
    }
  }

  // --- Deleting -----------------------------------------------------------------------------------

  // The last cell that deleting at `b` moves.
  function LastCell(cells: seq<Cell>, n: nat, formatted: bool, b: nat): (r: nat)
    requires b < n <= |cells|
    ensures r < n
  {
    if formatted then Dec(NextField(cells, n, b, Inc(b, n)), n) else n - 1
  }

  // The screen after one cell was deleted: the rest of the field moves left, and a NUL fills its end.
  function Deleted(cells: seq<Cell>, b: nat, last: nat): (r: seq<Cell>)
    requires b <= last < |cells|
    ensures |r| == |cells|
  {
    cells[..b] + cells[b + 1..last + 1] + [WithChar(cells[last], EBC_NULL, CS_BASE)] + cells[last + 1..]
  }

  /** do_delete of a single-byte character in a field that does not wrap. */
  method DoDelete(cells: array<Cell>, n: nat, formatted: bool, f: int, fa: byte, b: nat) returns (ok: bool)
    requires -1 <= f < n <= cells.Length && b < n
    requires b <= LastCell(cells[..], n, formatted, b)
    modifies cells
    ensures ok <==> !IsProtected(fa) && old(cells[b].fa) == 0
    ensures cells[..] == if ok then Modified(Deleted(old(cells[..]), b, LastCell(old(cells[..]), n, formatted, b)), f)
                         else old(cells[..])
    // Cell by cell; the field attribute is none of the cells that move.
    ensures ok && !(b <= f <= LastCell(old(cells[..]), n, formatted, b)) ==>
              CharacterDeleted(old(cells[..]), cells[..], f, b, LastCell(old(cells[..]), n, formatted, b))
  {
    hide Modified, Deleted, LastCell, Moved, CharacterDeleted;
    ghost var was := cells[..];
    if IsProtected(fa) || cells[b].fa != 0 {
      return false;
    }
    var last := FindLast(cells, n, formatted, b);
    ghost var c := cells[..];
    if last > b {
      Bcopy(cells, b + 1, b, last - b);
    }
    DeletedIs(c, b, last);
    assert cells[..][last] == c[last];
    cells[last] := WithChar(cells[last], EBC_NULL, CS_BASE);
    assert cells[..] == Deleted(c, b, last);
    MdtSet(cells, f);
    assert c == was;
    if !(b <= f <= last) {
      DeletedCells(c, f, b, last);
    }
    return true;
  }

  /** The cells behind `b` have moved left by one, up to `last`, which holds a null of the base set in what is left of
      the cell that was there; and the field attribute says that the field was modified. */
  predicate CharacterDeleted(before: seq<Cell>, after: seq<Cell>, f: int, b: nat, last: nat)
  {
    last < |before| == |after| && forall k :: 0 <= k < |before| ==>
      after[k] == if k == f then Flagged(before[k])
                  else if k == last then before[k].(ec := 0, cs := 0, fa := 0, ucs4 := 0)
                  else if b <= k < last then before[k + 1] else before[k]
  }

  lemma DeletedCells(c: seq<Cell>, f: int, b: nat, last: nat)
    requires b <= last < |c| && -1 <= f < |c| && !(b <= f <= last)
    ensures CharacterDeleted(c, Modified(Deleted(c, b, last), f), f, b, last)
  {
    var d := Deleted(c, b, last);
    ModifiedIs(d, f);
    assert f >= 0 ==> d[f] == c[f];
  }

  method FindLast(cells: array<Cell>, n: nat, formatted: bool, b: nat) returns (last: nat)
    requires b < n <= cells.Length
    ensures last == LastCell(cells[..], n, formatted, b)
  {
    if !formatted {
      return n - 1;
    }
    last := Inc(b, n);
    while last != b && cells[last].fa == 0
      invariant last < n && NextField(cells[..], n, b, Inc(b, n)) == NextField(cells[..], n, b, last)
      decreases Off(last, b, n)
    {
      last := Inc(last, n);
    }
    last := Dec(last, n);
  }

  lemma DeletedIs(c: seq<Cell>, b: nat, last: nat)
    requires b <= last < |c|
    ensures var m := if last > b then Moved(c, b + 1, b, last - b) else c;
            m[last] == c[last] && m[last := WithChar(m[last], EBC_NULL, CS_BASE)] == Deleted(c, b, last)
  {
  }

  // --- Typing and deleting ----------------------------------------------------------------------------

  // The characters on the screen.
  function Codes(cells: seq<Cell>): (r: seq<byte>)
    ensures |r| == |cells| && forall i :: 0 <= i < |r| ==> r[i] == cells[i].ec
  {
    seq(|cells|, i requires 0 <= i < |cells| => cells[i].ec)
  }

  // Nothing but NULs from the first NUL on.
  predicate NullTail(s: seq<Cell>)
  {
    forall i :: FirstNull(s) <= i < |s| ==> s[i].ec == EBC_NULL
  }

  lemma NullAt(s: seq<Cell>, i: nat)
    requires NullTail(s) && FirstNull(s) <= i < |s|
    ensures s[i].ec == EBC_NULL
  {
  }

  lemma TailIs(s: seq<Cell>, cells: seq<Cell>, b: nat)
    requires b + |s| <= |cells| && s == cells[b..b + |s|]
    requires forall i :: b + FirstNull(s) <= i < b + |s| ==> cells[i].ec == EBC_NULL
    ensures NullTail(s)
  {
  }

  /** The screen after a character was inserted at `b` and deleted again.  Here `e` is where inserting stops and
      `last` the last cell that deleting moves. */
  function InsertedDeleted(t: Toggles, cells: seq<Cell>, b: nat, e: nat, last: nat, f: int, ebc: byte, cs: byte)
    : (r: seq<Cell>)
    requires b < e <= last + 1 <= |cells| && -1 <= f < |cells|
    ensures |r| == |cells|
  {
    var p := Prepared(t, cells, b, e);
    Modified(Deleted(Modified(p[b := Typed(p[b], ebc, cs)], f), b, last), f)
  }

  /** With blank fill off, inserting a character and deleting it at the same place restores the characters of the
      screen if and only if, from the cursor to the end of what deleting moves, only NULs follow the first NUL. */
  lemma InsertThenDelete(t: Toggles, cells: seq<Cell>, b: nat, e: nat, last: nat, f: int, ebc: byte, cs: byte)
    requires !t.blankFill && b < e <= last + 1 <= |cells| && -1 <= f < |cells|
    requires HasRoom(t, cells[b..e])
    ensures Codes(InsertedDeleted(t, cells, b, e, last, f, ebc, cs)) == Codes(cells)
            <==> NullTail(cells[b..last + 1])
  {
    hide HasRoom, InsertedDeleted, NullTail, FirstNull;
    var s, d := cells[b..e], cells[b..last + 1];
    var k := FirstNull(s);
    RoomIsNull(t, s);
    assert s == d[..e - b];
    FirstNullPrefix(d, e - b);
    var after := InsertedDeleted(t, cells, b, e, last, f, ebc, cs);
    if NullTail(d) {
      forall i | 0 <= i < |cells|
        ensures after[i].ec == cells[i].ec
      {
        CodeAfter(t, cells, b, e, last, f, ebc, cs, i);
        if b + k <= i <= last {
          NullAt(d, i - b);
          assert cells[i] == d[i - b];
          if i < last {
            NullAt(d, i + 1 - b);
            assert cells[i + 1] == d[i + 1 - b];
          }
        }
      }
      assert Codes(after) == Codes(cells);
    } else if Codes(after) == Codes(cells) {
      forall i | b + k <= i < last
        ensures cells[i + 1].ec == cells[i].ec
      {
        CodeAfter(t, cells, b, e, last, f, ebc, cs, i);
        assert Codes(after)[i] == Codes(cells)[i];
      }
      NullsPropagate(cells, b + k, last);
      TailIs(d, cells, b);
      assert false;
    }
  }

  lemma FirstNullPrefix(d: seq<Cell>, m: nat)
    requires m <= |d| && FirstNull(d[..m]) < m
    ensures FirstNull(d) == FirstNull(d[..m])
  {
    var k, j := FirstNull(d[..m]), FirstNull(d);
    assert forall i :: 0 <= i < m ==> d[..m][i] == d[i];
  }

  lemma {:induction false} NullsPropagate(cells: seq<Cell>, k: nat, last: nat)
    requires k <= last < |cells| && cells[k].ec == EBC_NULL
    requires forall i :: k <= i < last ==> cells[i + 1].ec == cells[i].ec
    ensures forall i :: k <= i <= last ==> cells[i].ec == EBC_NULL
    decreases last - k
  {
    if k < last {
      NullsPropagate(cells, k + 1, last);
    }
  }

  // Each cell after making room.
  lemma PreparedAt(t: Toggles, cells: seq<Cell>, b: nat, e: nat, j: nat)
    requires b < e <= |cells| && j < |cells| && HasRoom(t, cells[b..e])
    ensures var k := GivenUp(cells[b..e]);
            Prepared(t, cells, b, e)[j] == if b < j <= b + k then cells[j - 1] else cells[j]
  {
    hide FirstNull, HasRoom;
    var s := cells[b..e];
    var k := GivenUp(s);
    var o := Opened(s, k);
    assert forall i :: 0 <= i < |s| ==> o[i] == if 0 < i <= k then s[i - 1] else s[i];
  }

  // Each character after inserting and deleting.
  lemma CodeAfter(t: Toggles, cells: seq<Cell>, b: nat, e: nat, last: nat, f: int, ebc: byte, cs: byte, i: nat)
    requires !t.blankFill && b < e <= last + 1 <= |cells| && -1 <= f < |cells| && i < |cells|
    requires HasRoom(t, cells[b..e])
    ensures var k := FirstNull(cells[b..e]);
            InsertedDeleted(t, cells, b, e, last, f, ebc, cs)[i].ec
            == if b + k <= i < last then cells[i + 1].ec else if i == last then EBC_NULL else cells[i].ec
  {
    hide Prepared, HasRoom, FirstNull;
    var s := cells[b..e];
    RoomIsNull(t, s);
    PreparedAt(t, cells, b, e, i);
    if i + 1 < |cells| {
      PreparedAt(t, cells, b, e, i + 1);
    }
    var p := Prepared(t, cells, b, e);
    DeletedAt(Modified(p[b := Typed(p[b], ebc, cs)], f), b, last, i);
  }

  lemma RoomIsNull(t: Toggles, s: seq<Cell>)
    requires !t.blankFill && HasRoom(t, s)
    ensures FirstNull(s) < |s| && GivenUp(s) == FirstNull(s)
  {
  }

  lemma DeletedAt(cells: seq<Cell>, b: nat, last: nat, i: nat)
    requires b <= last < |cells| && i < |cells|
    ensures Deleted(cells, b, last)[i].ec
            == if b <= i < last then cells[i + 1].ec else if i == last then EBC_NULL else cells[i].ec
  {
  }

  // --- Inserting and deleting work on the same field ----------------------------------------------------

  // The attribute found for `b` governs it: there is none behind it up to `b`.
  predicate Governs(cells: seq<Cell>, n: nat, f: nat, b: nat)
    requires f < n <= |cells| && b < n
  {
    cells[f].fa != 0 && f != b && forall k :: 0 <= k < n && 0 < Off(f, k, n) <= Off(f, b, n) ==> cells[k].fa == 0
  }

  lemma FoundGoverns(cells: seq<Cell>, n: nat, b: nat)
    requires b < n <= |cells| && cells[b].fa == 0 && FindBack(cells, n, b, n) >= 0
    ensures Governs(cells, n, FindBack(cells, n, b, n), b)
  {
    FindBackNearest(cells, n, b, n);
    var f := FindBack(cells, n, b, n);
    forall k | 0 <= k < n && 0 < Off(f, k, n) <= Off(f, b, n) ensures cells[k].fa == 0 {
      assert Off(k, b, n) < Off(f, b, n);
    }
  }

  lemma {:induction false} SkipsPlain(cells: seq<Cell>, n: nat, f: nat, x: nat, b: nat)
    requires f < n <= |cells| && b < n && x < n && Governs(cells, n, f, b) && 0 < Off(f, x, n) <= Off(f, b, n)
    ensures NextField(cells, n, f, x) == NextField(cells, n, f, Inc(b, n))
    decreases Off(x, b, n)
  {
    if x != b {
      SkipsPlain(cells, n, f, Inc(x, n), b);
    }
  }

  lemma {:induction false} SameSearch(cells: seq<Cell>, n: nat, f: nat, b: nat, x: nat)
    requires f < n <= |cells| && b < n && f != b && x < n && cells[f].fa != 0 && Off(x, f, n) < Off(b, f, n)
    ensures NextField(cells, n, f, x) == NextField(cells, n, b, x)
    decreases Off(x, f, n)
  {
    if x != f && cells[x].fa == 0 {
      SameSearch(cells, n, f, b, Inc(x, n));
    }
  }

  /** On a formatted screen, deleting moves exactly the cells that inserting may use. */
  lemma SameField(cells: seq<Cell>, n: nat, f: nat, b: nat)
    requires Placed(cells, n, f, b) && Governs(cells, n, f, b)
    ensures b < End(cells, n, f) == LastCell(cells, n, true, b) + 1
    ensures Limit(cells, n, f) == NextField(cells, n, b, Inc(b, n))
  {
    SkipsPlain(cells, n, f, Inc(f, n), b);
    SameSearch(cells, n, f, b, Inc(b, n));
    LimitElsewhere(cells, n, f, b);
  }

  // Up to the attribute that a search finds there is none.
  lemma {:induction false} SearchPasses(cells: seq<Cell>, n: nat, f: nat, x: nat)
    requires f < n <= |cells| && x < n
    ensures forall k :: 0 <= k < n && Off(x, k, n) < Off(x, NextField(cells, n, f, x), n) ==> cells[k].fa == 0
    decreases Off(x, f, n)
  {
    if x != f && cells[x].fa == 0 {
      var y := Inc(x, n);
      SearchPasses(cells, n, f, y);
      assert forall k :: 0 <= k < n && k != x ==> Off(x, k, n) == Off(y, k, n) + 1;
    }
  }

  // The field attribute of a place, as the keyboard looks it up.
  predicate Located(cells: seq<Cell>, n: nat, formatted: bool, f: int, b: nat)
    requires b < n <= |cells|
  {
    formatted == HasField(cells, n) && f == FindField(cells, n, formatted, b)
  }

  // The cells in which a character is inserted and deleted.
  lemma RoomIsPlain(cells: seq<Cell>, n: nat, formatted: bool, f: int, b: nat)
    requires b < n <= |cells| && Located(cells, n, formatted, f, b) && Placed(cells, n, f, b)
    requires b < End(cells, n, f)
    ensures formatted == (f >= 0)
    ensures End(cells, n, f) <= LastCell(cells, n, formatted, b) + 1
    ensures forall k :: b <= k < End(cells, n, f) ==> cells[k].fa == 0
  {
    hide FindBack, NextField;
    FindBackComplete(cells, n, b);
    if f >= 0 {
      FoundGoverns(cells, n, b);
      SameField(cells, n, f, b);
      SearchPasses(cells, n, b, Inc(b, n));
      LimitElsewhere(cells, n, f, b);
      forall k | b < k < End(cells, n, f) ensures cells[k].fa == 0 {
        assert Off(Inc(b, n), k, n) < Off(Inc(b, n), NextField(cells, n, b, Inc(b, n)), n);
      }
    }
  }

  // --- What editing keeps --------------------------------------------------------------------------------

  predicate SameFields(c1: seq<Cell>, c2: seq<Cell>)
  {
    |c1| == |c2| && forall k :: 0 <= k < |c1| ==> (c1[k].fa == 0 <==> c2[k].fa == 0)
  }

  lemma {:induction false} SameNext(c1: seq<Cell>, c2: seq<Cell>, n: nat, f: nat, x: nat)
    requires f < n <= |c1| && x < n && SameFields(c1, c2)
    ensures NextField(c1, n, f, x) == NextField(c2, n, f, x)
    decreases Off(x, f, n)
  {
    if x != f && c1[x].fa == 0 {
      SameNext(c1, c2, n, f, Inc(x, n));
    }
  }

  lemma {:induction false} SameBack(c1: seq<Cell>, c2: seq<Cell>, n: nat, a: nat, j: nat)
    requires a < n <= |c1| && SameFields(c1, c2)
    ensures FindBack(c1, n, a, j) == FindBack(c2, n, a, j)
    decreases j
  {
    if j > 0 && c1[a].fa == 0 {
      SameBack(c1, c2, n, Dec(a, n), j - 1);
    }
  }

  lemma SameHasField(c1: seq<Cell>, c2: seq<Cell>, n: nat)
    requires n <= |c1| && SameFields(c1, c2)
    ensures HasField(c1, n) == HasField(c2, n)
  {
    forall k | 0 <= k < n ensures c1[k].fa != 0 <==> c2[k].fa != 0 {
    }
    assert HasField(c1, n) <==> exists k :: 0 <= k < n && c1[k].fa != 0;
    if HasField(c1, n) {
      var k :| 0 <= k < n && c1[k].fa != 0;
      assert c2[k].fa != 0;
    }
  }

  // The screen after typing a character with room for it.
  function AfterTyping(t: Toggles, cells: seq<Cell>, n: nat, f: int, b: nat, ebc: byte, cs: byte): (r: seq<Cell>)
    requires Placed(cells, n, f, b)
    ensures |r| == |cells|
  {
    var p := Prepared(t, cells, b, End(cells, n, f));
    Modified(p[b := Typed(p[b], ebc, cs)], f)
  }

  lemma TypingKeepsFields(t: Toggles, cells: seq<Cell>, n: nat, formatted: bool, f: int, b: nat, ebc: byte, cs: byte)
    requires b < n <= |cells| && Located(cells, n, formatted, f, b) && Placed(cells, n, f, b)
    requires b < End(cells, n, f) && HasRoom(t, cells[b..End(cells, n, f)])
    ensures SameFields(cells, AfterTyping(t, cells, n, f, b, ebc, cs))
  {
    hide Prepared, End, HasRoom, FindField, LastCell, GivenUp;
    RoomIsPlain(cells, n, formatted, f, b);
    var e := End(cells, n, f);
    forall j | 0 <= j < |cells| ensures Prepared(t, cells, b, e)[j].fa == cells[j].fa {
      PreparedAt(t, cells, b, e, j);
    }
  }

  /** Typing a character leaves the attributes where they were, so that deleting it finds the same field. */
  lemma TypingKeepsPlace(t: Toggles, cells: seq<Cell>, n: nat, formatted: bool, f: int, b: nat, ebc: byte, cs: byte)
    requires b < n <= |cells| && Located(cells, n, formatted, f, b) && Placed(cells, n, f, b)
    requires b < End(cells, n, f) && HasRoom(t, cells[b..End(cells, n, f)])
    ensures var r := AfterTyping(t, cells, n, f, b, ebc, cs);
            && Located(r, n, formatted, f, b) && r[b].fa == 0
            && LastCell(r, n, formatted, b) == LastCell(cells, n, formatted, b)
  {
    hide AfterTyping, Limit, HasRoom, NextField, FindBack, HasField;
    var r := AfterTyping(t, cells, n, f, b, ebc, cs);
    TypingKeepsFields(t, cells, n, formatted, f, b, ebc, cs);
    SameHasField(cells, r, n);
    SameBack(cells, r, n, b, n);
    SameNext(cells, r, n, b, Inc(b, n));
  }

  /** With blank fill off, typing a character in insert or reverse mode and then deleting it restores the
      characters of the screen if and only if, from the cursor to the last cell that deleting moves, only NULs
      follow the first NUL. */
  lemma TypeThenDelete(t: Toggles, cells: seq<Cell>, n: nat, formatted: bool, f: int, b: nat, ebc: byte, cs: byte)
    requires !t.blankFill && b < n <= |cells| && Located(cells, n, formatted, f, b) && Placed(cells, n, f, b)
    requires HasRoom(t, cells[b..End(cells, n, f)])
    ensures var typed := AfterTyping(t, cells, n, f, b, ebc, cs);
            var last := LastCell(typed, n, formatted, b);
            && last == LastCell(cells, n, formatted, b) && b <= last
            && (Codes(Modified(Deleted(typed, b, last), f)) == Codes(cells) <==> NullTail(cells[b..last + 1]))
  {
    hide Limit, HasRoom, FindField, LastCell, Codes, NullTail, Located, Deleted, Prepared;
    RoomNotEmpty(t, cells, b, End(cells, n, f));
    RoomIsPlain(cells, n, formatted, f, b);
    TypingKeepsPlace(t, cells, n, formatted, f, b, ebc, cs);
    InsertThenDelete(t, cells, b, End(cells, n, f), LastCell(cells, n, formatted, b), f, ebc, cs);
  }

  lemma RoomNotEmpty(t: Toggles, cells: seq<Cell>, b: nat, e: nat)
    requires b <= e <= |cells| && HasRoom(t, cells[b..e])
    ensures b < e
  {
  }

  lemma LocatedField(cells: seq<Cell>, n: nat, formatted: bool, f: int, b: nat)
    requires b < n <= |cells| && Located(cells, n, formatted, f, b)
    ensures -1 <= f < n
  {
  }

  // Setting the modified flag does not change the protection.
  lemma KeepsProtection(t: Toggles, cells: seq<Cell>, n: nat, f: int, b: nat, ebc: byte, cs: byte)
    requires Placed(cells, n, f, b) && b < End(cells, n, f) && HasRoom(t, cells[b..End(cells, n, f)])
    requires f >= 0 ==> !(b < f < End(cells, n, f))
    ensures f >= 0 ==> IsProtected(AfterTyping(t, cells, n, f, b, ebc, cs)[f].fa) == IsProtected(cells[f].fa)
  {
    hide Prepared, HasRoom, End, GivenUp;
    if f >= 0 {
      LimitElsewhere(cells, n, f, b);
      PreparedAt(t, cells, b, End(cells, n, f), f);
      GivenUpInside(cells[b..End(cells, n, f)]);
    }
  }

  lemma GivenUpInside(s: seq<Cell>)
    requires s != []
    ensures GivenUp(s) < |s|
  {
  }

  lemma SameCodes(cells: seq<Cell>, f: int)
    requires -1 <= f < |cells|
    ensures Codes(Modified(cells, f)) == Codes(cells)
  {
  }

  /** The two keys one after the other: the character is accepted only if there is room for it, and then it can
      be deleted; the characters come back in exactly the case above.  A character that is not accepted
      changes none. */
  method TypeAndDelete(cells: array<Cell>, n: nat, t: Toggles, formatted: bool, f: int, b: nat, ebc: byte, ge: bool,
                       numericLock: bool) returns (r: Key, ok: bool)
    requires b < n <= cells.Length && !t.blankFill && (t.insert || t.reverse)
    requires Located(cells[..], n, formatted, f, b) && (cells[b].fa == 0 ==> Placed(cells[..], n, f, b))
    modifies cells
    ensures ok <==> r == Accepted
    ensures var c := old(cells[..]);
            var last := LastCell(c, n, formatted, b);
            Codes(cells[..]) == Codes(c) <==> (r == Accepted ==> b <= last && NullTail(c[b..last + 1]))
  {
    hide Limit, HasRoom, FindBack, HasField, LastCell, Codes, NullTail, Located, Deleted, Prepared;
    ghost var c := cells[..];
    LocatedField(c, n, formatted, f, b);
    var fa: byte := if f < 0 then DUMMY.fa else cells[f].fa;
    r := TypeChar(cells, n, t, f, fa, b, ebc, ge, numericLock);
    ok := false;
    if r == Accepted {
      ghost var cs := if ge then CS_GE else CS_BASE;
      RoomNotEmpty(t, c, b, End(c, n, f));
      TypeThenDelete(t, c, n, formatted, f, b, ebc, cs);
      TypingKeepsPlace(t, c, n, formatted, f, b, ebc, cs);
      RoomIsPlain(c, n, formatted, f, b);
      KeepsProtection(t, c, n, f, b, ebc, cs);
      assert cells[..] == AfterTyping(t, c, n, f, b, ebc, cs);
      fa := if f < 0 then DUMMY.fa else cells[f].fa;
      ok := DoDelete(cells, n, formatted, f, fa, b);
    } else {
      SameCodes(c, f);
    }
  }
}
