/**
 The cells of the 3270 device buffer, its cyclic addresses and its field attributes
 (Common/ctlr.c, include/3270ds.h, include/globals.h).

 A buffer is a sequence of cells together with the number `n` of active cells (ROWS*COLS);
 cells at or beyond `n` belong to the allocation but not to the current screen.
 */
module Screen {
  import opened Bytes

  // The wrap variants of left and right halves differ only in how they are drawn and are merged.
  datatype DbcsState = DbNone | DbLeft | DbRight | DbSi | DbSb | DbDead

  datatype Cell = Cell(ec: byte, fa: byte, fg: byte, bg: byte, gr: byte, cs: byte, ic: byte,
                       db: DbcsState, ucs4: nat)

  const NULL_CELL := Cell(0, 0, 0, 0, 0, 0, 0, DbNone, 0)

  // The dummy attribute in front of the buffer, ea_buf[-1].
  const DUMMY := Cell(0, 0xC1, 0, 0, 0, 0, 1, DbNone, 0)

  const CS_BASE: byte := 0
  const CS_APL: byte := 1
  const CS_DBCS: byte := 3
  const CS_GE: byte := 4

  const EBC_NULL: byte := 0x00
  const EBC_FF: byte := 0x0C
  const EBC_CR: byte := 0x0D
  const EBC_SO: byte := 0x0E
  const EBC_SI: byte := 0x0F
  const EBC_NL: byte := 0x15
  const EBC_EM: byte := 0x19
  const EBC_DUP: byte := 0x1C
  const EBC_FM: byte := 0x1E
  const EBC_SPACE: byte := 0x40

  // --- Field attributes -------------------------------------------------------------------

  predicate IsProtected(fa: byte) { fa / 32 % 2 == 1 }

  predicate IsModified(fa: byte) { fa % 2 == 1 }

  // FA_PRINTABLE | (fa & FA_MASK): the two top bits are set, the reserved bit 1 is dropped.
  function Printable(fa: byte): (r: byte)
    ensures r >= 0xC0
    ensures IsProtected(r) == IsProtected(fa) && IsModified(r) == IsModified(fa)
  {
    0xC0 + fa % 64 / 4 * 4 + fa % 2
  }

  // --- Cyclic addresses -------------------------------------------------------------------

  // INC_BA, without its remainder (see IncIsRemainder).
  function Inc(a: nat, n: nat): (r: nat)
    requires a < n
    ensures r < n
  {
    if a + 1 == n then 0 else a + 1
  }

  lemma IncIsRemainder(a: nat, n: nat)
    requires a < n
    ensures Inc(a, n) == (a + 1) % n
  {
  }

  function Dec(a: nat, n: nat): (r: nat)
    requires a < n
    ensures r < n && Inc(r, n) == a
  {
    if a == 0 then n - 1 else a - 1
  }

  // How many steps forward from `a` lead to `k`.
  function Off(a: nat, k: nat, n: nat): (r: nat)
    requires a < n && k < n
    ensures r < n && At(a, r, n) == k
  {
    if k >= a then k - a else k - a + n
  }

  // The address `j` steps forward from `a`.
  function At(a: nat, j: nat, n: nat): (r: nat)
    requires a < n && j <= n
    ensures r < n
  {
    if a + j < n then a + j else a + j - n
  }

  // Number of iterations of a loop that steps forward from `a` at least once and stops at `b`.
  function Lap(a: nat, b: nat, n: nat): (r: nat)
    requires a < n && b < n
    ensures 0 < r <= n && At(a, r, n) == b
  {
    if b > a then b - a else b - a + n
  }

  // --- Looking for attributes -------------------------------------------------------------

  predicate HasField(cells: seq<Cell>, n: nat)
    requires n <= |cells|
  {
    exists k :: 0 <= k < n && cells[k].fa != 0
  }

  // The nearest attribute at or before `a`, inspecting `j` cells backwards; -1 if there is none.
  function FindBack(cells: seq<Cell>, n: nat, a: nat, j: nat): (r: int)
    requires a < n <= |cells|
    ensures -1 <= r < n
    ensures r >= 0 ==> cells[r].fa != 0
    decreases j
  {
    if j == 0 then -1
    else if cells[a].fa != 0 then a
    else FindBack(cells, n, Dec(a, n), j - 1)
  }

  // find_field_attribute: only looks when the screen is flagged as formatted.
  function FindField(cells: seq<Cell>, n: nat, formatted: bool, a: nat): (r: int)
    requires a < n <= |cells|
    ensures -1 <= r < n
    ensures r >= 0 ==> cells[r].fa != 0
  {
    if formatted then FindBack(cells, n, a, n) else -1
  }

  // The cell holding the attribute that governs `a`.
  function FieldCell(cells: seq<Cell>, n: nat, formatted: bool, a: nat): Cell
    requires a < n <= |cells|
  {
    var f := FindField(cells, n, formatted, a);
    if f < 0 then DUMMY else cells[f]
  }

  function FieldAttr(cells: seq<Cell>, n: nat, formatted: bool, a: nat): (fa: byte)
    requires a < n <= |cells|
    ensures fa != 0
  {
    FieldCell(cells, n, formatted, a).fa
  }

  // What a backward search returns, without the search: the attribute it finds is the last one
  // in the `j` cells it inspects, and it finds none only if there is none.
  lemma {:induction false} FindBackNearest(cells: seq<Cell>, n: nat, a: nat, j: nat)
    requires a < n <= |cells| && j <= n
    ensures var r := FindBack(cells, n, a, j);
            if r >= 0 then
              && Off(r, a, n) < j
              && (forall k | 0 <= k < n && Off(k, a, n) < Off(r, a, n) :: cells[k].fa == 0)
            else forall k | 0 <= k < n && Off(k, a, n) < j :: cells[k].fa == 0
    decreases j
  {
    if j > 0 && cells[a].fa == 0 {
      FindBackNearest(cells, n, Dec(a, n), j - 1);
      forall k | 0 <= k < n && k != a
        ensures Off(k, a, n) == Off(k, Dec(a, n), n) + 1
      {
      }
    }
  }

  // A whole lap backwards fails exactly on a screen without attributes.
  lemma FindBackComplete(cells: seq<Cell>, n: nat, a: nat)
    requires a < n <= |cells|
    ensures FindBack(cells, n, a, n) < 0 <==> !HasField(cells, n)
  {
    FindBackNearest(cells, n, a, n);
    if FindBack(cells, n, a, n) < 0 {
      forall k | 0 <= k < n ensures cells[k].fa == 0 {
        assert Off(k, a, n) < n;
      }
    }
  }

  // A search depends on the attributes only.
  lemma {:induction false} SameFindBack(c1: seq<Cell>, c2: seq<Cell>, n: nat, a: nat, j: nat)
    requires a < n <= |c1| == |c2| && forall k :: 0 <= k < n ==> c1[k].fa == c2[k].fa
    ensures FindBack(c1, n, a, j) == FindBack(c2, n, a, j)
    decreases j
  {
    if j > 0 && c1[a].fa == 0 {
      SameFindBack(c1, c2, n, Dec(a, n), j - 1);
    }
  }

  // next_unprotected: the first position after an unprotected attribute that is not itself an
  // attribute, searching `j` cells forward from `a`; 0 if there is none.
  function NextUnprotectedFrom(cells: seq<Cell>, n: nat, a: nat, j: nat): (r: nat)
    requires a < n <= |cells|
    ensures r < n
    decreases j
  {
    if j == 0 then 0
    else
      var b := Inc(a, n);
      if cells[a].fa != 0 && !IsProtected(cells[a].fa) && cells[b].fa == 0 then b
      else NextUnprotectedFrom(cells, n, b, j - 1)
  }

  function NextUnprotected(cells: seq<Cell>, n: nat, a: nat): (r: nat)
    requires a < n <= |cells|
    ensures r < n
  {
    NextUnprotectedFrom(cells, n, a, n)
  }

  // --- Cell updates (the ctlr_add family) ---------------------------------------------------

  // Colours outside 0xF0..0xFF are stored as 0.
  function Color(v: byte): byte { if v < 0xF0 then 0 else v }

  // ctlr_add: a new character removes an attribute at its place.
  function WithChar(c: Cell, ec: byte, cs: byte): Cell
  {
    c.(ec := ec, cs := cs, fa := 0, ucs4 := 0)
  }

  // ctlr_add_fa
  function WithAttr(c: Cell, fa: byte, cs: byte): Cell
  {
    WithChar(c, EBC_NULL, cs).(fa := Printable(fa))
  }

  function WithFg(mode3279: bool, c: Cell, v: byte): Cell
  {
    if mode3279 then c.(fg := Color(v)) else c
  }

  function WithBg(mode3279: bool, c: Cell, v: byte): Cell
  {
    if mode3279 then c.(bg := Color(v)) else c
  }

  // The extended attributes given to characters, as set by SA orders.
  datatype Defaults = Defaults(fg: byte, bg: byte, gr: byte, cs: byte, ic: byte)

  const NO_DEFAULTS := Defaults(0, 0, 0, 0, 0)

  function WithExtended(mode3279: bool, c: Cell, d: Defaults): Cell
  {
    WithBg(mode3279, WithFg(mode3279, c, d.fg), d.bg).(gr := d.gr, ic := d.ic)
  }

  // A character stored by the write interpreter.
  function Stored(mode3279: bool, c: Cell, ec: byte, cs: byte, d: Defaults): Cell
  {
    WithExtended(mode3279, WithChar(c, ec, cs), d)
  }

  // An attribute stored by SF or SFE before extended attributes are applied.
  function Started(mode3279: bool, c: Cell, fa: byte): Cell
  {
    WithExtended(mode3279, WithAttr(c, fa, 0).(cs := 0), NO_DEFAULTS)
  }
}
