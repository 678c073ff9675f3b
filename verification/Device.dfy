/**
 The 3270 device with its buffer updated in place (Common/ctlr.c).  Every method is proved
 against the functions of modules Screen, DbcsLook, WriteOrders, DbcsPost and Commands.
 */
module Device {
  import opened Bytes
  import opened Screen
  import opened DbcsLook
  import opened WriteOrders
  import opened DbcsPost
  import opened Commands
  import opened WriteSafety
  import opened DeviceInvariant

  // The local variables of the write interpreter.
  datatype Regs = Regs(curFa: byte, lastCmd: bool, lastZpt: bool, icAddr: int)

  // --- One more iteration of the loops over a range of cells ---------------------------------

  // Storing a character again replaces it completely.
  lemma StoredTwice(mode3279: bool, c: Cell, c1: byte, c2: byte, cs: byte, d: Defaults)
    ensures Stored(mode3279, Stored(mode3279, c, c1, cs, d), c2, cs, d) == Stored(mode3279, c, c2, cs, d)
  {
  }

  lemma FillStep(cfg: Cfg, cells: seq<Cell>, a: nat, m: nat, c1: byte, c2: byte, cs: byte, d: Defaults)
    requires a < cfg.n <= |cells| && m < 2 * cfg.n
    ensures var p := AtTwice(a, m, cfg.n);
            var s := Fill(cfg, cells, a, m, c1, c2, cs, d);
            Fill(cfg, cells, a, m + 1, c1, c2, cs, d)
            == s[p := Stored(cfg.mode3279, s[p], if m % 2 == 0 then c1 else c2, cs, d)]
  {
    hide Stored;
    var p := AtTwice(a, m, cfg.n);
    var s := Fill(cfg, cells, a, m, c1, c2, cs, d);
    var e := if m % 2 == 0 then c1 else c2;
    if m >= cfg.n {
      StoredTwice(cfg.mode3279, cells[p], if Off(a, p, cfg.n) % 2 == 0 then c1 else c2, e, cs, d);
    }
    assert Fill(cfg, cells, a, m + 1, c1, c2, cs, d) == s[p := Stored(cfg.mode3279, s[p], e, cs, d)];
  }

  // The address `j` steps forward from `a`, going round at most twice.
  function AtTwice(a: nat, j: nat, n: nat): (r: nat)
    requires a < n && j <= 2 * n
    ensures r < n
  {
    At(a, if j <= n then j else j - n, n)
  }

  lemma AtTwiceZero(a: nat, n: nat)
    requires a < n
    ensures AtTwice(a, 0, n) == a
  {
  }

  lemma LapIsFirst(a: nat, t: nat, j: nat, n: nat)
    requires a < n && t < n && 0 < j <= n
    ensures At(a, j, n) == t <==> j == Lap(a, t, n)
  {
  }

  lemma AtTwiceInc(a: nat, j: nat, n: nat)
    requires a < n && j < 2 * n
    ensures AtTwice(a, j + 1, n) == Inc(AtTwice(a, j, n), n)
  {
  }

  lemma FillCountEven(n: nat, a: nat, t: nat)
    requires a < n && t < n && (a + t) % 2 == 0
    ensures DbcsFillCount(n, a, t) % 2 == 0
  {
    var l := Lap(a, t, n);
    assert l == t - a || l == t - a + n;
  }

  // A double-byte fill meets its target after a whole number of characters, and not before.
  lemma PairStep(a: nat, t: nat, half: nat, n: nat)
    requires a < n && t < n && (a + t) % 2 == 0
    requires 2 * half < DbcsFillCount(n, a, t)
    ensures 2 * half + 2 <= DbcsFillCount(n, a, t)
    ensures AtTwice(a, 2 * half + 2, n) == t <==> 2 * half + 2 == DbcsFillCount(n, a, t)
  {
    var j := 2 * half + 2;
    FillCountEven(n, a, t);
    if j <= n {
      LapIsFirst(a, t, j, n);
    } else {
      LapIsFirst(a, t, j - n, n);
    }
  }

  lemma FillNone(cfg: Cfg, cells: seq<Cell>, a: nat, c1: byte, c2: byte, cs: byte, d: Defaults)
    requires a < cfg.n <= |cells|
    ensures Fill(cfg, cells, a, 0, c1, c2, cs, d) == cells
  {
  }

  lemma NullNone(cfg: Cfg, cells: seq<Cell>, a: nat)
    requires a < cfg.n <= |cells|
    ensures NullRange(cfg, cells, a, 0) == cells
  {
  }

  lemma EraseNone(cfg: Cfg, cells: seq<Cell>, a: nat, cur: byte)
    requires a < cfg.n <= |cells|
    ensures EraseRange(cfg, cells, a, 0, cur) == cells
  {
  }

  lemma NullRangeStep(cfg: Cfg, cells: seq<Cell>, a: nat, m: nat)
    requires a < cfg.n <= |cells| && m < cfg.n
    ensures var p := At(a, m, cfg.n);
            var s := NullRange(cfg, cells, a, m);
            s[p] == cells[p]
            && NullRange(cfg, cells, a, m + 1) == s[p := Nulled(cfg.mode3279, s[p])]
  {
    var p := At(a, m, cfg.n);
    var s := NullRange(cfg, cells, a, m);
    assert NullRange(cfg, cells, a, m + 1) == s[p := Nulled(cfg.mode3279, s[p])];
  }

  lemma EraseRangeStep(cfg: Cfg, cells: seq<Cell>, a: nat, m: nat, cur: byte)
    requires a < cfg.n <= |cells| && m < cfg.n
    ensures var p := At(a, m, cfg.n);
            var s := EraseRange(cfg, cells, a, m, cur);
            s[p] == cells[p]
            && EraseRange(cfg, cells, a, m + 1, cur)
               == if cells[p].fa == 0 && !IsProtected(RunningAttr(cells, cfg.n, a, m, cur))
                  then s[p := WithChar(s[p], EBC_NULL, CS_BASE)] else s
  {
    var p := At(a, m, cfg.n);
    var s := EraseRange(cfg, cells, a, m, cur);
    var t := EraseRange(cfg, cells, a, m + 1, cur);
    assert Off(a, p, cfg.n) == m;
    forall k | 0 <= k < |cells|
      ensures t[k] == if k == p && cells[p].fa == 0
                         && !IsProtected(RunningAttr(cells, cfg.n, a, m, cur))
                      then WithChar(s[p], EBC_NULL, CS_BASE) else s[k]
    {
    }
  }

  // Both halves of a double-byte character stored at `p` with the default attributes.
  function PairStored(cfg: Cfg, cells: seq<Cell>, p: nat, c1: byte, c2: byte, d: Defaults):
    (r: seq<Cell>)
    requires p < cfg.n <= |cells|
    ensures |r| == |cells|
  {
    var once := cells[p := Stored(cfg.mode3279, cells[p], c1, d.cs, d)];
    var q := Inc(p, cfg.n);
    once[q := Stored(cfg.mode3279, once[q], c2, d.cs, d)]
  }

  lemma FillPairStep(cfg: Cfg, cells: seq<Cell>, a: nat, half: nat, c1: byte, c2: byte, d: Defaults)
    requires a < cfg.n <= |cells| && 2 * half + 2 <= 2 * cfg.n
    ensures var p := AtTwice(a, 2 * half, cfg.n);
            && AtTwice(a, 2 * half + 2, cfg.n) == Inc(Inc(p, cfg.n), cfg.n)
            && Fill(cfg, cells, a, 2 * half + 2, c1, c2, d.cs, d)
               == PairStored(cfg, Fill(cfg, cells, a, 2 * half, c1, c2, d.cs, d), p, c1, c2, d)
  {
    hide Fill;
    AtTwiceInc(a, 2 * half, cfg.n);
    AtTwiceInc(a, 2 * half + 1, cfg.n);
    FillStep(cfg, cells, a, 2 * half, c1, c2, d.cs, d);
    FillStep(cfg, cells, a, 2 * half + 1, c1, c2, d.cs, d);
  }

  // --- Fields as stretches of cells ------------------------------------------------------------

  // From the attribute at `f`, the `len` cells up to the next attribute, cyclically.
  ghost predicate FieldSpan(cells: seq<Cell>, n: nat, f: nat, len: nat)
    requires f < n <= |cells|
  {
    && 0 < len <= n && cells[f].fa != 0 && cells[At(f, len, n)].fa != 0
    && forall k :: 0 <= k < n && 0 < Off(f, k, n) < len ==> cells[k].fa == 0
  }

  lemma FoundAtOnce(cells: seq<Cell>, n: nat, f: nat)
    requires f < n <= |cells| && cells[f].fa != 0
    ensures FindField(cells, n, true, f) == f
  {
  }

  // Every cell of the span is governed by the attribute in front of it.
  lemma SpanGoverned(cells: seq<Cell>, n: nat, f: nat, len: nat, k: nat)
    requires f < n <= |cells| && FieldSpan(cells, n, f, len) && k < n && Off(f, k, n) < len
    ensures FindField(cells, n, true, k) == f
  {
    FindBackNearest(cells, n, k, n);
    var r := FindBack(cells, n, k, n);
    assert Off(f, k, n) < n;
  }

  // A span does not run past another attribute.
  lemma SpanStops(cells: seq<Cell>, n: nat, f: nat, len: nat, s: nat)
    requires f < n <= |cells| && FieldSpan(cells, n, f, len) && s < n && cells[s].fa != 0
    ensures Off(s, f, n) + len <= n
    ensures At(f, len, n) == At(s, Off(s, f, n) + len, n)
    ensures At(f, len, n) == s <==> Off(s, f, n) + len == n
  {
    if s != f {
      assert Off(f, s, n) == n - Off(s, f, n);
    }
  }

  // The effect of Erase All Unprotected on one cell.
  function CellErased(c: Cell, fa: byte): Cell
  {
    if IsProtected(fa) then c else if c.fa != 0 then WithoutMdt(c) else WithChar(c, EBC_NULL, 0)
  }

  // Erasing the field at `f` completes the span that starts there.
  lemma SpanErased(cells: seq<Cell>, n: nat, f: nat, len: nat, k: nat)
    requires f < n <= |cells| && FieldSpan(cells, n, f, len) && k < n && Off(f, k, n) < len
    ensures UnprotectedErased(cells, n)[k] == CellErased(cells[k], cells[f].fa)
  {
    SpanGoverned(cells, n, f, len, k);
  }

  // Offsets from `s` past the attribute at `f` are offsets from `f`.
  lemma OffsetsAdd(s: nat, f: nat, k: nat, len: nat, n: nat)
    requires s < n && f < n && k < n && Off(s, f, n) + len <= n
    ensures Off(s, k, n) < Off(s, f, n) + len <==> Off(s, k, n) < Off(s, f, n) || Off(f, k, n) < len
  {
  }

  // The fields that start less than `done` cells after `s` have been erased.
  ghost predicate ErasedUpTo(before: seq<Cell>, n: nat, s: nat, done: nat, now: seq<Cell>)
    requires s < n <= |before|
  {
    && |now| == |before|
    && forall k :: 0 <= k < |before| ==>
         now[k] == if k < n && Off(s, k, n) < done then UnprotectedErased(before, n)[k] else before[k]
  }

  lemma StepOverField(before: seq<Cell>, n: nat, s: nat, f: nat, len: nat, done: nat,
                      mid: seq<Cell>, now: seq<Cell>)
    requires s < n <= |before| && f < n && done < n && f == At(s, done, n)
    requires before[s].fa != 0
    requires forall k :: 0 <= k < n && before[k].fa != 0 ==> WithoutMdt(before[k]).fa != 0
    requires ErasedUpTo(before, n, s, done, mid) && |now| == |mid| && FieldSpan(mid, n, f, len)
    requires forall k :: 0 <= k < |mid| ==>
               now[k] == if k < n && Off(f, k, n) < len then CellErased(mid[k], mid[f].fa) else mid[k]
    ensures FieldSpan(before, n, f, len)
    ensures ErasedUpTo(before, n, s, done + len, now)
  {
    hide UnprotectedErased, WithoutMdt, CellErased;
    assert Off(s, f, n) == done;
    ErasedKeepsField(before, n, s);
    forall k | 0 <= k < n
      ensures mid[k].fa != 0 <==> before[k].fa != 0
      ensures Off(f, k, n) < len ==> mid[k] == before[k]
    {
      ErasedKeepsField(before, n, k);
      SpanStops(mid, n, f, len, s);
      OffsetsAdd(s, f, k, len, n);
    }
    assert FieldSpan(before, n, f, len);
    forall k | 0 <= k < |before|
      ensures now[k] == if k < n && Off(s, k, n) < done + len then UnprotectedErased(before, n)[k]
                        else before[k]
    {
      if k < n {
        SpanStops(before, n, f, len, s);
        OffsetsAdd(s, f, k, len, n);
        if Off(f, k, n) < len {
          SpanErased(before, n, f, len, k);
        }
      }
    }
  }

  lemma ErasedKeepsField(before: seq<Cell>, n: nat, k: nat)
    requires k < n <= |before| && (before[k].fa != 0 ==> WithoutMdt(before[k]).fa != 0)
    ensures UnprotectedErased(before, n)[k].fa != 0 <==> before[k].fa != 0
  {
    hide Unprotected;
  }

  // Whether no attribute in front of `k` is unprotected.
  ghost predicate NoneUnprotected(cells: seq<Cell>, k: nat)
    requires k <= |cells|
  {
    forall j :: 0 <= j < k && cells[j].fa != 0 ==> IsProtected(cells[j].fa)
  }

  lemma {:induction false} FirstUnprotectedFrom(cells: seq<Cell>, n: nat, k: nat)
    requires k <= n <= |cells| && NoneUnprotected(cells, k)
    ensures var r := FirstUnprotected(cells, n, k);
            if r < 0 then NoneUnprotected(cells, n)
            else NoneUnprotected(cells, r) && cells[r].fa != 0 && !IsProtected(cells[r].fa)
    decreases n - k
  {
    if k < n && !(cells[k].fa != 0 && !IsProtected(cells[k].fa)) {
      FirstUnprotectedFrom(cells, n, k + 1);
    }
  }

  lemma VisitKeepsAttrs(p: Post, n: nat, b: nat)
    requires PostReady(p, n) && b < n
    ensures var q := Classified(p, n, b);
            && |q.cells| == |p.cells| && -1 <= q.db < n && q.pb == p.pb
            && Marked(q, n, b, p.si || p.field)[b].fa == p.cells[b].fa
  {
    hide Marked;
    var q := Classified(p, n, b);
    MarkedKeepsAttr(q, n, b, p.si || p.field);
  }

  lemma MarkedKeepsAttr(q: Post, n: nat, b: nat, siBad: bool)
    requires 0 < n <= |q.cells| && b < n && -1 <= q.db < n && -1 <= q.pb < n
    ensures Marked(q, n, b, siBad)[b].fa == q.cells[b].fa
  {
  }

  // The addresses below which all attributes start less than `done` cells after `s`.
  function Upto(s: nat, done: nat, n: nat): (r: nat)
    ensures r <= n
  {
    if s + done <= n then s + done else n
  }

  // An attribute at `f` is protected or is the first unprotected one.
  lemma StepOverAttribute(before: seq<Cell>, n: nat, s: nat, f: nat, len: nat, done: nat)
    requires s < n <= |before| && f < n && done < n && f == At(s, done, n)
    requires FieldSpan(before, n, f, len) && before[f].fa != 0
    requires forall k :: 0 <= k < s ==> before[k].fa == 0
    ensures NoneUnprotected(before, Upto(s, done, n)) && IsProtected(before[f].fa)
            ==> NoneUnprotected(before, Upto(s, done + len, n))
    ensures NoneUnprotected(before, Upto(s, done, n)) && !IsProtected(before[f].fa)
            ==> FirstUnprotected(before, n, 0) == f
  {
    hide FirstUnprotected;
    FirstUnprotectedFrom(before, n, 0);
    var top := Upto(s, done + len, n);
    assert f == s + done;
    forall k | f < k < top ensures before[k].fa == 0 {
      assert Off(f, k, n) == k - f;
    }
  }

  class Device {
    const m: Model
    const ea: array<Cell>     // ea_buf
    var rows: nat             // ROWS
    var cols: nat             // COLS
    var cursorAddr: nat
    var bufferAddr: nat
    var formatted: bool
    var screenAlt: bool
    var d: Defaults           // default_fg, default_bg, default_gr, default_cs, default_ic
    var replyMode: byte

    ghost function Abs(): Dev
      reads this, ea
    {
      Dev(ea[..], rows, cols, cursorAddr, bufferAddr, formatted, screenAlt, d, replyMode)
    }

    ghost predicate Valid()
      reads this, ea
    {
      Invariant(m, Abs())
    }

    function N(): nat
      reads this`rows, this`cols
    {
      rows * cols
    }

    // The interpreter's state with the given local variables.
    ghost function State(r: Regs): Wr
      reads this, ea
    {
      Wr(ea[..], bufferAddr, formatted, d, r.curFa, r.lastCmd, r.lastZpt, r.icAddr)
    }

    function Conf(): Cfg
      reads this`rows, this`cols
    {
      Cfg(N(), m.mode3279, m.dbcs)
    }

    ghost predicate Running(r: Regs)
      reads this, ea
    {
      Ready(Conf(), State(r))
    }

    // What an order method has to achieve.
    ghost predicate Reached(s: Step, r: Regs, cp: nat, ok: bool)
      reads this, ea
    {
      State(r) == s.w && ok == s.ok && (ok ==> cp == s.cp)
    }

    constructor (m: Model)
      requires m.Valid()
      ensures Valid() && this.m == m && fresh(ea)
      ensures Abs() == Initial(m)
    {
      this.m := m;
      ea := new Cell[m.maxRows * m.maxCols](_ => NULL_CELL);
      rows, cols := m.defRows, m.defCols;
      cursorAddr, bufferAddr, formatted, screenAlt := 0, 0, false, false;
      d, replyMode := NO_DEFAULTS, 0;
      new;
      assert ea[..] == seq(m.Allocated(), _ => NULL_CELL);
    }

    // --- Attribute searches ---------------------------------------------------------------

    method FindFieldAttribute(n: nat, baddr: nat) returns (f: int)
      requires baddr < n <= ea.Length
      ensures f == FindField(ea[..], n, formatted, baddr)
    {
      if !formatted {
        return -1;
      }
      ghost var left := n;
      var a := baddr;
      while true
        invariant a < n && 0 < left <= n && a == At(baddr, left, n)
        invariant FindBack(ea[..], n, baddr, n) == FindBack(ea[..], n, a, left)
        decreases left
      {
        if ea[a].fa != 0 {
          return a;
        }
        a, left := Dec(a, n), left - 1;
        if a == baddr {
          break;
        }
      }
      return -1;
    }

    method GetFieldAttribute(n: nat, baddr: nat) returns (fa: byte)
      requires baddr < n <= ea.Length
      ensures fa == FieldAttr(ea[..], n, formatted, baddr)
    {
      var f := FindFieldAttribute(n, baddr);
      fa := if f < 0 then DUMMY.fa else ea[f].fa;
    }

    method NextUnprotectedAddr(n: nat, baddr0: nat) returns (b: nat)
      requires baddr0 < n <= ea.Length
      ensures b == NextUnprotected(ea[..], n, baddr0)
    {
      var nbaddr := baddr0;
      ghost var left := n;
      while true
        invariant nbaddr < n && 0 < left <= n && nbaddr == At(baddr0, n - left, n)
        invariant NextUnprotected(ea[..], n, baddr0)
                  == NextUnprotectedFrom(ea[..], n, nbaddr, left)
        decreases left
      {
        var baddr := nbaddr;
        nbaddr, left := Inc(nbaddr, n), left - 1;
        if ea[baddr].fa != 0 && !IsProtected(ea[baddr].fa) && ea[nbaddr].fa == 0 {
          return nbaddr;
        }
        if nbaddr == baddr0 {
          break;
        }
      }
      return 0;
    }

    method SetFormatted(n: nat)
      requires 0 < n <= ea.Length
      modifies this`formatted
      ensures formatted == HasField(ea[..], n)
    {
      formatted := false;
      var baddr := 0;
      while true
        invariant baddr < n
        invariant forall k :: 0 <= k < baddr ==> ea[..][k].fa == 0
        invariant !formatted
        decreases n - baddr
      {
        if ea[baddr].fa != 0 {
          assert ea[..][baddr].fa != 0;
          formatted := true;
          break;
        }
        baddr := Inc(baddr, n);
        if baddr == 0 {
          break;
        }
      }
    }

    method FindAttributeStart(n: nat, f: int, baddr: nat) returns (xaddr: nat)
      requires baddr < n <= ea.Length && -1 <= f < n
      ensures xaddr == AttributeStart(ea[..], n, f, baddr)
    {
      xaddr := baddr;
      while xaddr != Stop(f, n) && ea[xaddr].cs == CS_DBCS && !IsShift(ea[xaddr].ec)
        invariant xaddr < n
        invariant AttributeStart(ea[..], n, f, baddr) == AttributeStart(ea[..], n, f, xaddr)
        decreases Off(Stop(f, n), xaddr, n)
      {
        xaddr := Dec(xaddr, n);
      }
    }

    method FindOpenShift(n: nat, f: int, baddr: nat) returns (so: int)
      requires baddr < n <= ea.Length && -1 <= f < n
      ensures so == OpenShift(ea[..], n, f, baddr, false)
    {
      var si := false;
      var xaddr := baddr;
      while xaddr != Stop(f, n)
        invariant 0 <= xaddr < n
        invariant OpenShift(ea[..], n, f, baddr, false) == OpenShift(ea[..], n, f, xaddr, si)
        decreases Off(Stop(f, n), xaddr, n)
      {
        if ea[xaddr].ec == EBC_SI {
          si := true;
        } else if ea[xaddr].ec == EBC_SO {
          if si {
            si := false;
          } else {
            return xaddr;
          }
        }
        xaddr := Dec(xaddr, n);
      }
      return -1;
    }

    method LookLeftState(n: nat, baddr: nat) returns (look: Look)
      requires baddr < n <= ea.Length
      ensures look == LookLeft(m.dbcs, ea[..], n, formatted, baddr)
    {
      if !m.dbcs {
        return NOT_DBCS;
      }
      var f := FindFieldAttribute(n, baddr);
      if f >= 0 && ea[f].cs == CS_DBCS {
        return Look(Half(baddr + n - f), InField);
      }
      if ea[baddr].cs == CS_DBCS {
        if IsShift(ea[baddr].ec) {
          return NOT_DBCS;
        }
        var xaddr := FindAttributeStart(n, f, baddr);
        return Look(Half(baddr + n - xaddr), InAttribute);
      }
      var so := FindOpenShift(n, f, Dec(baddr, n));
      return if so < 0 then NOT_DBCS else Look(Half(baddr + n - so), InSubfield);
    }

    // --- The ctlr_add family --------------------------------------------------------------

    method AddChar(baddr: nat, c: byte, cs: byte)
      requires baddr < ea.Length
      modifies ea
      ensures ea[..] == old(ea[..])[baddr := WithChar(old(ea[baddr]), c, cs)]
    {
      var cell := ea[baddr];
      // Nothing is written when nothing changes.
      if cell.fa != 0 || cell.ucs4 != 0 || cell.ec != c || cell.cs != cs {
        ea[baddr] := cell.(ec := c, cs := cs, fa := 0, ucs4 := 0);
      }
    }

    method AddFa(baddr: nat, fa: byte, cs: byte)
      requires baddr < ea.Length
      modifies ea
      ensures ea[..] == old(ea[..])[baddr := WithAttr(old(ea[baddr]), fa, cs)]
    {
      AddChar(baddr, EBC_NULL, cs);
      ea[baddr] := ea[baddr].(fa := Printable(fa));
    }

    method AddCs(baddr: nat, cs: byte)
      requires baddr < ea.Length
      modifies ea
      ensures ea[..] == old(ea[..])[baddr := old(ea[baddr]).(cs := cs)]
    {
      if ea[baddr].cs != cs {
        ea[baddr] := ea[baddr].(cs := cs);
      }
    }

    method AddFg(baddr: nat, color: byte)
      requires baddr < ea.Length
      modifies ea
      ensures ea[..] == old(ea[..])[baddr := WithFg(m.mode3279, old(ea[baddr]), color)]
    {
      if !m.mode3279 {
        return;
      }
      var v := if color < 0xF0 then 0 else color;
      if ea[baddr].fg != v {
        ea[baddr] := ea[baddr].(fg := v);
      }
    }

    method AddBg(baddr: nat, color: byte)
      requires baddr < ea.Length
      modifies ea
      ensures ea[..] == old(ea[..])[baddr := WithBg(m.mode3279, old(ea[baddr]), color)]
    {
      if !m.mode3279 {
        return;
      }
      var v := if color < 0xF0 then 0 else color;
      if ea[baddr].bg != v {
        ea[baddr] := ea[baddr].(bg := v);
      }
    }

    method AddGr(baddr: nat, gr: byte)
      requires baddr < ea.Length
      modifies ea
      ensures ea[..] == old(ea[..])[baddr := old(ea[baddr]).(gr := gr)]
    {
      if ea[baddr].gr != gr {
        ea[baddr] := ea[baddr].(gr := gr);
      }
    }

    method AddIc(baddr: nat, ic: byte)
      requires baddr < ea.Length
      modifies ea
      ensures ea[..] == old(ea[..])[baddr := old(ea[baddr]).(ic := ic)]
    {
      ea[baddr] := ea[baddr].(ic := ic);
    }

    // The attributes that accompany every stored character.
    method AddExtended(baddr: nat, e: Defaults)
      requires baddr < ea.Length
      modifies ea
      ensures ea[..] == old(ea[..])[baddr := WithExtended(m.mode3279, old(ea[baddr]), e)]
    {
      AddFg(baddr, e.fg);
      AddBg(baddr, e.bg);
      AddGr(baddr, e.gr);
      AddIc(baddr, e.ic);
    }

    method Store(baddr: nat, c: byte, cs: byte)
      requires baddr < ea.Length
      modifies ea
      ensures ea[..] == old(ea[..])[baddr := Stored(m.mode3279, old(ea[baddr]), c, cs, d)]
    {
      AddChar(baddr, c, cs);
      AddExtended(baddr, d);
    }

    method PlaceChar(r: Regs, c: byte, cs: byte)
      requires Running(r)
      modifies this`bufferAddr, ea
      ensures State(r) == Place(Conf(), old(State(r)), c, cs)
    {
      Store(bufferAddr, c, cs);
      bufferAddr := Inc(bufferAddr, N());
    }

    method BeginField(r: Regs, fa: byte) returns (r': Regs)
      requires Running(r)
      modifies this`formatted, ea
      ensures State(r') == StartField(Conf(), old(State(r)), fa)
    {
      AddFa(bufferAddr, fa, 0);
      AddCs(bufferAddr, 0);
      AddExtended(bufferAddr, NO_DEFAULTS);
      formatted := true;
      r' := r.(curFa := fa);
    }

    // --- Orders ---------------------------------------------------------------------------

    method DoSF(buf: seq<byte>, cp: nat, r: Regs) returns (r': Regs, cp': nat, ok: bool)
      requires Running(r)
      modifies this`bufferAddr, this`formatted, ea
      ensures Reached(OrderSF(Conf(), old(State(r)), buf, cp), r', cp', ok)
    {
      if cp + 1 >= |buf| {
        return r, cp, false;
      }
      r' := BeginField(r, buf[cp + 1]);
      bufferAddr := Inc(bufferAddr, N());
      r', cp', ok := r'.(lastCmd := true, lastZpt := false), cp + 2, true;
    }

    method DoSBA(buf: seq<byte>, cp: nat, r: Regs) returns (r': Regs, cp': nat, ok: bool)
      requires Running(r)
      modifies this`bufferAddr
      ensures Reached(OrderSBA(Conf(), old(State(r)), buf, cp), r', cp', ok)
    {
      if cp + 2 >= |buf| {
        return r, cp, false;
      }
      bufferAddr := DecodeAddr(buf[cp + 1], buf[cp + 2]);
      if bufferAddr >= N() {
        return r, cp, false;
      }
      var fa := GetFieldAttribute(N(), bufferAddr);
      r', cp', ok := r.(curFa := fa, lastCmd := true, lastZpt := false), cp + 3, true;
    }

    method DoGE(buf: seq<byte>, cp: nat, r: Regs) returns (r': Regs, cp': nat, ok: bool)
      requires Running(r)
      modifies this`bufferAddr, ea
      ensures Reached(OrderGE(Conf(), old(State(r)), buf, cp), r', cp', ok)
    {
      if cp + 1 >= |buf| {
        return r, cp, false;
      }
      PlaceChar(r, buf[cp + 1], CS_GE);
      var fa := GetFieldAttribute(N(), bufferAddr);
      r', cp', ok := r.(curFa := fa, lastCmd := false, lastZpt := false), cp + 2, true;
    }

    method NullCell(baddr: nat)
      requires baddr < ea.Length
      modifies ea
      ensures ea[..] == old(ea[..])[baddr := Nulled(m.mode3279, old(ea[baddr]))]
    {
      AddChar(baddr, EBC_NULL, 0);
      AddCs(baddr, 0);
      AddExtended(baddr, NO_DEFAULTS);
    }

    // The nulling loop of a program tab.
    method NullTo(cfg: Cfg, t: nat)
      requires bufferAddr < cfg.n <= ea.Length && cfg.mode3279 == m.mode3279 && t < cfg.n
      modifies this`bufferAddr, ea
      ensures ea[..] == NullRange(cfg, old(ea[..]), old(bufferAddr),
                                  NullCount(old(ea[..]), cfg.n, old(bufferAddr), t))
    {
      hide NullRange, Nulled;
      ghost var before, a := ea[..], bufferAddr;
      ghost var done := 0;
      NullNone(cfg, before, a);
      while bufferAddr != t && ea[bufferAddr].fa == 0
        invariant bufferAddr < cfg.n && done <= Off(a, t, cfg.n) && bufferAddr == At(a, done, cfg.n)
        invariant ea[..] == NullRange(cfg, before, a, done)
        invariant NullCount(before, cfg.n, a, t) == done + NullCount(before, cfg.n, bufferAddr, t)
        decreases Off(a, t, cfg.n) - done
      {
        NullRangeStep(cfg, before, a, done);
        NullCell(bufferAddr);
        bufferAddr, done := Inc(bufferAddr, cfg.n), done + 1;
      }
      if bufferAddr != t {
        NullRangeStep(cfg, before, a, done);
      }
    }

    method DoPT(cp: nat, r: Regs) returns (r': Regs, cp': nat, ok: bool)
      requires Running(r)
      modifies this`bufferAddr, ea
      ensures Reached(OrderPT(Conf(), old(State(r)), cp), r', cp', ok)
    {
      hide LookLeft, FieldAttr, NextUnprotected, NullRange, NullCount;
      cp', ok := cp + 1, true;
      if ea[bufferAddr].fa != 0 && !IsProtected(ea[bufferAddr].fa) {
        bufferAddr := Inc(bufferAddr, N());
        r' := r.(lastZpt := false, lastCmd := true);
        return;
      }
      var baddr := NextUnprotectedAddr(N(), bufferAddr);
      if baddr < bufferAddr {
        baddr := 0;
      }
      var zpt := r.lastZpt;
      if !r.lastCmd || r.lastZpt {
        NullTo(Conf(), baddr);
        if baddr == 0 {
          zpt := true;
        }
      } else {
        zpt := false;
      }
      bufferAddr := baddr;
      r' := r.(lastZpt := zpt, lastCmd := true);
    }

    // The loop of a single-byte repeat.
    method RepeatTo(cfg: Cfg, t: nat, c: byte, cs: byte)
      requires bufferAddr < cfg.n <= ea.Length && cfg.mode3279 == m.mode3279 && t < cfg.n
      modifies this`bufferAddr, ea
      ensures bufferAddr == t
      ensures ea[..] == Fill(cfg, old(ea[..]), old(bufferAddr), Lap(old(bufferAddr), t, cfg.n),
                             c, c, cs, d)
    {
      hide Fill, Stored;
      ghost var before, a := ea[..], bufferAddr;
      ghost var done := 0;
      FillNone(cfg, before, a, c, c, cs, d);
      while true
        invariant bufferAddr < cfg.n && done < Lap(a, t, cfg.n) && bufferAddr == At(a, done, cfg.n)
        invariant ea[..] == Fill(cfg, before, a, done, c, c, cs, d)
        decreases Lap(a, t, cfg.n) - done
      {
        FillStep(cfg, before, a, done, c, c, cs, d);
        Store(bufferAddr, c, cs);
        bufferAddr, done := Inc(bufferAddr, cfg.n), done + 1;
        if bufferAddr == t {
          break;
        }
      }
    }

    // Both halves of a double-byte character.
    method StorePair(cfg: Cfg, c1: byte, c2: byte)
      requires bufferAddr < cfg.n <= ea.Length && cfg.mode3279 == m.mode3279
      modifies this`bufferAddr, ea
      ensures bufferAddr == Inc(Inc(old(bufferAddr), cfg.n), cfg.n)
      ensures ea[..] == PairStored(cfg, old(ea[..]), old(bufferAddr), c1, c2, d)
    {
      Store(bufferAddr, c1, d.cs);
      bufferAddr := Inc(bufferAddr, cfg.n);
      Store(bufferAddr, c2, d.cs);
      bufferAddr := Inc(bufferAddr, cfg.n);
    }

    // The loop of a double-byte repeat, which stores two cells at a time.
    method RepeatPairTo(cfg: Cfg, t: nat, c1: byte, c2: byte)
      requires bufferAddr < cfg.n <= ea.Length && cfg.mode3279 == m.mode3279 && t < cfg.n
      requires (t + bufferAddr) % 2 == 0
      modifies this`bufferAddr, ea
      ensures bufferAddr == t
      ensures ea[..] == Fill(cfg, old(ea[..]), old(bufferAddr),
                             DbcsFillCount(cfg.n, old(bufferAddr), t), c1, c2, d.cs, d)
    {
      hide *;
      ghost var before, a := ea[..], bufferAddr;
      ghost var total := DbcsFillCount(cfg.n, a, t);
      ghost var half := 0;
      FillNone(cfg, before, a, c1, c2, d.cs, d);
      AtTwiceZero(a, cfg.n);
      while true
        invariant 2 * half < total && bufferAddr == AtTwice(a, 2 * half, cfg.n)
        invariant ea[..] == Fill(cfg, before, a, 2 * half, c1, c2, d.cs, d)
        decreases total - 2 * half
      {
        PairStep(a, t, half, cfg.n);
        FillPairStep(cfg, before, a, half, c1, c2, d);
        StorePair(cfg, c1, c2);
        half := half + 1;
        if bufferAddr == t {
          break;
        }
      }
    }

    method DoRA(buf: seq<byte>, cp: nat, r: Regs) returns (r': Regs, cp': nat, ok: bool)
      requires Running(r)
      modifies this`bufferAddr, ea
      ensures Reached(OrderRA(Conf(), old(State(r)), buf, cp), r', cp', ok)
    {
      hide LookLeft, Fill, FieldAttr, DecodeAddr, Lap, DbcsFillCount;
      r', cp', ok := r, cp, false;
      if cp + 2 >= |buf| {
        return;
      }
      var baddr := DecodeAddr(buf[cp + 1], buf[cp + 2]);
      if baddr >= N() || cp + 3 >= |buf| {
        return;
      }
      var p := cp + 3;
      var addDbcs := false;
      if m.dbcs {
        var look := LookLeftState(N(), bufferAddr);
        if look.state == DbRight {
          return;
        }
        addDbcs := d.cs == CS_DBCS || look.state == DbLeft;
      }
      if addDbcs {
        if (baddr + bufferAddr) % 2 == 1 || p + 1 >= |buf| {
          return;
        }
        var c1, c2 := buf[p], buf[p + 1];
        p := p + 1;
        var bad := false;
        if c1 == EBC_NULL {
          bad := !IsDbcsControl(c2);
        } else if !IsDbcsCode(c1) || !IsDbcsCode(c2) {
          return;
        }
        RepeatPairTo(Conf(), baddr, c1, c2);
        ok := !bad;
      } else {
        var ge := buf[p] == ORDER_GE;
        if ge {
          p := p + 1;
          if p >= |buf| {
            return;
          }
        }
        RepeatTo(Conf(), baddr, buf[p], if ge then CS_GE else d.cs);
        ok := true;
      }
      var fa := GetFieldAttribute(N(), bufferAddr);
      r', cp' := r.(curFa := fa, lastCmd := true, lastZpt := false), p + 1;
    }

    // The loop of an erase unprotected to address.
    method EraseTo(cfg: Cfg, t: nat, curFa: byte)
      requires bufferAddr < cfg.n <= ea.Length && cfg.mode3279 == m.mode3279 && t < cfg.n
      modifies this`bufferAddr, ea
      ensures bufferAddr == t
      ensures ea[..] == EraseRange(cfg, old(ea[..]), old(bufferAddr),
                                   Lap(old(bufferAddr), t, cfg.n), curFa)
    {
      hide EraseRange, WithChar;
      ghost var before, a := ea[..], bufferAddr;
      ghost var done := 0;
      var cur := curFa;
      EraseNone(cfg, before, a, curFa);
      while true
        invariant bufferAddr < cfg.n && done < Lap(a, t, cfg.n) && bufferAddr == At(a, done, cfg.n)
        invariant cur == if done == 0 then curFa else RunningAttr(before, cfg.n, a, done - 1, curFa)
        invariant ea[..] == EraseRange(cfg, before, a, done, curFa)
        decreases Lap(a, t, cfg.n) - done
      {
        EraseRangeStep(cfg, before, a, done, curFa);
        assert ea[bufferAddr] == ea[..][bufferAddr] == before[bufferAddr];
        if ea[bufferAddr].fa != 0 {
          cur := ea[bufferAddr].fa;
        } else if !IsProtected(cur) {
          AddChar(bufferAddr, EBC_NULL, CS_BASE);
        }
        assert cur == RunningAttr(before, cfg.n, a, done, curFa);
        bufferAddr, done := Inc(bufferAddr, cfg.n), done + 1;
        if bufferAddr == t {
          break;
        }
      }
    }

    method DoEUA(buf: seq<byte>, cp: nat, r: Regs) returns (r': Regs, cp': nat, ok: bool)
      requires Running(r)
      modifies this`bufferAddr, ea
      ensures Reached(OrderEUA(Conf(), old(State(r)), buf, cp), r', cp', ok)
    {
      hide LookLeft, FieldAttr, EraseRange, Lap;
      r', cp', ok := r, cp, false;
      if cp + 2 >= |buf| {
        return;
      }
      var baddr := DecodeAddr(buf[cp + 1], buf[cp + 2]);
      if baddr >= N() {
        return;
      }
      var look := LookLeftState(N(), bufferAddr);
      if look.state == DbRight {
        return;
      }
      look := LookLeftState(N(), baddr);
      if look.state == DbLeft {
        return;
      }
      EraseTo(Conf(), baddr, r.curFa);
      var fa := GetFieldAttribute(N(), bufferAddr);
      r', cp', ok := r.(curFa := fa, lastCmd := true, lastZpt := false), cp + 3, true;
    }

    method ModifyAttribute(attr: byte, v: byte)
      requires bufferAddr < ea.Length
      modifies ea
      ensures ea[..] == old(ea[..])[bufferAddr := Modified(Conf(), old(ea[bufferAddr]), attr, v)]
    {
      if attr == XA_3270 {
        AddFa(bufferAddr, v, ea[bufferAddr].cs);
      } else if attr == XA_FOREGROUND {
        AddFg(bufferAddr, v);
      } else if attr == XA_BACKGROUND {
        AddBg(bufferAddr, v);
      } else if attr == XA_HIGHLIGHTING {
        AddGr(bufferAddr, v % 16);
      } else if attr == XA_CHARSET {
        AddCs(bufferAddr, if v == 0xF1 then CS_APL else if v == 0xF8 then CS_DBCS else CS_BASE);
      } else if attr == XA_INPUT_CONTROL {
        AddIc(bufferAddr, if v == 1 then 1 else 0);
      }
    }

    method DoMF(buf: seq<byte>, cp: nat, r: Regs) returns (r': Regs, cp': nat, ok: bool)
      requires Running(r)
      modifies this`bufferAddr, ea
      ensures Reached(OrderMF(Conf(), old(State(r)), buf, cp), r', cp', ok)
    {
      if cp + 1 >= |buf| {
        return r, cp, false;
      }
      var na: nat := buf[cp + 1];
      ok, cp' := true, cp + 2 + 2 * na;
      if ea[bufferAddr].fa != 0 {
        var i, p := 0, cp + 2;
        ghost var before, cfg := ea[..], Conf();
        var a := bufferAddr;
        assert a < N();
        while i < na
          invariant i <= na && p == cp + 2 + 2 * i && ok && bufferAddr == a
          invariant ea[..] == before[a := ea[a]]
          invariant MfPairs(cfg, before[a], buf, cp + 2, na) == MfPairs(cfg, ea[a], buf, p, na - i)
        {
          if p + 1 >= |buf| {
            ok := false;
            break;
          }
          ModifyAttribute(buf[p], buf[p + 1]);
          i, p := i + 1, p + 2;
        }
        bufferAddr := Inc(bufferAddr, N());
      }
      r' := r.(lastCmd := true, lastZpt := false);
    }

    // The attribute pairs of SFE; starts the field when the 3270 attribute is met.
    method GatherPairs(buf: seq<byte>, first: nat, na: nat, r: Regs)
      returns (r': Regs, efa: Defaults, anyFa: bool, ok: bool)
      requires Running(r)
      modifies this`formatted, ea
      ensures SfeResult(State(r'), efa, anyFa, ok)
              == SfePairs(Conf(), old(State(r)), buf, first, na, NO_DEFAULTS, false)
    {
      hide StartField, Gathered;
      r', efa, anyFa, ok := r, NO_DEFAULTS, false, true;
      var i, p := 0, first;
      while i < na
        invariant i <= na && p == first + 2 * i && Running(r') && ok
        invariant SfePairs(Conf(), old(State(r)), buf, first, na, NO_DEFAULTS, false)
                  == SfePairs(Conf(), State(r'), buf, p, na - i, efa, anyFa)
      {
        if p + 1 >= |buf| {
          ok := false;
          break;
        }
        if buf[p] == XA_3270 {
          r' := BeginField(r', buf[p + 1]);
          anyFa := true;
        } else {
          efa := Gathered(Conf(), efa, buf[p], buf[p + 1]);
        }
        i, p := i + 1, p + 2;
      }
    }

    method DoSFE(buf: seq<byte>, cp: nat, r: Regs) returns (r': Regs, cp': nat, ok: bool)
      requires Running(r)
      modifies this`bufferAddr, this`formatted, ea
      ensures Reached(OrderSFE(Conf(), old(State(r)), buf, cp), r', cp', ok)
    {
      hide StartField, WithExtended, SfePairs;
      if cp + 1 >= |buf| {
        return r, cp, false;
      }
      var na: nat := buf[cp + 1];
      var efa, anyFa;
      r', efa, anyFa, ok := GatherPairs(buf, cp + 2, na, r);
      if !anyFa {
        r' := BeginField(r', 0);
      }
      AddCs(bufferAddr, efa.cs);
      AddExtended(bufferAddr, efa);
      bufferAddr := Inc(bufferAddr, N());
      r', cp' := r'.(lastCmd := true, lastZpt := false), cp + 2 + 2 * na;
    }

    method DoSA(buf: seq<byte>, cp: nat, r: Regs) returns (r': Regs, cp': nat, ok: bool)
      requires Running(r)
      modifies this`d
      ensures Reached(OrderSA(Conf(), old(State(r)), buf, cp), r', cp', ok)
    {
      if cp + 2 >= |buf| {
        return r, cp, false;
      }
      var attr, v := buf[cp + 1], buf[cp + 2];
      if attr == XA_FOREGROUND {
        if m.mode3279 {
          d := d.(fg := v);
        }
      } else if attr == XA_BACKGROUND {
        if m.mode3279 {
          d := d.(bg := v);
        }
      } else if attr == XA_HIGHLIGHTING {
        d := d.(gr := v % 16);
      } else if attr == XA_ALL {
        d := NO_DEFAULTS;
      } else if attr == XA_CHARSET {
        d := d.(cs := if v == 0xF1 then CS_APL else if v == 0xF8 then CS_DBCS else CS_BASE);
      } else if attr == XA_INPUT_CONTROL {
        d := d.(ic := if v == 1 then 1 else 0);
      }
      r', cp', ok := r.(lastCmd := true, lastZpt := false), cp + 3, true;
    }

    method DoControl(buf: seq<byte>, cp: nat, r: Regs) returns (r': Regs, cp': nat, ok: bool)
      requires Running(r) && cp < |buf|
      modifies this`bufferAddr, ea
      ensures Reached(OrderControl(Conf(), old(State(r)), buf, cp), r', cp', ok)
    {
      var look := LookLeftState(N(), bufferAddr);
      if d.cs == CS_DBCS || look.state != DbNone {
        return r, cp, false;
      }
      PlaceChar(r, buf[cp], d.cs);
      r', cp', ok := r.(lastCmd := true, lastZpt := false), cp + 1, true;
    }

    method DoSO(cp: nat, r: Regs) returns (r': Regs, cp': nat, ok: bool)
      requires Running(r)
      modifies this`bufferAddr, ea
      ensures Reached(OrderSO(Conf(), old(State(r)), cp), r', cp', ok)
    {
      var look := LookLeftState(N(), bufferAddr);
      if look.state == DbRight || (look.state != DbNone && look.why != InAttribute) {
        return r, cp, false;
      }
      PlaceChar(r, EBC_SO, d.cs);
      r', cp', ok := r.(lastCmd := true, lastZpt := false), cp + 1, true;
    }

    method DoSI(cp: nat, r: Regs) returns (r': Regs, cp': nat, ok: bool)
      requires Running(r)
      modifies this`bufferAddr, ea
      ensures Reached(OrderSI(Conf(), old(State(r)), cp), r', cp', ok)
    {
      hide LookLeft, FieldAttr, Place;
      r', cp', ok := r, cp, false;
      var look := LookLeftState(N(), bufferAddr);
      if look.state == DbRight || (look.state != DbNone && look.why == InField) {
        return;
      }
      var n := N();
      var f := FindFieldAttribute(n, bufferAddr);
      var baddr := Dec(bufferAddr, n);
      while baddr != Stop(f, n)
        invariant baddr < n
        invariant Matched(ea[..], n, f, Dec(bufferAddr, n)) == Matched(ea[..], n, f, baddr)
        decreases Off(Stop(f, n), baddr, n)
      {
        if ea[baddr].ec == EBC_SI {
          return;
        }
        if ea[baddr].ec == EBC_SO {
          break;
        }
        baddr := Dec(baddr, n);
      }
      if ea[baddr].ec != EBC_SO {
        return;
      }
      PlaceChar(r, EBC_SI, d.cs);
      r', cp', ok := r.(lastCmd := true, lastZpt := false), cp + 1, true;
    }

    method DoNull(buf: seq<byte>, cp: nat, r: Regs) returns (r': Regs, cp': nat, ok: bool)
      requires Running(r)
      modifies this`bufferAddr, ea
      ensures Reached(OrderNull(Conf(), old(State(r)), buf, cp), r', cp', ok)
    {
      hide LookLeft, FieldAttr, Place;
      r', cp', ok := r, cp, false;
      var p := cp;
      var addDbcs, c2 := false, EBC_NULL;
      var look := LookLeftState(N(), bufferAddr);
      if look.state == DbRight {
        return;
      }
      if look.state != DbNone || d.cs == CS_DBCS {
        p := p + 1;
        if p >= |buf| {
          return;
        }
        c2 := buf[p];
        if IsDbcsControl(c2) {
          addDbcs := true;
        } else if c2 == ORDER_SF || c2 == ORDER_SFE {
          p := p - 1;
        } else {
          return;
        }
      }
      PlaceChar(r, EBC_NULL, d.cs);
      if addDbcs {
        PlaceChar(r, c2, d.cs);
      }
      r', cp', ok := r.(lastCmd := false, lastZpt := false), p + 1, true;
    }

    method DoChar(buf: seq<byte>, cp: nat, r: Regs) returns (r': Regs, cp': nat, ok: bool)
      requires Running(r) && cp < |buf|
      modifies this`bufferAddr, ea
      ensures Reached(OrderChar(Conf(), old(State(r)), buf, cp), r', cp', ok)
    {
      hide LookLeft, FieldAttr, Place;
      r', cp', ok := r, cp, false;
      var c := buf[cp];
      if c <= 0x3F {
        return r.(lastCmd := true, lastZpt := false), cp + 1, true;
      }
      var p := cp;
      var look := LookLeftState(N(), bufferAddr);
      if look.state == DbRight {
        return;
      }
      if look.state != DbNone || d.cs == CS_DBCS {
        p := p + 1;
        if p >= |buf| || !IsDbcsCode(c) || !IsDbcsCode(buf[p]) {
          return;
        }
        PlaceChar(r, c, d.cs);
        PlaceChar(r, buf[p], d.cs);
      } else {
        PlaceChar(r, c, d.cs);
      }
      r', cp', ok := r.(lastCmd := false, lastZpt := false), p + 1, true;
    }

    method DoOrder(buf: seq<byte>, cp: nat, r: Regs) returns (r': Regs, cp': nat, ok: bool)
      requires Running(r) && cp < |buf|
      modifies this`bufferAddr, this`formatted, this`d, ea
      ensures Reached(Order(Conf(), old(State(r)), buf, cp), r', cp', ok)
    {
      var c := buf[cp];
      if c == ORDER_SF {
        r', cp', ok := DoSF(buf, cp, r);
      } else if c == ORDER_SBA {
        r', cp', ok := DoSBA(buf, cp, r);
      } else if c == ORDER_IC {
        r', cp', ok := r.(icAddr := bufferAddr, lastCmd := true, lastZpt := false), cp + 1, true;
      } else if c == ORDER_PT {
        r', cp', ok := DoPT(cp, r);
      } else if c == ORDER_RA {
        r', cp', ok := DoRA(buf, cp, r);
      } else if c == ORDER_EUA {
        r', cp', ok := DoEUA(buf, cp, r);
      } else if c == ORDER_GE {
        r', cp', ok := DoGE(buf, cp, r);
      } else if c == ORDER_MF {
        r', cp', ok := DoMF(buf, cp, r);
      } else if c == ORDER_SFE {
        r', cp', ok := DoSFE(buf, cp, r);
      } else if c == ORDER_SA {
        r', cp', ok := DoSA(buf, cp, r);
      } else if IsFormatControl(c) {
        r', cp', ok := DoControl(buf, cp, r);
      } else if c == EBC_SO {
        r', cp', ok := DoSO(cp, r);
      } else if c == EBC_SI {
        r', cp', ok := DoSI(cp, r);
      } else if c == EBC_NULL {
        r', cp', ok := DoNull(buf, cp, r);
      } else {
        r', cp', ok := DoChar(buf, cp, r);
      }
    }

    // --- The pass after a write -----------------------------------------------------------

    // The classification and the mark of one cell, with the local variables of the pass; the
    // `cells` of `q` and `r` are not used.
    method VisitCell(n: nat, q: Post, baddr: nat) returns (r: Post)
      requires 0 < n <= ea.Length && baddr < n && PostReady(q.(cells := ea[..]), n)
      modifies ea
      ensures var c := Classified(q.(cells := old(ea[..])), n, baddr);
              r.(cells := ea[..]) == c.(cells := Marked(c, n, baddr, q.si || q.field))
    {
      r := q;
      if ea[baddr].fa != 0 {
        ea[baddr] := ea[baddr].(db := DbNone);
        r := r.(field := IsDbcsSet(ea[baddr].cs));
        r := r.(db := if r.field then Inc(baddr, n) else -1);
        if q.pb >= 0 && ea[q.pb].db == DbSi {
          ea[q.pb] := ea[q.pb].(db := DbNone);
        }
      } else if ea[baddr].ec == EBC_SO {
        if q.so || q.field {
          r := r.(ok := false);
        } else {
          r := r.(db := Inc(baddr, n));
        }
        ea[baddr] := ea[baddr].(db := DbNone);
        r := r.(so := true, si := false);
      } else if ea[baddr].ec == EBC_SI {
        if q.si || q.field {
          r := r.(ok := false);
          ea[baddr] := ea[baddr].(db := DbNone);
        } else {
          ea[baddr] := ea[baddr].(db := DbSi);
        }
        r := r.(db := -1, si := true, so := false);
      } else {
        r := VisitOrdinary(n, q, baddr);
      }
    }

    method VisitOrdinary(n: nat, q: Post, baddr: nat) returns (r: Post)
      requires 0 < n <= ea.Length && baddr < n && PostReady(q.(cells := ea[..]), n)
      requires ea[baddr].fa == 0 && !IsShift(ea[baddr].ec)
      modifies ea
      ensures var c := Classified(q.(cells := old(ea[..])), n, baddr);
              r.(cells := ea[..]) == c.(cells := Marked(c, n, baddr, q.si || q.field))
    {
      hide Marked;
      r := q;
      if q.so && ea[baddr].cs != CS_BASE {
        r := r.(ok := false);
        ea[baddr] := ea[baddr].(cs := CS_BASE);
      }
      if IsDbcsSet(ea[baddr].cs) {
        if r.db < 0 {
          r := r.(db := baddr);
        }
      } else if !q.so && !q.field {
        r := r.(db := -1);
      }
      ghost var c := Classified(q.(cells := old(ea[..])), n, baddr);
      assert c == r.(cells := ea[..]);
      MarkHalf(n, r, baddr, q.si || q.field);
    }

    // The mark of an ordinary cell.
    method MarkHalf(n: nat, q: Post, baddr: nat, ghost siBad: bool)
      requires 0 < n <= ea.Length && baddr < n && -1 <= q.pb < n && -1 <= q.db < n
      requires ea[baddr].fa == 0 && !IsShift(ea[baddr].ec)
      modifies ea
      ensures ea[..] == Marked(q.(cells := old(ea[..])), n, baddr, siBad)
    {
      if q.db >= 0 {
        if (baddr + n - q.db) % 2 == 1 {
          if q.pb >= 0 && !ValidDbcsChar(ea[q.pb].ec, ea[baddr].ec) {
            ea[q.pb] := ea[q.pb].(ec := EBC_SPACE);
            ea[baddr] := ea[baddr].(ec := EBC_SPACE);
          }
          ea[baddr] := ea[baddr].(db := DbRight);
        } else {
          ea[baddr] := ea[baddr].(db := DbLeft);
        }
      } else {
        ea[baddr] := ea[baddr].(db := DbNone);
      }
    }

    // One iteration of the pass.
    method PostIteration(n: nat, q: Post, baddr: nat) returns (r: Post)
      requires 0 < n <= ea.Length && baddr < n && PostReady(q.(cells := ea[..]), n)
      modifies ea
      ensures r.(cells := ea[..]) == PostStep(q.(cells := old(ea[..])), n, baddr)
    {
      hide Classified, Marked;
      VisitKeepsAttrs(q.(cells := ea[..]), n, baddr);
      r := VisitCell(n, q, baddr);
      if q.pb >= 0 && ea[q.pb].db == DbLeft && ea[baddr].db != DbRight {
        if ea[baddr].fa == 0 {
          r := r.(ok := false);
        }
        ea[q.pb] := ea[q.pb].(ec := EBC_NULL, db := DbDead);
      }
      if q.pb >= 0 && ea[q.pb].db == DbSi {
        ea[baddr] := ea[baddr].(db := DbSb);
      }
      r := r.(pb := baddr);
    }

    method DbcsPostprocess(n: nat) returns (ok: bool)
      requires 0 < n <= ea.Length
      modifies ea
      ensures PostResult(ea[..], ok) == PostProcess(m.dbcs, old(ea[..]), n, formatted)
    {
      hide PostStep;
      if !m.dbcs {
        return true;
      }
      var faddr0 := FindFieldAttribute(n, 0);
      var baddr := PostBegin(faddr0, n);
      ghost var b0, first := baddr, PostInit(ea[..], n, faddr0);
      var lastBaddr := if faddr0 < 0 then 0 else faddr0;
      var q := Post([], false, false, faddr0 >= 0 && IsDbcsSet(ea[faddr0].cs), -1, -1, true);
      ghost var k := 0;
      while true
        invariant k < PostCount(faddr0, n) && baddr == At(b0, k, n)
        invariant q.(cells := ea[..]) == PostAfter(first, n, b0, k)
        decreases n - k
      {
        q := PostIteration(n, q, baddr);
        baddr, k := Inc(baddr, n), k + 1;
        LapIsFirst(b0, lastBaddr, k, n);
        if baddr == lastBaddr {
          break;
        }
      }
      return q.ok;
    }

    // --- Commands -------------------------------------------------------------------------

    method ClearCells(n: nat)
      requires n <= ea.Length
      modifies ea
      ensures ea[..] == seq(old(|ea[..]|), k requires 0 <= k < old(|ea[..]|) =>
                          if k < n then NULL_CELL else old(ea[..])[k])
    {
      for k := 0 to n
        invariant forall j :: 0 <= j < k ==> ea[j] == NULL_CELL
        invariant forall j :: k <= j < ea.Length ==> ea[j] == old(ea[j])
      {
        ea[k] := NULL_CELL;
      }
    }

    method Clear()
      requires N() <= ea.Length
      modifies this`cursorAddr, this`bufferAddr, this`formatted, this`d, ea
      ensures Abs() == Cleared(old(Abs()))
    {
      ClearCells(N());
      cursorAddr, bufferAddr, formatted := 0, 0, false;
      d := NO_DEFAULTS.(cs := d.cs);
    }

    method Blanks()
      modifies this`cursorAddr, this`bufferAddr, this`formatted, ea
      ensures Abs() == Blanked(old(Abs()))
    {
      for k := 0 to ea.Length
        invariant forall j :: 0 <= j < k ==> ea[j] == old(ea[j]).(ec := EBC_SPACE)
        invariant forall j :: k <= j < ea.Length ==> ea[j] == old(ea[j])
      {
        ea[k] := ea[k].(ec := EBC_SPACE);
      }
      cursorAddr, bufferAddr, formatted := 0, 0, false;
    }

    method Erase(alt: bool)
      requires Valid()
      modifies this, ea
      ensures Valid() && Abs() == Erased(m, old(Abs()), alt)
    {
      ErasedBlank(m, Abs(), alt);
      Clear();
      var newRows, newCols := m.Rows(alt), m.Cols(alt);
      if alt == screenAlt && rows == newRows && cols == newCols {
        return;
      }
      if m.visibleControl {
        Blanks();
        rows, cols := m.maxRows, m.maxCols;
      }
      rows, cols := newRows, newCols;
      if m.visibleControl {
        Clear();
      }
      screenAlt := alt;
    }

    method MdtClear(n: nat, baddr: nat)
      requires baddr < n <= ea.Length
      modifies ea
      ensures var f := FindField(old(ea[..]), n, formatted, baddr);
              ea[..] == if f < 0 then old(ea[..]) else old(ea[..])[f := WithoutMdt(old(ea[f]))]
    {
      var f := FindFieldAttribute(n, baddr);
      if f >= 0 && IsModified(ea[f].fa) {
        ea[f] := ea[f].(fa := ea[f].fa - 1);
      }
    }

    method ResetMdts(n: nat)
      requires 0 < n <= ea.Length
      modifies ea
      ensures ea[..] == MdtReset(old(ea[..]), n, formatted)
    {
      ghost var before := ea[..];
      var baddr := 0;
      while true
        invariant baddr < n
        invariant forall k :: 0 <= k < ea.Length ==>
                    ea[k] == if k < baddr && formatted && before[k].fa != 0
                             then WithoutMdt(before[k]) else before[k]
        decreases n - baddr
      {
        if ea[baddr].fa != 0 {
          assert FindField(ea[..], n, formatted, baddr) == if formatted then baddr else -1;
          MdtClear(n, baddr);
        }
        baddr := Inc(baddr, n);
        if baddr == 0 {
          break;
        }
      }
    }

    method Interpret(buf: seq<byte>, first: nat, r: Regs) returns (r': Regs, ok: bool)
      requires Running(r)
      modifies this`bufferAddr, this`formatted, this`d, ea
      ensures Outcome(State(r'), ok) == Run(Conf(), old(State(r)), buf, first)
    {
      hide Order;
      var cp := first;
      r', ok := r, true;
      while cp < |buf|
        invariant Running(r') && ok
        invariant Run(Conf(), old(State(r)), buf, first) == Run(Conf(), State(r'), buf, cp)
        decreases |buf| - cp
      {
        r', cp, ok := DoOrder(buf, cp, r');
        if !ok {
          break;
        }
      }
    }

    // The fields of the screen in turn, starting with the first attribute.
    method EraseAllUnprotected()
      requires Valid()
      modifies this`cursorAddr, this`bufferAddr, this`formatted, this`d, ea
      ensures Valid() && Abs() == ErasedAllUnprotected(m, old(Abs()))
    {
      EraseAllUnprotectedInvariant(m, Abs());
      if !formatted {
        Clear();
        return;
      }
      var n := N();
      var first := FirstAttribute(n);
      cursorAddr := EraseFields(n, first);
    }

    // The attribute itself.
    method EraseAttribute(n: nat, f: nat)
      requires f < n <= ea.Length && ea[f].fa != 0 && formatted
      modifies ea
      ensures ea[..] == old(ea[..])[f := CellErased(old(ea[f]), old(ea[f].fa))]
    {
      hide WithoutMdt, FindField;
      assert old(ea[..])[f := old(ea[f])] == old(ea[..]);
      if !IsProtected(ea[f].fa) {
        FoundAtOnce(ea[..], n, f);
        MdtClear(n, f);
      }
    }

    // A character in a field with attribute `fa`.
    method EraseCell(baddr: nat, fa: byte)
      requires baddr < ea.Length && ea[baddr].fa == 0
      modifies ea
      ensures ea[..] == old(ea[..])[baddr := CellErased(old(ea[baddr]), fa)] && ea[baddr].fa == 0
    {
      if !IsProtected(fa) {
        AddChar(baddr, EBC_NULL, 0);
      }
    }

    // One field: erases it unless it is protected, and steps to the next attribute.
    method EraseField(n: nat, f: nat) returns (baddr: nat, ghost len: nat)
      requires f < n <= ea.Length && ea[f].fa != 0 && formatted
      modifies ea
      ensures FieldSpan(old(ea[..]), n, f, len) && baddr == At(f, len, n)
      ensures forall k :: 0 <= k < ea.Length ==>
                ea[k] == if k < n && Off(f, k, n) < len then CellErased(old(ea[k]), old(ea[f].fa))
                         else old(ea[k])
    {
      hide WithoutMdt, FindField, CellErased;
      var fa := ea[f].fa;
      EraseAttribute(n, f);
      baddr, len := f, 0;
      while true
        invariant len < n && baddr == At(f, len, n)
        invariant forall k :: 0 <= k < n && 0 < Off(f, k, n) <= len ==> old(ea[k]).fa == 0
        invariant forall k :: 0 <= k < ea.Length ==>
                    ea[k] == if k < n && Off(f, k, n) <= len then CellErased(old(ea[k]), fa)
                             else old(ea[k])
        decreases n - len
      {
        baddr, len := Inc(baddr, n), len + 1;
        if baddr != f {
          assert Off(f, baddr, n) == len;
          if ea[baddr].fa == 0 {
            EraseCell(baddr, fa);
          }
        }
        if baddr == f || ea[baddr].fa != 0 {
          break;
        }
      }
    }

    method EraseFields(n: nat, s: nat) returns (cursor: nat)
      requires s < n <= ea.Length && ea[s].fa != 0 && formatted
      requires forall k :: 0 <= k < s ==> ea[..][k].fa == 0
      requires forall k :: 0 <= k < n && ea[..][k].fa != 0 ==> WithoutMdt(ea[..][k]).fa != 0
      modifies ea
      ensures ea[..] == UnprotectedErased(old(ea[..]), n)
      ensures var f := FirstUnprotected(old(ea[..]), n, 0);
              cursor == if f < 0 then 0 else Inc(f, n)
    {
      hide UnprotectedErased, WithoutMdt, CellErased, FirstUnprotected;
      ghost var before := ea[..];
      ghost var done := 0;
      var baddr := s;
      var found := false;
      cursor := 0;
      FirstUnprotectedFrom(before, n, 0);
      ghost var f0 := FirstUnprotected(before, n, 0);
      while true
        invariant done < n && baddr == At(s, done, n) && before[baddr].fa != 0
        invariant ErasedUpTo(before, n, s, done, ea[..])
        invariant if found then f0 >= 0 && cursor == Inc(f0, n)
                  else cursor == 0 && NoneUnprotected(before, Upto(s, done, n))
        decreases n - done
      {
        assert Off(s, baddr, n) == done;
        assert ea[..][baddr] == before[baddr];
        var fa, f := ea[baddr].fa, baddr;
        ghost var len;
        ghost var mid := ea[..];
        baddr, len := EraseField(n, f);
        if !IsProtected(fa) && !found {
          cursor, found := Inc(f, n), true;
        }
        StepOverField(before, n, s, f, len, done, mid, ea[..]);
        SpanStops(before, n, f, len, s);
        StepOverAttribute(before, n, s, f, len, done);
        done := done + len;
        if baddr == s {
          break;
        }
      }
      assert forall k :: 0 <= k < n ==> Off(s, k, n) < n;
      assert ea[..] == UnprotectedErased(before, n);
    }

    method FirstAttribute(n: nat) returns (baddr: nat)
      requires 0 < n <= ea.Length && HasField(ea[..], n)
      ensures baddr < n && ea[baddr].fa != 0
      ensures forall k :: 0 <= k < baddr ==> ea[k].fa == 0
    {
      baddr := 0;
      while ea[baddr].fa == 0
        invariant baddr < n
        invariant forall k :: 0 <= k <= baddr ==> k < baddr ==> ea[k].fa == 0
        decreases n - baddr
      {
        ghost var k :| 0 <= k < n && ea[..][k].fa != 0;
        baddr := Inc(baddr, n);
      }
    }

    method Write(buf: seq<byte>, erase: bool) returns (pds: Pds)
      requires Valid()
      modifies this, ea
      ensures Valid() && Reply(Abs(), pds) == Written(m, old(Abs()), buf, erase)
    {
      hide Run, PostProcess, MdtReset, FieldAttr;
      WrittenInvariant(m, Abs(), buf, erase);
      if |buf| < 2 {
        return BadAddress;
      }
      var n := N();
      d := NO_DEFAULTS;
      bufferAddr := cursorAddr;
      if buf[1] / 64 % 2 == 1 && erase {
        replyMode := 0;
      }
      if buf[1] % 2 == 1 {
        ResetMdts(n);
      }
      var fa := GetFieldAttribute(n, bufferAddr);
      var r := Regs(fa, true, false, -1);
      var ok;
      r, ok := Interpret(buf, 2, r);
      SetFormatted(n);
      if r.icAddr >= 0 {
        cursorAddr := r.icAddr;
      }
      var postOk := DbcsPostprocess(n);
      pds := if ok && postOk then Okay else BadAddress;
    }

    method ProcessDs(buf: seq<byte>) returns (pds: Pds)
      requires Valid()
      modifies this, ea
      ensures Valid() && Reply(Abs(), pds) == Processed(m, old(Abs()), buf)
    {
      pds := Okay;
      if buf != [] {
        if IsEraseAllUnprotected(buf[0]) {
          EraseAllUnprotected();
        } else if IsEraseWriteAlternate(buf[0]) {
          Erase(true);
          pds := Write(buf, true);
        } else if IsEraseWrite(buf[0]) {
          Erase(false);
          pds := Write(buf, true);
        } else if IsWrite(buf[0]) {
          pds := Write(buf, false);
        } else if buf[0] !in {0x02, 0xF2, 0x06, 0xF6, 0x0E, 0x6E, 0x11, 0xF3, 0x03} {
          pds := BadCommand;
        }
      }
    }
  }
}
