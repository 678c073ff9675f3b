/**
 What a Read Modified reply says, field by field: where each modified field starts and which
 characters it holds (Common/ctlr.c:745-937).
 */
module ModifiedFields {
  import opened Bytes
  import opened Screen
  import opened WriteOrders
  import opened Commands
  import opened WriteSafety
  import opened DeviceInvariant
  import opened Snapshot
  import opened ReadModified

  // --- The text of some cells -------------------------------------------------------------------

  // The SA value for the highlighting of a cell, and for its character set.
  function GrValue(c: Cell): byte { if c.gr == 0 then 0 else 0xF0 + c.gr % 16 }

  function SetValue(c: Cell): byte
  {
    match c.cs % 4 case 1 => 0xF1 case 2 => 0xF2 case 3 => 0xF8 case _ => 0
  }

  // An SA order when the host asked for the attribute and its value is another one now.
  function Tell(q: Mode, attr: byte, v: byte, current: byte): seq<byte>
  {
    if q.replyMode == 2 && attr in q.attrs && v != current then [0x28, attr, v] else []
  }

  function Told(q: Mode, attr: byte, v: byte, current: byte): byte
  {
    if q.replyMode == 2 && attr in q.attrs then v else current
  }

  // One character: the attributes that changed, GE if it is of the graphic set, and its code.
  function CharText(q: Mode, c: Cell, cur: Defaults): seq<byte>
  {
    Tell(q, 0x42, c.fg, cur.fg) + Tell(q, 0x45, c.bg, cur.bg)
    + Tell(q, 0x41, GrValue(c), cur.gr) + Tell(q, 0x43, SetValue(c), cur.cs)
    + (if c.cs / 4 % 2 == 1 then [0x08] else []) + [c.ec]
  }

  function CharTold(q: Mode, c: Cell, cur: Defaults): Defaults
  {
    Defaults(Told(q, 0x42, c.fg, cur.fg), Told(q, 0x45, c.bg, cur.bg),
             Told(q, 0x41, GrValue(c), cur.gr), Told(q, 0x43, SetValue(c), cur.cs), cur.ic)
  }

  // The characters other than nulls among the `m` cells from `a` on, in order.
  function Text(q: Mode, cells: seq<Cell>, n: nat, a: nat, m: nat, cur: Defaults): seq<byte>
    requires a < n <= |cells| && m <= n
    decreases m
  {
    if m == 0 then []
    else if cells[a].ec == 0 then Text(q, cells, n, (a + 1) % n, m - 1, cur)
    else CharText(q, cells[a], cur) + Text(q, cells, n, (a + 1) % n, m - 1, CharTold(q, cells[a], cur))
  }

  function TextTold(q: Mode, cells: seq<Cell>, n: nat, a: nat, m: nat, cur: Defaults): Defaults
    requires a < n <= |cells| && m <= n
    decreases m
  {
    if m == 0 then cur
    else TextTold(q, cells, n, (a + 1) % n, m - 1, if cells[a].ec == 0 then cur else CharTold(q, cells[a], cur))
  }

  lemma SameCharText(q: Mode, c: Cell, cur: Defaults)
    ensures CharData(q, c, cur) == CharText(q, c, cur) && SaAfter(q, Sent(c), cur) == CharTold(q, c, cur)
  {
  }

  // --- Fields -------------------------------------------------------------------------------------

  // The number of characters behind the attribute at `f`, up to the next attribute.
  function Width(cells: seq<Cell>, n: nat, f: nat, m: nat): (r: nat)
    requires f < n <= |cells| && m < n && cells[f].fa != 0
    requires forall k :: 0 <= k < n && 0 < Off(f, k, n) <= m ==> cells[k].fa == 0
    ensures m <= r < n && cells[At(f, r + 1, n)].fa != 0
    ensures forall k :: 0 <= k < n && 0 < Off(f, k, n) <= r ==> cells[k].fa == 0
    decreases n - m
  {
    if cells[At(f, m + 1, n)].fa != 0 then m else Width(cells, n, f, m + 1)
  }

  // The modified attributes from `k` on, in the order of their addresses.
  function ModifiedFrom(cells: seq<Cell>, n: nat, k: nat): (r: seq<nat>)
    requires k <= n <= |cells|
    ensures forall i :: 0 <= i < |r| ==> k <= r[i] < n && cells[r[i]].fa % 2 == 1
    ensures forall f :: k <= f < n && cells[f].fa % 2 == 1 ==> f in r
    ensures forall i, j :: 0 <= i < j < |r| ==> r[i] < r[j]
    decreases n - k
  {
    if k == n then []
    else (if cells[k].fa % 2 == 1 then [k] else []) + ModifiedFrom(cells, n, k + 1)
  }

  /** A modified field: an SBA order with the address of its first character, which is that of the cell behind its
      attribute, and then, if data is sent, the characters other than nulls up to the next attribute. */
  function FieldText(q: Mode, cells: seq<Cell>, n: nat, f: nat, send: bool, cur: Defaults): seq<byte>
    requires f < n <= |cells| && cells[f].fa != 0
  {
    var a := (f + 1) % n;
    [0x11] + EncodeAddr(n, a) + if send then Text(q, cells, n, a, Width(cells, n, f, 0), cur) else []
  }

  function FieldTold(q: Mode, cells: seq<Cell>, n: nat, f: nat, send: bool, cur: Defaults): Defaults
    requires f < n <= |cells| && cells[f].fa != 0
  {
    if send then TextTold(q, cells, n, (f + 1) % n, Width(cells, n, f, 0), cur) else cur
  }

  // Some fields, one after the other.
  function FieldsText(q: Mode, cells: seq<Cell>, n: nat, fs: seq<nat>, send: bool, cur: Defaults): seq<byte>
    requires n <= |cells| && forall i :: 0 <= i < |fs| ==> fs[i] < n && cells[fs[i]].fa != 0
    decreases |fs|
  {
    if fs == [] then []
    else
      FieldText(q, cells, n, fs[0], send, cur)
      + FieldsText(q, cells, n, fs[1..], send, FieldTold(q, cells, n, fs[0], send, cur))
  }

  lemma NextPosition(s: nat, j: nat, n: nat)
    requires s < n && j < n
    ensures (At(s, j, n) + 1) % n == At(s, j + 1, n)
  {
  }

  // A character cell in the pass.
  lemma OneChar(q: Mode, cells: seq<Cell>, n: nat, s: nat, j: nat, send: bool, cur: Defaults)
    requires s < n <= |cells| && j < n && cells[At(s, j, n)].fa == 0
    ensures var p := At(s, j, n);
            var shown := send && IsModified(FieldAttr(cells, n, true, p)) && cells[p].ec != 0;
            FieldData(q, cells, n, s, j, send, cur)
            == (if shown then CharText(q, cells[p], cur) else [])
               + FieldData(q, cells, n, s, j + 1, send, if shown then CharTold(q, cells[p], cur) else cur)
  {
    hide FieldAttr, CharData, SaAfter, CharText, CharTold, IsModified;
    SameCharText(q, cells[At(s, j, n)], cur);
  }

  // The characters of one field, position by position.
  lemma {:induction false} FieldChunk(q: Mode, cells: seq<Cell>, n: nat, s: nat, j: nat, m: nat, fa: byte,
                                      send: bool, cur: Defaults)
    requires s < n <= |cells| && j + m <= n
    requires forall i :: j <= i < j + m ==>
               cells[At(s, i, n)].fa == 0 && FieldAttr(cells, n, true, At(s, i, n)) == fa
    ensures var p, told := At(s, j, n), send && IsModified(fa);
            FieldData(q, cells, n, s, j, send, cur)
            == (if told then Text(q, cells, n, p, m, cur) else [])
               + FieldData(q, cells, n, s, j + m, send, if told then TextTold(q, cells, n, p, m, cur) else cur)
    decreases m
  {
    hide FieldAttr, CharText, CharTold, IsModified, FieldData, At;
    var p := At(s, j, n);
    if m == 0 {
      assert [] + FieldData(q, cells, n, s, j, send, cur) == FieldData(q, cells, n, s, j, send, cur);
    } else {
      NextPosition(s, j, n);
      OneChar(q, cells, n, s, j, send, cur);
      var shown := send && IsModified(fa) && cells[p].ec != 0;
      var cur1 := if shown then CharTold(q, cells[p], cur) else cur;
      FieldChunk(q, cells, n, s, j + 1, m - 1, fa, send, cur1);
      if send && IsModified(fa) {
        var a := if shown then CharText(q, cells[p], cur) else [];
        var b := Text(q, cells, n, At(s, j + 1, n), m - 1, cur1);
        var c := FieldData(q, cells, n, s, j + m, send, TextTold(q, cells, n, p, m, cur));
        assert a + (b + c) == (a + b) + c;
        assert Text(q, cells, n, p, m, cur) == a + b;
      } else {
        assert [] + FieldData(q, cells, n, s, j + m, send, cur) == FieldData(q, cells, n, s, j + m, send, cur);
      }
    }
  }

  // An attribute in the pass.
  lemma OneAttribute(q: Mode, cells: seq<Cell>, n: nat, s: nat, j: nat, send: bool, cur: Defaults)
    requires s < n <= |cells| && j < n && cells[At(s, j, n)].fa != 0
    ensures var f := At(s, j, n);
            FieldData(q, cells, n, s, j, send, cur)
            == (if IsModified(cells[f].fa) then [0x11] + EncodeAddr(n, (f + 1) % n) else [])
               + FieldData(q, cells, n, s, j + 1, send, cur)
  {
    hide EncodeAddr, FieldAttr, CharData;
    IncIsRemainder(At(s, j, n), n);
  }

  // All cells of the field at position `j` of the pass.
  lemma OneField(q: Mode, cells: seq<Cell>, n: nat, s: nat, j: nat, send: bool, cur: Defaults)
    requires s < n <= |cells| && j < n && cells[s].fa != 0 && cells[At(s, j, n)].fa != 0
    ensures var f := At(s, j, n);
            var w, modified := Width(cells, n, f, 0), IsModified(cells[f].fa);
            && j + 1 + w <= n && cells[At(s, j + 1 + w, n)].fa != 0
            && (forall i :: j < i < j + 1 + w ==> cells[At(s, i, n)].fa == 0)
            && FieldData(q, cells, n, s, j, send, cur)
               == (if modified then FieldText(q, cells, n, f, send, cur) else [])
                  + FieldData(q, cells, n, s, j + 1 + w, send,
                              if modified then FieldTold(q, cells, n, f, send, cur) else cur)
  {
    hide FieldAttr, IsModified, Text, TextTold, FieldData, Width, EncodeAddr, At;
    var f := At(s, j, n);
    var w := Width(cells, n, f, 0);
    WidthEnds(cells, n, f);
    WidthInPass(cells, n, s, j, w);
    NextPosition(s, j, n);
    forall i | j + 1 <= i < j + 1 + w
      ensures cells[At(s, i, n)].fa == 0 && FieldAttr(cells, n, true, At(s, i, n)) == cells[f].fa
    {
      GovernedBy(cells, n, s, f, j, At(s, i, n), i);
    }
    FieldChunk(q, cells, n, s, j + 1, w, cells[f].fa, send, cur);
    OneAttribute(q, cells, n, s, j, send, cur);
    OneFieldJoined(q, cells, n, s, j, w, send, cur);
  }

  lemma OneFieldJoined(q: Mode, cells: seq<Cell>, n: nat, s: nat, j: nat, w: nat, send: bool, cur: Defaults)
    requires s < n <= |cells| && j + 1 + w <= n && cells[At(s, j, n)].fa != 0
    requires w == Width(cells, n, At(s, j, n), 0) && At(s, j + 1, n) == (At(s, j, n) + 1) % n
    requires var f, p := At(s, j, n), At(s, j + 1, n);
             var modified := IsModified(cells[f].fa);
             && FieldData(q, cells, n, s, j, send, cur)
                == (if modified then [0x11] + EncodeAddr(n, p) else []) + FieldData(q, cells, n, s, j + 1, send, cur)
             && FieldData(q, cells, n, s, j + 1, send, cur)
                == (if send && modified then Text(q, cells, n, p, w, cur) else [])
                   + FieldData(q, cells, n, s, j + 1 + w, send,
                               if send && modified then TextTold(q, cells, n, p, w, cur) else cur)
    ensures var f := At(s, j, n);
            var modified := IsModified(cells[f].fa);
            FieldData(q, cells, n, s, j, send, cur)
            == (if modified then FieldText(q, cells, n, f, send, cur) else [])
               + FieldData(q, cells, n, s, j + 1 + w, send,
                           if modified then FieldTold(q, cells, n, f, send, cur) else cur)
  {
    hide FieldAttr, IsModified, Text, TextTold, FieldData, Width, EncodeAddr, At;
    var p := At(s, j + 1, n);
    var modified := IsModified(cells[At(s, j, n)].fa);
    var text := if send && modified then Text(q, cells, n, p, w, cur) else [];
    var rest := FieldData(q, cells, n, s, j + 1 + w, send,
                          if send && modified then TextTold(q, cells, n, p, w, cur) else cur);
    Assoc(if modified then [0x11] + EncodeAddr(n, p) else [], text, rest);
  }

  lemma WidthEnds(cells: seq<Cell>, n: nat, f: nat)
    requires f < n <= |cells| && cells[f].fa != 0
    ensures var w := Width(cells, n, f, 0); w < n && cells[At(f, w + 1, n)].fa != 0
  {
  }

  lemma NoText(q: Mode, cells: seq<Cell>, n: nat, a: nat, cur: Defaults)
    requires a < n <= |cells|
    ensures Text(q, cells, n, a, 0, cur) == [] && TextTold(q, cells, n, a, 0, cur) == cur
  {
  }

  // Where a field lies in the pass from the first attribute round to it.
  lemma WidthInPass(cells: seq<Cell>, n: nat, s: nat, j: nat, w: nat)
    requires s < n <= |cells| && j < n && cells[s].fa != 0 && cells[At(s, j, n)].fa != 0
    requires w == Width(cells, n, At(s, j, n), 0)
    ensures j + 1 + w <= n && At(s, j + 1 + w, n) == At(At(s, j, n), w + 1, n)
    ensures forall i :: j < i < j + 1 + w ==> cells[At(s, i, n)].fa == 0
    ensures forall k :: 0 <= k < n && j < Off(s, k, n) < j + 1 + w ==> cells[k].fa == 0
  {
    hide Width;
    var f := At(s, j, n);
    assert Off(f, s, n) == if j == 0 then 0 else n - j;
    forall k | 0 <= k < n && j < Off(s, k, n) < j + 1 + w ensures cells[k].fa == 0 {
      assert Off(f, k, n) == Off(s, k, n) - j;
    }
    forall i | j < i < j + 1 + w ensures cells[At(s, i, n)].fa == 0 {
      assert Off(s, At(s, i, n), n) == i;
    }
  }

  // --- The whole reply ----------------------------------------------------------------------------

  lemma {:induction false} NoneBetween(cells: seq<Cell>, n: nat, k: nat, l: nat)
    requires k <= l <= n <= |cells| && forall i :: k <= i < l ==> cells[i].fa == 0
    ensures ModifiedFrom(cells, n, k) == ModifiedFrom(cells, n, l)
    decreases l - k
  {
    if k < l {
      NoneBetween(cells, n, k + 1, l);
      assert [] + ModifiedFrom(cells, n, k + 1) == ModifiedFrom(cells, n, k + 1);
    }
  }

  // From an attribute on, or at the end of the pass.
  lemma {:induction false} PassIsFields(q: Mode, cells: seq<Cell>, n: nat, s: nat, j: nat, send: bool, cur: Defaults)
    requires s < n <= |cells| && j <= n && cells[s].fa != 0 && forall k :: 0 <= k < s ==> cells[k].fa == 0
    requires j < n ==> s + j < n && cells[s + j].fa != 0
    ensures FieldData(q, cells, n, s, j, send, cur)
            == FieldsText(q, cells, n, ModifiedFrom(cells, n, if j == n then n else s + j), send, cur)
    decreases n - j
  {
    hide FieldAttr, FieldText, FieldTold, Width, IsModified, ModifiedFrom, FieldsText, FieldData, At;
    if j < n {
      var f := s + j;
      NoWrap(s, j, n);
      var w := Width(cells, n, f, 0);
      var modified, l := IsModified(cells[f].fa), if j + 1 + w == n then n else f + 1 + w;
      var cur1 := if modified then FieldTold(q, cells, n, f, send, cur) else cur;
      OneField(q, cells, n, s, j, send, cur);
      NextInPass(cells, n, s, j, w);
      PassIsFields(q, cells, n, s, j + 1 + w, send, cur1);
      ModifiedNext(q, cells, n, f, l, send, cur);
      assert FieldData(q, cells, n, s, j + 1 + w, send, cur1)
          == FieldsText(q, cells, n, ModifiedFrom(cells, n, l), send, cur1);
    } else {
      PassOver(q, cells, n, s, send, cur);
    }
  }

  lemma NoWrap(s: nat, j: nat, n: nat)
    requires s + j < n
    ensures At(s, j, n) == s + j
  {
  }

  lemma PassOver(q: Mode, cells: seq<Cell>, n: nat, s: nat, send: bool, cur: Defaults)
    requires s < n <= |cells|
    ensures FieldData(q, cells, n, s, n, send, cur)
            == FieldsText(q, cells, n, ModifiedFrom(cells, n, n), send, cur) == []
  {
  }

  // The next attribute in the pass has a higher address, or the pass is over.
  lemma NextInPass(cells: seq<Cell>, n: nat, s: nat, j: nat, w: nat)
    requires s < n <= |cells| && s + j < n && j + 1 + w <= n && forall k :: 0 <= k < s ==> cells[k].fa == 0
    requires cells[At(s, j + 1 + w, n)].fa != 0
    requires forall i :: j < i < j + 1 + w ==> cells[At(s, i, n)].fa == 0
    ensures j + 1 + w < n ==> s + (j + 1 + w) < n && cells[s + j + 1 + w].fa != 0
    ensures forall k :: s + j < k < (if j + 1 + w == n then n else s + j + 1 + w) ==> cells[k].fa == 0
  {
    forall k | s + j < k < (if j + 1 + w == n then n else s + j + 1 + w) && k < n ensures cells[k].fa == 0 {
      assert k == At(s, k - s, n);
    }
  }

  lemma ModifiedNext(q: Mode, cells: seq<Cell>, n: nat, f: nat, l: nat, send: bool, cur: Defaults)
    requires f < l <= n <= |cells| && cells[f].fa != 0 && forall k :: f < k < l ==> cells[k].fa == 0
    ensures FieldsText(q, cells, n, ModifiedFrom(cells, n, f), send, cur)
            == if IsModified(cells[f].fa) then
                 FieldText(q, cells, n, f, send, cur)
                 + FieldsText(q, cells, n, ModifiedFrom(cells, n, l), send, FieldTold(q, cells, n, f, send, cur))
               else [] + FieldsText(q, cells, n, ModifiedFrom(cells, n, l), send, cur)
  {
    hide FieldText, FieldTold, ModifiedFrom, FieldsText;
    var rest := ModifiedFrom(cells, n, l);
    ModifiedList(cells, n, f, l);
    if IsModified(cells[f].fa) {
      TextOfFirst(q, cells, n, f, rest, send, cur);
    } else {
      assert [] + FieldsText(q, cells, n, rest, send, cur) == FieldsText(q, cells, n, rest, send, cur);
    }
  }

  lemma ModifiedList(cells: seq<Cell>, n: nat, f: nat, l: nat)
    requires f < l <= n <= |cells| && cells[f].fa != 0 && forall k :: f < k < l ==> cells[k].fa == 0
    ensures ModifiedFrom(cells, n, f)
            == if IsModified(cells[f].fa) then [f] + ModifiedFrom(cells, n, l) else ModifiedFrom(cells, n, l)
  {
    NoneBetween(cells, n, f + 1, l);
    assert [] + ModifiedFrom(cells, n, l) == ModifiedFrom(cells, n, l);
  }

  lemma TextOfFirst(q: Mode, cells: seq<Cell>, n: nat, f: nat, rest: seq<nat>, send: bool, cur: Defaults)
    requires f < n <= |cells| && cells[f].fa != 0
    requires forall i :: 0 <= i < |rest| ==> rest[i] < n && cells[rest[i]].fa != 0
    ensures FieldsText(q, cells, n, [f] + rest, send, cur)
            == FieldText(q, cells, n, f, send, cur)
               + FieldsText(q, cells, n, rest, send, FieldTold(q, cells, n, f, send, cur))
  {
    hide FieldText, FieldTold;
    var fs := [f] + rest;
    assert fs[0] == f && fs[1..] == rest;
  }

  lemma TextStep(q: Mode, cells: seq<Cell>, n: nat, k: nat, cur: Defaults)
    requires k < n <= |cells|
    ensures var shown, a := cells[k].ec != 0, if k + 1 < n then k + 1 else 0;
            Text(q, cells, n, k, n - k, cur)
            == (if shown then CharText(q, cells[k], cur) else [])
               + Text(q, cells, n, a, n - k - 1, if shown then CharTold(q, cells[k], cur) else cur)
  {
    hide CharText, CharTold;
    assert (k + 1) % n == if k + 1 < n then k + 1 else 0;
    assert [] + Text(q, cells, n, (k + 1) % n, n - k - 1, cur) == Text(q, cells, n, (k + 1) % n, n - k - 1, cur);
  }

  lemma {:induction false} PlainIsText(q: Mode, cells: seq<Cell>, n: nat, k: nat, cur: Defaults)
    requires k < n <= |cells|
    ensures PlainData(q, cells, n, k, cur) == Text(q, cells, n, k, n - k, cur)
    decreases n - k
  {
    hide CharData, SaAfter, CharText, CharTold, Text;
    SameCharText(q, cells[k], cur);
    var cur1 := if cells[k].ec == 0 then cur else CharTold(q, cells[k], cur);
    TextStep(q, cells, n, k, cur);
    if k + 1 < n {
      PlainIsText(q, cells, n, k + 1, cur1);
    } else {
      NoText(q, cells, n, 0, cur1);
    }
  }

  /** A short reply to a PA key or Clear is the AID alone.  Any other begins with the AID and the cursor address, or
      the header of a test request.  Then, on a formatted screen, come the modified fields in the order of their
      addresses, each with the address of its first character and, unless the key asks for no data, its
      characters other than nulls, round the end of the screen if need be; on an unformatted one, all characters
      other than nulls. */
  lemma ReplyMeans(q: Mode, v: Dev, aid: byte, all: bool)
    requires 0 < v.N() <= |v.cells| && v.formatted == HasField(v.cells, v.N())
    ensures var n, r := v.N(), ReadReply(q, v, aid, all);
            if !all && aid in {0x6C, 0x6E, 0x6B, 0x6D} then r == [aid]
            else
              r == (if aid == 0xF0 then [0x01, 0x6C, 0x61, 0x02] else [aid] + EncodeAddr(n, v.cursor))
                   + if v.formatted then
                       FieldsText(q, v.cells, n, ModifiedFrom(v.cells, n, 0), all || aid != 0x7E, NO_DEFAULTS)
                     else Text(q, v.cells, n, 0, n, NO_DEFAULTS)
  {
    hide EncodeAddr, FieldData, FieldsText, Text, PlainData, ModifiedFrom;
    var n := v.N();
    if v.formatted {
      SomeFirstField(v.cells, n);
      var s := FirstField(v.cells, n, 0);
      PassIsFields(q, v.cells, n, s, 0, SendsData(aid, all), NO_DEFAULTS);
      NoneBetween(v.cells, n, 0, s);
    } else {
      NoFirstField(v.cells, n);
      PlainIsText(q, v.cells, n, 0, NO_DEFAULTS);
    }
  }
}
