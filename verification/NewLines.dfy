/**
 Where the sending sides of file transfer insert CRs: in front of each LF that has none
 (Common/ft_cut.c:713-745, Common/ft_dft.c:474-537).
 */
module NewLines {
  import opened Bytes
  import opened CharTables
  import opened LocalText
  import C = CutTransfer
  import opened DftCode

  // --- Plain bytes --------------------------------------------------------------------------------

  /** The bytes with a CR in front of each LF that does not stand directly behind one. */
  function WithCrs(s: seq<byte>): seq<byte>
  {
    if s == [] then []
    else
      var k := |s| - 1;
      WithCrs(s[..k]) + if s[k] == 0x0A && (k == 0 || s[k - 1] != 0x0D) then [0x0D, 0x0A] else [s[k]]
  }

  predicate LfsBehindCrs(s: seq<byte>)
  {
    forall i :: 0 <= i < |s| && s[i] == 0x0A ==> i > 0 && s[i - 1] == 0x0D
  }

  lemma {:induction false} LastOfWithCrs(s: seq<byte>)
    ensures s != [] ==> WithCrs(s) != [] && WithCrs(s)[|WithCrs(s)| - 1] == s[|s| - 1]
  {
  }

  // Every LF then stands directly behind a CR.
  lemma {:induction false} AllBehindCrs(s: seq<byte>)
    ensures LfsBehindCrs(WithCrs(s))
  {
    if s != [] {
      AllBehindCrs(s[..|s| - 1]);
      LastOfWithCrs(s[..|s| - 1]);
    }
  }

  // Where that is so already, nothing is inserted.
  lemma {:induction false} NothingInserted(s: seq<byte>)
    requires LfsBehindCrs(s)
    ensures WithCrs(s) == s
  {
    if s != [] {
      NothingInserted(s[..|s| - 1]);
    }
  }

  // The bytes with each LF turned into CR LF.
  function EachLf(s: seq<byte>): seq<byte>
  {
    if s == [] then [] else (if s[0] == 0x0A then [0x0D, 0x0A] else [s[0]]) + EachLf(s[1..])
  }

  lemma {:induction false} EachLfAppend(s: seq<byte>, c: byte)
    ensures EachLf(s + [c]) == EachLf(s) + if c == 0x0A then [0x0D, 0x0A] else [c]
  {
    if s == [] {
      assert s + [c] == [c] && [c][1..] == [];
    } else {
      EachLfAppend(s[1..], c);
      assert (s + [c])[1..] == s[1..] + [c];
      Assoc(if s[0] == 0x0A then [0x0D, 0x0A] else [s[0]], EachLf(s[1..]), if c == 0x0A then [0x0D, 0x0A] else [c]);
    }
  }

  // Without CRs, each LF gets one.
  lemma {:induction false} EachLfGetsCr(s: seq<byte>)
    requires forall i :: 0 <= i < |s| ==> s[i] != 0x0D
    ensures WithCrs(s) == EachLf(s)
  {
    if s != [] {
      var k := |s| - 1;
      EachLfGetsCr(s[..k]);
      EachLfAppend(s[..k], s[k]);
      assert s == s[..k] + [s[k]];
    }
  }

  // --- DFT, without remapping -------------------------------------------------------------------

  // One byte, behind a byte `prev`.
  lemma PlainByte(cp: CodePage, o: Options, prevCr: bool, s: seq<byte>)
    requires o.ascii && o.cr && !o.remap && s != []
    ensures Encoded(cp, o, Sent(prevCr, false), s)
            == (if s[0] == 0x0A && !prevCr then [0x0D, 0x0A] else [s[0]])
               + Encoded(cp, o, Sent(s[0] == 0x0D, false), s[1..])
  {
    var rest := Encoded(cp, o, Sent(s[0] == 0x0D, false), s[1..]);
    assert [] + ([CR, LF] + rest) == [CR, LF] + rest;
  }

  // The code of what is left of a file, behind what was sent of it.
  lemma {:induction false} PlainCode(cp: CodePage, o: Options, s: seq<byte>, i: nat)
    requires o.ascii && o.cr && !o.remap && i <= |s|
    ensures WithCrs(s) == WithCrs(s[..i]) + Encoded(cp, o, Sent(i > 0 && s[i - 1] == 0x0D, false), s[i..])
    decreases |s| - i
  {
    hide Encoded;
    if i == |s| {
      assert s[..i] == s && WithCrs(s) + [] == WithCrs(s);
      NothingLeft(cp, o, i > 0 && s[i - 1] == 0x0D);
    } else {
      PlainCode(cp, o, s, i + 1);
      assert s[i..][1..] == s[i + 1..] && s[..i + 1][..i] == s[..i];
      var prevCr := i > 0 && s[i - 1] == 0x0D;
      PlainByte(cp, o, prevCr, s[i..]);
      var c := if s[i] == 0x0A && !prevCr then [0x0D, 0x0A] else [s[i]];
      assert WithCrs(s[..i + 1]) == WithCrs(s[..i]) + c;
      Assoc(WithCrs(s[..i]), c, Encoded(cp, o, Sent(s[i] == 0x0D, false), s[i + 1..]));
    }
  }

  lemma NothingLeft(cp: CodePage, o: Options, prevCr: bool)
    requires o.ascii && o.cr && !o.remap
    ensures Encoded(cp, o, Sent(prevCr, false), []) == []
  {
  }

  /** A text file sent without remapping gets a CR in front of each LF that has none, and is not changed otherwise;
      so every LF that is sent stands directly behind a CR, a file in which that is so is sent unchanged, and one
      without CRs is sent with CR LF for each LF. */
  lemma DftInsertsCrs(cp: CodePage, o: Options, file: seq<byte>)
    requires o.ascii && o.cr && !o.remap
    ensures var sent := Encoded(cp, o, Sent(false, false), file);
            && sent == WithCrs(file) && LfsBehindCrs(sent)
            && (LfsBehindCrs(file) ==> sent == file)
            && ((forall i :: 0 <= i < |file| ==> file[i] != 0x0D) ==> sent == EachLf(file))
  {
    hide Encoded, WithCrs, EachLf, LfsBehindCrs;
    PlainCode(cp, o, file, 0);
    assert file[..0] == [] && file[0..] == file;
    NothingYet();
    assert [] + Encoded(cp, o, Sent(false, false), file) == Encoded(cp, o, Sent(false, false), file);
    AllBehindCrs(file);
    if LfsBehindCrs(file) {
      NothingInserted(file);
    }
    if forall i :: 0 <= i < |file| ==> file[i] != 0x0D {
      EachLfGetsCr(file);
    }
  }

  lemma NothingYet()
    ensures WithCrs([]) == []
  {
  }

  // --- DFT, with remapping ----------------------------------------------------------------------

  /** The text with a CR in front of each LF that does not stand directly behind one; `u` is the character before. */
  function CharsWithCrs(u: nat, t: Chars): Chars
    decreases |t|
  {
    if t == [] then []
    else (if t[0] == 0x0A && u != 0x0D then [0x0D, 0x0A] else [t[0]]) + CharsWithCrs(t[0], t[1..])
  }

  // A CR or LF of the text is sent as itself, behind single-byte text.
  lemma ControlCode(cp: CodePage, lastDbcs: bool, u: nat)
    requires u in {0x0A, 0x0D}
    ensures EbcdicOf(cp, u) < 0x100 && CharCode(lastDbcs, EbcdicOf(cp, u)) == ShiftIn(lastDbcs) + [u]
  {
    hide Asc2Ft, Ft2Asc;
    ControlCodes(u);
  }

  /** Remapped text gets a CR in front of each LF that has none: with CR processing it is sent as the text with these
      CRs is sent without. */
  lemma {:induction false} RemappedInsertsCrs(cp: CodePage, o: Options, local: Local, u: nat, lastDbcs: bool, t: Chars)
    requires o.ascii && o.cr && o.remap && Reads(cp, local, 0x0D) && Reads(cp, local, 0x0A)
    requires forall i :: 0 <= i < |t| ==> Reads(cp, local, t[i])
    ensures Encoded(cp, o, Sent(u == 0x0D, lastDbcs), LocalBytes(local, t))
            == Encoded(cp, o.(cr := false), Sent(u == 0x0D, lastDbcs), LocalBytes(local, CharsWithCrs(u, t)))
    decreases |t|
  {
    hide EbcdicOf, CharCode, ShiftIn, Encoded, Reads, LocalBytes, CharsWithCrs;
    if t == [] {
      NoChars(local, u);
      NoText(cp, o, Sent(u == 0x0D, lastDbcs));
    } else {
      var off, st := o.(cr := false), Sent(u == 0x0D, lastDbcs);
      var t1 := CharsWithCrs(t[0], t[1..]);
      FirstChar(cp, o, local, st, t[0], LocalBytes(local, t[1..]));
      FirstOfText(local, u, t);
      if t[0] == 0x0A && u != 0x0D {
        RemappedInsertsCrs(cp, o, local, 0x0A, false, t[1..]);
        CrLfSent(cp, off, local, st, LocalBytes(local, t1));
      } else {
        FirstChar(cp, off, local, st, t[0], LocalBytes(local, t1));
        RemappedInsertsCrs(cp, o, local, t[0], EbcdicOf(cp, t[0]) >= 0x100, t[1..]);
      }
    }
  }

  // CR and LF, without CR processing.
  lemma CrLfSent(cp: CodePage, o: Options, local: Local, st: Sent, rest: seq<byte>)
    requires o.ascii && !o.cr && o.remap && Reads(cp, local, 0x0D) && Reads(cp, local, 0x0A)
    ensures Encoded(cp, o, st, local(0x0D) + (local(0x0A) + rest))
            == ShiftIn(st.lastDbcs) + ([CR, LF] + Encoded(cp, o, Sent(false, false), rest))
  {
    hide EbcdicOf, CharCode, ShiftIn, Encoded, Reads;
    FirstChar(cp, o, local, st, 0x0D, local(0x0A) + rest);
    FirstChar(cp, o, local, Sent(true, false), 0x0A, rest);
    ControlCode(cp, st.lastDbcs, 0x0D);
    ControlCode(cp, false, 0x0A);
    NoShift();
    var code := Encoded(cp, o, Sent(false, false), rest);
    assert [] + [0x0A] == [0x0A];
    assert [CR, LF] + code == [0x0D] + ([0x0A] + code);
    Assoc(ShiftIn(st.lastDbcs), [0x0D], [0x0A] + code);
  }

  lemma NoChars(local: Local, u: nat)
    ensures LocalBytes(local, []) == [] && CharsWithCrs(u, []) == []
  {
  }

  lemma FirstOfText(local: Local, u: nat, t: Chars)
    requires t != []
    ensures var rest := LocalBytes(local, CharsWithCrs(t[0], t[1..]));
            && LocalBytes(local, t) == local(t[0]) + LocalBytes(local, t[1..])
            && LocalBytes(local, CharsWithCrs(u, t))
               == if t[0] == 0x0A && u != 0x0D then local(0x0D) + (local(0x0A) + rest) else local(t[0]) + rest
  {
    var t1 := CharsWithCrs(t[0], t[1..]);
    TwoChars(local, t1);
    assert ([t[0]] + t1)[1..] == t1;
  }

  lemma NoText(cp: CodePage, o: Options, st: Sent)
    requires o.ascii && o.remap
    ensures Encoded(cp, o, st, []) == Encoded(cp, o.(cr := false), st, [])
  {
  }

  lemma NoShift()
    ensures ShiftIn(false) == []
  {
  }

  lemma TwoChars(local: Local, t: Chars)
    ensures LocalBytes(local, [0x0D, 0x0A] + t) == local(0x0D) + (local(0x0A) + LocalBytes(local, t))
  {
    var s := [0x0D, 0x0A] + t;
    assert s[1..] == [0x0A] + t && s[1..][1..] == t;
  }

  // --- CUT ----------------------------------------------------------------------------------------

  // A character as it is read: its bytes, and the last byte taken from the file.
  datatype Piece = Piece(mb: seq<byte>, last: byte)

  function Pieces(reader: Reader, file: seq<byte>): seq<Piece>
    decreases |file|
  {
    match ReadChar(reader, [], file)
    case AtEnd => []
    case Got(mb, last, rest) => [Piece(mb, last)] + Pieces(reader, rest)
  }

  /** The characters with a CR in front of each that ends in LF and does not follow one that ends in CR. */
  function PiecesWithCrs(ps: seq<Piece>, prev: byte): seq<byte>
  {
    if ps == [] then []
    else
      (if ps[0].last == 0x0A && prev != 0x0D then [0x0D] else []) + (ps[0].mb + PiecesWithCrs(ps[1..], ps[0].last))
  }

  function PieceBytes(ps: seq<Piece>): seq<byte>
  {
    if ps == [] then [] else ps[0].mb + PieceBytes(ps[1..])
  }

  lemma {:induction false} CutExpanded(o: C.Options, reader: Reader, prev: byte, file: seq<byte>)
    requires o.ascii
    ensures C.Expanded(o, reader, prev == 0x0D, file)
            == if o.cr then PiecesWithCrs(Pieces(reader, file), prev) else PieceBytes(Pieces(reader, file))
    decreases |file|
  {
    match ReadChar(reader, [], file) {
      case AtEnd =>
      case Got(mb, last, rest) =>
        CutExpanded(o, reader, last, rest);
        var ps := Pieces(reader, rest);
        assert ([Piece(mb, last)] + ps)[1..] == ps;
        var text := mb + if o.cr then PiecesWithCrs(ps, last) else PieceBytes(ps);
        assert [] + text == text;
    }
  }

  /** A file sent in CUT mode: binary as it is, text character by character, with CR processing a CR in front of each
      LF that has none. */
  lemma CutInsertsCrs(o: C.Options, reader: Reader, file: seq<byte>)
    ensures C.Expanded(o, reader, false, file)
            == if !o.ascii then file
               else if o.cr then PiecesWithCrs(Pieces(reader, file), 0) else PieceBytes(Pieces(reader, file))
  {
    hide C.Expanded;
    if o.ascii {
      CutExpanded(o, reader, 0, file);
    } else {
      Binary(o, reader, file);
    }
  }

  lemma Binary(o: C.Options, reader: Reader, file: seq<byte>)
    requires !o.ascii
    ensures C.Expanded(o, reader, false, file) == file
  {
  }
}
