/**
 What the frames and records of file transfer hold: which codes, how many, and what becomes of frames
 that are not data (Common/ft_cut.c:50-108, 269-336, 497-655, Common/ft_dft.c:523-537, 566-669).
 */
module FrameContents {
  import opened Bytes
  import opened CharTables
  import opened LocalText
  import opened CutCode
  import C = CutTransfer
  import R = CutReceive
  import D = DftCode
  import T = DftTransfer

  // --- The characters of the codes --------------------------------------------------------------

  const ALPHAS := " " + "ABCDEFGHIJKLMNOPQRSTUVWXYZ" + "abcdefghijklmnopqrstuvwxyz" + "0123456789" + "%&_()<+,-./:>?"

  const DIGITS_64 := "abcdefghijklmnopqrstuvwxyz" + "&-.,:+" + "ABCDEFGHIJKLMNOPQRSTUVWXYZ" + "012345"

  lemma AlphaLow(ix: nat)
    requires 0 < ix < 53
    ensures |ALPHAS| == 77 && Alpha(ix) == ALPHAS[ix] as int
  {
    if ix < 27 {
      assert ALPHAS[ix] == "ABCDEFGHIJKLMNOPQRSTUVWXYZ"[ix - 1];
    } else {
      assert ALPHAS[ix] == "abcdefghijklmnopqrstuvwxyz"[ix - 27];
    }
  }

  lemma AlphaHigh(ix: nat)
    requires 53 <= ix < 77
    ensures |ALPHAS| == 77 && Alpha(ix) == ALPHAS[ix] as int
  {
    if ix < 63 {
      assert ALPHAS[ix] == "0123456789"[ix - 53];
    } else {
      assert ALPHAS[ix] == "%&_()<+,-./:>?"[ix - 63];
    }
  }

  /** The characters that stand for the 77 places of a quadrant. */
  lemma AlphaIs(ix: nat)
    requires ix < 77
    ensures |ALPHAS| == 77 && Alpha(ix) == ALPHAS[ix] as int
  {
    hide Alpha;
    if ix == 0 {
      FirstAlpha();
    } else if ix < 53 {
      AlphaLow(ix);
    } else {
      AlphaHigh(ix);
    }
  }

  lemma FirstAlpha()
    ensures |ALPHAS| == 77 && Alpha(0) == ALPHAS[0] as int
  {
  }

  lemma DigitLow(n: nat)
    requires n < 32
    ensures |DIGITS_64| == 64 && C.Table6(n) == DIGITS_64[n] as int
  {
    if n < 26 {
      assert DIGITS_64[n] == "abcdefghijklmnopqrstuvwxyz"[n];
    } else {
      assert DIGITS_64[n] == "&-.,:+"[n - 26];
    }
  }

  lemma DigitHigh(n: nat)
    requires 32 <= n < 64
    ensures |DIGITS_64| == 64 && C.Table6(n) == DIGITS_64[n] as int
  {
    if n < 58 {
      assert DIGITS_64[n] == "ABCDEFGHIJKLMNOPQRSTUVWXYZ"[n - 32];
    } else {
      assert DIGITS_64[n] == "012345"[n - 58];
    }
  }

  /** The digits in which the length of a frame is written. */
  lemma DigitIs(n: nat)
    requires n < 64
    ensures |DIGITS_64| == 64 && C.Table6(n) == DIGITS_64[n] as int
  {
    if n < 32 {
      DigitLow(n);
    } else {
      DigitHigh(n);
    }
  }

  /** The place of each byte but zero: the bytes of the third quadrant are controls and codes from 7B on, those of the
      second ASCII, those of the first EBCDIC, and the fourth holds the rest. */
  lemma PlaceOf(c: byte)
    requires c != 0
    ensures HomeQuadrant(c) < 4 && HomePosition(c) < 77 && Xlate(HomeQuadrant(c), HomePosition(c)) == c
  {
    hide HomePosition, Xlate0, Xlate1, Xlate2, Xlate3;
    match HomeQuadrant(c) {
      case 0 => Homes0(c);
      case 1 => Homes1(c);
      case 2 => Homes2(c);
      case _ => Homes3(c);
    }
  }

  // The bytes of the first quadrant are sent as themselves.
  lemma FirstQuadrantLow(ix: nat)
    requires ix < 53
    ensures Xlate0(ix) == Code(ix)
  {
  }

  lemma FirstQuadrant(ix: nat)
    requires ix < 77
    ensures Xlate(0, ix) == Code(ix)
  {
    if ix < 53 {
      FirstQuadrantLow(ix);
    }
  }

  // --- Selectors --------------------------------------------------------------------------------

  /** A selector is sent only when the byte has no place in the quadrant in effect. */
  lemma SelectorOnlyIfNeeded(q: Quadrant, c: byte)
    ensures |CodedByte(q, c).codes| == 1 <==>
            q >= 0 && if c == 0 then q == 2 else exists ix :: 0 <= ix < 77 && Xlate(q, ix) == c
    ensures |CodedByte(q, c).codes| == 1 ==> CodedByte(q, c).q == q
  {
    hide Meant, Code, Xlate, Selector, Relocated;
    if c != 0 && !(q >= 0 && XlateIndex(q, c, 0).Some?) {
      Covered(c);
      RelocatedTwo(q, c, 0);
    }
  }

  lemma {:induction false} RelocatedTwo(q: Quadrant, c: byte, at: nat)
    requires at <= NQ
    ensures |Relocated(q, c, at).codes| != 1
    decreases NQ - at
  {
    hide Code, Selector, XlateIndex;
    if at < NQ {
      RelocatedTwo(q, c, at + 1);
    }
  }

  // --- CUT frames -------------------------------------------------------------------------------

  // The codes of frame `i`.
  function FrameData(p: seq<byte>, i: nat): seq<byte>
  {
    if 1912 * i >= |p| then [0x5C, 0xA9]
    else if 1912 * (i + 1) <= |p| then p[1912 * i..1912 * (i + 1)] else p[1912 * i..]
  }

  lemma LaterFrame(p: seq<byte>, i: nat)
    requires i > 0
    ensures FrameData(C.Left(p), i - 1) == FrameData(p, i)
  {
    var rest, k := C.Left(p), 1912 * (i - 1);
    if |p| > 1912 {
      assert rest == p[1912..];
      if k < |rest| {
        assert rest[k..] == p[k + 1912..];
        if k + 1912 <= |rest| {
          assert rest[k..k + 1912] == p[k + 1912..k + 3824];
        }
      }
    }
  }

  /** The frames of a stream: 1912 codes each, but for the last with data, which holds the rest; and from then on, the
      end-of-file frame. */
  lemma {:induction false} FramesHold(p: seq<byte>, n: nat, i: nat)
    requires i < n
    ensures C.Replies(p, n)[i].data == FrameData(p, i)
    decreases n
  {
    hide C.Digit6, C.Left;
    var r := C.Replies(p, n);
    if i > 0 {
      hide FrameData;
      var rest := C.Left(p);
      FramesHold(rest, n - 1, i - 1);
      LaterFrame(p, i);
      assert r[i] == C.Replies(rest, n - 1)[i - 1];
    }
  }

  /** A frame that says it is longer than 1909 codes is refused, and so is one that is no code at all, without anything
      being stored; the end-of-file frame is acknowledged; data is stored, unless it converts to nothing. */
  lemma OutcomeIs(o: C.Options, q: Quadrant, f: C.Frame)
    requires R.Readable(f)
    ensures var r := R.Received(o, q, f);
            if C.FrameLength(f) > 1909 then r.outcome == R.Oversize && r.out == [] && r.q == q
            else
              var data := f.data[..C.FrameLength(f)];
              if data == [0x5C, 0xA9] then r.outcome == R.EofAck && r.out == [] && r.q == q
              else
                match Decode(o.ascii && o.cr, q, data)
                case Failed => r.outcome == R.ConversionError && r.out == []
                case Decoded(q1, out) =>
                  r.out == out && r.q == q1 && r.outcome == if out == [] then R.WriteError else R.Stored
  {
    hide Decode;
  }

  // --- DFT records ------------------------------------------------------------------------------

  /** Every record but the last fills its buffer: behind one that does not comes the end of the file. */
  lemma {:induction false} RecordsFull(p: seq<byte>, recnum: nat, sizes: seq<nat>, i: nat)
    requires T.SizesOk(sizes) && i + 1 < |sizes|
    ensures var r := T.Replies(p, recnum, sizes);
            r[i].Data? && |r[i].data| < sizes[i] - 27 ==> r[i + 1].Eof?
    decreases |sizes|
  {
    var rest := T.After(p, sizes[0]);
    var r := T.Replies(p, recnum, sizes);
    assert r[i + 1] == T.Replies(rest, T.NextRecnum(p, recnum), sizes[1..])[i];
    if i > 0 {
      RecordsFull(rest, T.NextRecnum(p, recnum), sizes[1..], i - 1);
      assert r[i] == T.Replies(rest, T.NextRecnum(p, recnum), sizes[1..])[i - 1];
    } else if r[0].Data? && |r[0].data| < sizes[0] - 27 {
      assert rest == [];
      assert sizes[1..][0] == sizes[1];
    }
  }

  /** A character without an EBCDIC code is sent as a question mark, behind single-byte text. */
  lemma NoCodeSent(lastDbcs: bool)
    ensures D.CharCode(lastDbcs, 0) == (if lastDbcs then [0x0F] else []) + [0x3F]
  {
  }

  /** Bytes that are no character are read as a question mark. */
  lemma InvalidRead(reader: Reader, file: seq<byte>)
    requires file != [] && reader([] + [file[0]]) == Invalid
    ensures ReadChar(reader, [], file) == Got([0x3F], file[0], file[1..])
  {
  }
}
