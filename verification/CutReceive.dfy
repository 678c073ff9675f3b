/** Receiving a file in CUT frames without remapping (Common/ft_cut.c:106-198, 590-655), and the passage of a
    whole file from one end to the other. */
module CutReceive {
  import opened Bytes
  import opened CharTables
  import opened LocalText
  import opened CutCode
  import opened CutTransfer

  /** What becomes of a data frame.  A frame that converts to nothing counts as a failed write, because
      fwrite of no bytes returns 0. */
  datatype Outcome = Oversize | EofAck | ConversionError | WriteError | Stored

  // The outcome for a frame, the quadrant after it and the bytes for the file.
  datatype Receipt = Receipt(outcome: Outcome, q: Quadrant, out: seq<byte>)

  predicate Readable(f: Frame) { FrameLength(f) <= O_DT_MAX ==> FrameLength(f) <= |f.data| }

  // cut_data, when the write itself succeeds
  function Received(o: Options, q: Quadrant, f: Frame): Receipt
    requires Readable(f)
  {
    if FrameLength(f) > O_DT_MAX then Receipt(Oversize, q, [])
    else if f.data[..FrameLength(f)] == EOF_DATA then Receipt(EofAck, q, [])
    else
      match Decode(Strips(o), q, f.data[..FrameLength(f)])
      case Failed => Receipt(ConversionError, q, [])
      case Decoded(q1, out) => Receipt(if out == [] then WriteError else Stored, q1, out)
  }

  class Receiver {
    const o: Options
    var quadrant: int
    var file: seq<byte>

    constructor (o: Options)
      ensures this.o == o && quadrant == -1 && file == []
    {
      this.o, quadrant, file := o, -1, [];
    }

    // A quadrant is in effect, or none is; not so after a failed search.
    predicate Valid() reads this { -1 <= quadrant < NQ }

    // upload_convert; None if the text is wrong
    method UploadConvert(codes: seq<byte>) returns (r: Option<seq<byte>>)
      requires Valid()
      modifies this`quadrant
      ensures match Decode(Strips(o), old(quadrant), codes)
              case Failed => r == None
              case Decoded(q, out) => r == Some(out) && quadrant == q
    {
      hide Alpha, Ebc2Asc0, Xlate, Selector, Decode;
      var out: seq<byte> := [];
      ghost var q0 := quadrant;
      assert codes[..0] == [];
      DecodeNothing(Strips(o), q0);
      var i := 0;
      while i < |codes|
        invariant 0 <= i <= |codes| && Valid()
        invariant Decode(Strips(o), q0, codes[..i]) == Decoded(quadrant, out)
      {
        var c := codes[i];
        OneCode(Strips(o), q0, codes[..i], c, codes[i + 1..]);
        assert codes[..i + 1] == codes[..i] + [c];
        assert codes == codes[..i] + ([c] + codes[i + 1..]);
        var retry := quadrant < 0;
        var ix: Option<nat> := None;
        if !retry {
          if c < 0x40 || c > 0xF9 {
            return None;
          }
          ix := Strchr(Ebc2Asc0(c));
          retry := ix.None? || (quadrant != OTHER_2 && c != XLATE_NULL && Xlate(quadrant, ix.value) == 0);
        }
        if retry {
          quadrant := 0;
          while quadrant < NQ && c != Selector(quadrant)
            invariant 0 <= quadrant <= NQ
            invariant forall k :: 0 <= k < quadrant ==> c != Selector(k)
          {
            quadrant := quadrant + 1;
          }
          if quadrant >= NQ {
            return None;
          }
        } else {
          var b := Xlate(quadrant, ix.value);
          if o.ascii && o.cr && (b == CR || b == CTRL_Z) {
            assert KeptByte(Strips(o), b) == [] && out + [] == out;
          } else {
            assert KeptByte(Strips(o), b) == [b];
            out := out + [b];
          }
        }
        i := i + 1;
      }
      assert codes[..i] == codes;
      return Some(out);
    }

    // cut_data
    method CutData(f: Frame) returns (r: Outcome)
      requires Valid() && Readable(f)
      modifies this
      ensures var spec := Received(o, old(quadrant), f);
              && r == spec.outcome
              && file == old(file) + spec.out
              && (r != ConversionError ==> quadrant == spec.q)
    {
      hide Decode, From6;
      var n := From6(f.hi) * 64 + From6(f.lo);
      if n > O_DT_MAX {
        return Oversize;
      }
      var cvbuf := f.data[..n];
      if n == 2 && cvbuf == EOF_DATA {
        return EofAck;
      }
      var out := UploadConvert(cvbuf);
      if out == None {
        return ConversionError;
      }
      file := file + out.value;
      return if |out.value| == 0 then WriteError else Stored;
    }
  }

  method Strchr(ch: byte) returns (r: Option<nat>)
    ensures r == AlphaIndex(ch, 0)
  {
    hide Alpha;
    var i := 0;
    while i < NE
      invariant 0 <= i <= NE
      invariant AlphaIndex(ch, 0) == AlphaIndex(ch, i)
    {
      if Alpha(i) == ch {
        return Some(i);
      }
      i := i + 1;
    }
    return None;
  }

  // The effect of the code after some that are decoded already.
  lemma OneCode(strip: bool, q: Quadrant, a: seq<byte>, c: byte, rest: seq<byte>)
    requires Decode(strip, q, a).Decoded?
    ensures var d := Decode(strip, q, a);
            && Decode(strip, q, a + [c])
               == (match Meant(d.q, c)
                   case Wrong => Failed
                   case Select(q1) => Decoded(q1, d.out)
                   case Emit(b) => Decoded(d.q, d.out + KeptByte(strip, b)))
            && (Meant(d.q, c).Wrong? ==> Decode(strip, q, a + ([c] + rest)) == Failed)
  {
    hide Meant, KeptByte;
    var d := Decode(strip, q, a);
    DecodeAppend(strip, q, a, [c]);
    DecodeAppend(strip, q, a, [c] + rest);
    assert d.out + [] == d.out && [c][1..] == [];
    match Meant(d.q, c) {
      case Emit(b) => assert KeptByte(strip, b) + [] == KeptByte(strip, b);
      case _ =>
    }
  }

  // --- A whole transfer -------------------------------------------------------------------------------

  // The stream of codes cut into parts, one frame for each, and the end-of-file frame.
  function FramesOf(parts: seq<seq<byte>>): seq<Frame>
    requires forall i :: 0 <= i < |parts| ==> |parts[i]| <= O_DT_MAX
  {
    if parts == [] then [Framed(EOF_DATA)] else [Framed(parts[0])] + FramesOf(parts[1..])
  }

  // The file stored by a receiver that takes frames until the end of the file; None if it gives up.
  function ReceiveAll(o: Options, q: Quadrant, frames: seq<Frame>): Option<seq<byte>>
    requires forall i :: 0 <= i < |frames| ==> Readable(frames[i])
    decreases |frames|
  {
    if frames == [] then None
    else
      var r := Received(o, q, frames[0]);
      if r.outcome == EofAck then Some([])
      else if r.outcome != Stored then None
      else
        match ReceiveAll(o, r.q, frames[1..])
        case None => None
        case Some(out) => Some(r.out + out)
  }

  // Every part converts to something.
  predicate Productive(strip: bool, q: Quadrant, parts: seq<seq<byte>>)
    decreases |parts|
  {
    parts == []
    || match Decode(strip, q, parts[0])
       case Failed => false
       case Decoded(q1, out) => out != [] && Productive(strip, q1, parts[1..])
  }

  predicate LoneSelector(p: seq<byte>)
  {
    |p| == 1 && p[0] in {Selector(0), Selector(1), Selector(2), Selector(3)}
  }

  /** Cut into any frames that fit, a stream arrives decoded as a whole, provided that each frame converts to
      something. */
  lemma {:induction false} PartsArrive(o: Options, q: Quadrant, parts: seq<seq<byte>>)
    requires forall i :: 0 <= i < |parts| ==> |parts[i]| <= O_DT_MAX
    requires WellCoded(q, Joined(parts))
    ensures forall i :: 0 <= i < |FramesOf(parts)| ==> Readable(FramesOf(parts)[i])
    ensures var d := Decode(Strips(o), q, Joined(parts));
            && d.Decoded?
            && ReceiveAll(o, q, FramesOf(parts))
               == if Productive(Strips(o), q, parts) then Some(d.out) else None
    decreases |parts|
  {
    hide WellCoded, Decode, FrameLength, Digit6;
    var strip := Strips(o);
    if parts == [] {
      FramedLength(EOF_DATA);
      assert EOF_DATA[..2] == EOF_DATA;
      DecodeNothing(strip, q);
    } else {
      var p, rest := parts[0], Joined(parts[1..]);
      WellCodedParts(q, p, rest);
      var d := Decode(strip, q, p);
      DecodeAppend(strip, q, p, rest);
      PartsArrive(o, d.q, parts[1..]);
      NeverEof(q, p);
      FramedLength(p);
      assert p[..|p|] == p;
    }
  }

  lemma DecodeNothing(strip: bool, q: Quadrant)
    ensures Decode(strip, q, []) == Decoded(q, [])
  {
  }

  /** For binary data, every frame is taken if and only if none is empty or holds a selector alone. */
  lemma {:induction false} ProductiveFrames(q: Quadrant, parts: seq<seq<byte>>)
    requires WellCoded(q, Joined(parts))
    ensures Productive(false, q, parts)
            <==> forall i :: 0 <= i < |parts| ==> parts[i] != [] && !LoneSelector(parts[i])
    decreases |parts|
  {
    hide Decode, WellCoded;
    if parts != [] {
      var p, rest := parts[0], Joined(parts[1..]);
      WellCodedParts(q, p, rest);
      NothingDecoded(q, p);
      ProductiveFrames(Decode(false, q, p).q, parts[1..]);
      if |p| == 1 {
        SelectorAlone(q, p);
      }
      assert parts == [p] + parts[1..];
    }
  }

  lemma SelectorAlone(q: Quadrant, p: seq<byte>)
    requires |p| == 1
    ensures LoneSelector(p) <==> Meant(q, p[0]).Select?
  {
    hide Position, Xlate, Selector;
    if LoneSelector(p) {
      var k := if p[0] == Selector(0) then 0 else if p[0] == Selector(1) then 1
               else if p[0] == Selector(2) then 2 else 3;
      SelectorMeans(q, k);
    }
  }

  /** A binary file arrives unchanged, wherever its code is cut, if and only if no frame is empty or holds a
      selector alone. */
  lemma BinaryArrives(o: Options, q: Quadrant, s: seq<byte>, parts: seq<seq<byte>>)
    requires !Strips(o)
    requires forall i :: 0 <= i < |parts| ==> |parts[i]| <= O_DT_MAX
    requires Joined(parts) == Encoded(q, s).codes
    ensures forall i :: 0 <= i < |FramesOf(parts)| ==> Readable(FramesOf(parts)[i])
    ensures ReceiveAll(o, q, FramesOf(parts)) == Some(s)
            <==> forall i :: 0 <= i < |parts| ==> parts[i] != [] && !LoneSelector(parts[i])
  {
    hide WellCoded, Encoded, Decode;
    EncodedWell(q, s);
    PartsArrive(o, q, parts);
    ProductiveFrames(q, parts);
    RoundTrip(false, q, s);
    KeepsAll(s);
  }

  // A file of one zero byte, cut behind the selector, does not arrive.
  lemma CutBehindSelector(o: Options)
    requires !Strips(o)
    ensures var parts: seq<seq<byte>> := [[0x5C], [XLATE_NULL]];
            && Joined(parts) == Encoded(-1, [0]).codes
            && (forall i :: 0 <= i < |FramesOf(parts)| ==> Readable(FramesOf(parts)[i]))
            && ReceiveAll(o, -1, FramesOf(parts)) != Some([0])
  {
    hide ReceiveAll, FramesOf;
    var parts: seq<seq<byte>> := [[0x5C], [XLATE_NULL]];
    var s: seq<byte> := [0];
    var tail: seq<seq<byte>> := [[XLATE_NULL]];
    assert s[1..] == [] && parts[1..] == tail && tail[1..] == [];
    assert Joined(tail) == [XLATE_NULL] + Joined(tail[1..]) == [XLATE_NULL];
    assert Joined(parts) == [0x5C] + Joined(tail) == [0x5C, XLATE_NULL];
    BinaryArrives(o, -1, s, parts);
    assert LoneSelector(parts[0]);
  }

  // --- Frames that are refused when CRs and Ctrl-Zs are dropped ------------------------------------------

  predicate IsSelector(c: byte) { c in {Selector(0), Selector(1), Selector(2), Selector(3)} }

  function SelectorIndex(c: byte): (k: nat)
    requires IsSelector(c)
    ensures k < NQ && Selector(k) == c
  {
    if c == Selector(0) then 0 else if c == Selector(1) then 1 else if c == Selector(2) then 2 else 3
  }

  // The quadrant in effect after some codes: that of the last selector.
  function QuadrantAfter(q: Quadrant, codes: seq<byte>): Quadrant
    decreases |codes|
  {
    if codes == [] then q
    else QuadrantAfter(if IsSelector(codes[0]) then SelectorIndex(codes[0]) else q, codes[1..])
  }

  // The places of CR and Ctrl-Z, the letter N and the sign <, in the third quadrant.
  predicate IsDroppedCode(c: byte) { Ebc2Asc0(c) in {0x4E, 0x3C} }

  // A frame that holds only selectors and codes of CR and Ctrl-Z.
  predicate Hollow(q: Quadrant, p: seq<byte>)
  {
    forall i :: 0 <= i < |p| ==>
      IsSelector(p[i]) || (IsDroppedCode(p[i]) && QuadrantAfter(q, p[..i]) == OTHER_2)
  }

  lemma MeansSelection(q: Quadrant, c: byte)
    ensures Meant(q, c).Select? <==> IsSelector(c)
    ensures IsSelector(c) ==> Meant(q, c) == Select(SelectorIndex(c))
  {
    hide Position, Xlate, Selector;
    if IsSelector(c) {
      SelectorMeans(q, SelectorIndex(c));
    }
  }

  lemma AlphaAt(ix: nat, ch: byte)
    requires ix < NE && ch in {0x4E, 0x3C}
    ensures Alpha(ix) == ch <==> ix == if ch == 0x4E then 14 else 68
  {
    AlphaDistinct(ix);
    assert Alpha(14) == 0x4E && Alpha(68) == 0x3C;
  }

  lemma DroppedInRow(q: nat, ix: nat)
    requires q < NQ && ix < NE
    ensures Xlate(q, ix) in {CR, CTRL_Z} <==> q == OTHER_2 && ix in {14, 68}
  {
    match q {
      case 0 => NotDropped0(ix);
      case 1 => NotDropped1(ix);
      case 2 => Dropped2(ix);
      case _ => NotDropped3(ix);
    }
  }

  lemma NotDropped0(ix: nat)
    requires ix < NE
    ensures Xlate0(ix) !in {CR, CTRL_Z}
  {
  }

  lemma NotDropped1(ix: nat)
    requires ix < NE
    ensures Xlate1(ix) !in {CR, CTRL_Z}
  {
  }

  lemma Dropped2(ix: nat)
    requires ix < NE
    ensures Xlate2(ix) in {CR, CTRL_Z} <==> ix in {14, 68}
  {
  }

  lemma NotDropped3(ix: nat)
    requires ix < NE
    ensures Xlate3(ix) !in {CR, CTRL_Z}
  {
  }

  lemma MeansDropped(q: Quadrant, c: byte)
    requires Meant(q, c).Emit?
    ensures Meant(q, c).c in {CR, CTRL_Z} <==> IsDroppedCode(c) && q == OTHER_2
  {
    hide Alpha, Xlate, Selector, Ebc2Asc0;
    var ix := Position(c).value;
    assert Alpha(ix) == Ebc2Asc0(c);
    DroppedInRow(q, ix);
    AlphaAt(ix, 0x4E);
    AlphaAt(ix, 0x3C);
  }

  /** A frame converts to nothing, with CRs and Ctrl-Zs dropped, if and only if it holds only selectors and codes
      of CR and Ctrl-Z; and it leaves the quadrant of its last selector in effect. */
  lemma {:induction false} HollowDecodes(strip: bool, q: Quadrant, p: seq<byte>)
    requires Decode(strip, q, p).Decoded?
    ensures Decode(strip, q, p).q == QuadrantAfter(q, p)
    ensures strip ==> (Decode(strip, q, p).out == [] <==> Hollow(q, p))
    decreases |p|
  {
    hide Meant, IsSelector, IsDroppedCode;
    if p != [] {
      MeansSelection(q, p[0]);
      HollowFirst(q, p);
      match Meant(q, p[0]) {
        case Select(q1) => HollowDecodes(strip, q1, p[1..]);
        case Emit(c) =>
          MeansDropped(q, p[0]);
          HollowDecodes(strip, q, p[1..]);
      }
    }
  }

  lemma HollowFirst(q: Quadrant, p: seq<byte>)
    requires p != []
    ensures var q1 := if IsSelector(p[0]) then SelectorIndex(p[0]) else q;
            Hollow(q, p) <==> && (IsSelector(p[0]) || (IsDroppedCode(p[0]) && q == OTHER_2))
                              && Hollow(q1, p[1..])
  {
    hide IsSelector, IsDroppedCode;
    var q1 := if IsSelector(p[0]) then SelectorIndex(p[0]) else q;
    assert p[..0] == [];
    forall i | 0 <= i < |p| - 1
      ensures p[1..][i] == p[i + 1] && QuadrantAfter(q1, p[1..][..i]) == QuadrantAfter(q, p[..i + 1])
    {
      assert p[..i + 1][1..] == p[1..][..i];
    }
    if Hollow(q, p) {
      forall i | 0 <= i < |p[1..]|
        ensures IsSelector(p[1..][i]) || (IsDroppedCode(p[1..][i]) && QuadrantAfter(q1, p[1..][..i]) == OTHER_2)
      {
        assert p[1..][i] == p[i + 1];
      }
    }
    if Hollow(q1, p[1..]) && (IsSelector(p[0]) || (IsDroppedCode(p[0]) && q == OTHER_2)) {
      forall i | 0 <= i < |p|
        ensures IsSelector(p[i]) || (IsDroppedCode(p[i]) && QuadrantAfter(q, p[..i]) == OTHER_2)
      {
        if i > 0 {
          assert p[1..][i - 1] == p[i];
        }
      }
    }
  }

  lemma {:induction false} QuadrantAfterBoth(q: Quadrant, a: seq<byte>, b: seq<byte>)
    ensures QuadrantAfter(q, a + b) == QuadrantAfter(QuadrantAfter(q, a), b)
    decreases |a|
  {
    if a == [] {
      assert a + b == b;
    } else {
      assert (a + b)[1..] == a[1..] + b;
      QuadrantAfterBoth(if IsSelector(a[0]) then SelectorIndex(a[0]) else q, a[1..], b);
    }
  }

  // The frame would be taken for a failed write.
  predicate Refused(strip: bool, q: Quadrant, p: seq<byte>)
  {
    if strip then Hollow(q, p) else p == [] || LoneSelector(p)
  }

  // No frame is refused, each being received in the quadrant of the last selector before it.
  predicate NoneRefused(strip: bool, q: Quadrant, parts: seq<seq<byte>>)
  {
    forall i :: 0 <= i < |parts| ==> !Refused(strip, QuadrantAfter(q, Joined(parts[..i])), parts[i])
  }

  lemma NoneRefusedFirst(strip: bool, q: Quadrant, parts: seq<seq<byte>>)
    requires parts != []
    ensures NoneRefused(strip, q, parts)
            <==> !Refused(strip, q, parts[0]) && NoneRefused(strip, QuadrantAfter(q, parts[0]), parts[1..])
  {
    hide Refused;
    var q1 := QuadrantAfter(q, parts[0]);
    assert parts[..0] == [];
    forall i | 0 <= i < |parts| - 1
      ensures parts[1..][i] == parts[i + 1]
      ensures QuadrantAfter(q1, Joined(parts[1..][..i])) == QuadrantAfter(q, Joined(parts[..i + 1]))
    {
      assert parts[..i + 1][1..] == parts[1..][..i];
      QuadrantAfterBoth(q, parts[0], Joined(parts[1..][..i]));
    }
    if NoneRefused(strip, q, parts) {
      forall i | 0 <= i < |parts[1..]|
        ensures !Refused(strip, QuadrantAfter(q1, Joined(parts[1..][..i])), parts[1..][i])
      {
        assert parts[1..][i] == parts[i + 1];
      }
    }
    if !Refused(strip, q, parts[0]) && NoneRefused(strip, q1, parts[1..]) {
      forall i | 0 <= i < |parts|
        ensures !Refused(strip, QuadrantAfter(q, Joined(parts[..i])), parts[i])
      {
        if i > 0 {
          assert parts[1..][i - 1] == parts[i];
        }
      }
    }
  }

  /** Every frame converts to something if and only if none is refused: without CR processing, none is empty or a
      selector alone; with it, none holds only selectors and codes of CR and Ctrl-Z. */
  lemma {:induction false} ProductiveIff(strip: bool, q: Quadrant, parts: seq<seq<byte>>)
    requires WellCoded(q, Joined(parts))
    ensures Productive(strip, q, parts) <==> NoneRefused(strip, q, parts)
    decreases |parts|
  {
    hide Decode, WellCoded, NoneRefused, LoneSelector, Hollow, QuadrantAfter;
    if parts == [] {
      NoPartRefused(strip, q);
    } else {
      var p, rest := parts[0], Joined(parts[1..]);
      WellCodedParts(q, p, rest);
      NothingDecoded(q, p);
      HollowDecodes(strip, q, p);
      NoneRefusedFirst(strip, q, parts);
      ProductiveIff(strip, Decode(strip, q, p).q, parts[1..]);
      if |p| == 1 {
        SelectorAlone(q, p);
      }
      LoneIsOne(p);
    }
  }

  lemma LoneIsOne(p: seq<byte>)
    ensures LoneSelector(p) ==> |p| == 1
  {
  }

  lemma NoPartRefused(strip: bool, q: Quadrant)
    ensures NoneRefused(strip, q, [])
  {
  }

  /** A text file arrives as its characters, without CRs and Ctrl-Zs if these are processed, wherever its code is
      cut, if and only if no frame is refused. */
  lemma TextArrives(o: Options, q: Quadrant, reader: Reader, file: seq<byte>, parts: seq<seq<byte>>)
    requires o.ascii
    requires forall i :: 0 <= i < |parts| ==> |parts[i]| <= O_DT_MAX
    requires Joined(parts) == Encoded(q, Expanded(o, reader, false, file)).codes
    ensures forall i :: 0 <= i < |FramesOf(parts)| ==> Readable(FramesOf(parts)[i])
    ensures ReceiveAll(o, q, FramesOf(parts))
            == if NoneRefused(Strips(o), q, parts) then Some(Kept(Strips(o), Joined(Characters(reader, file))))
               else None
  {
    hide WellCoded, Encoded, Decode, Expanded, NoneRefused;
    var s := Expanded(o, reader, false, file);
    EncodedWell(q, s);
    PartsArrive(o, q, parts);
    ProductiveIff(Strips(o), q, parts);
    RoundTrip(Strips(o), q, s);
    ExpandedKept(o, reader, false, file);
  }
}
