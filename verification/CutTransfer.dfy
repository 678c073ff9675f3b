/** CUT-style file transfer without remapping: the frames sent for a local file and the frames received into
    one (Common/ft_cut.c:106-198, 269-385, 505-575, 590-655, 684-762, Common/include/ft_cut_ds.h). */
module CutTransfer {
  import opened Bytes
  import opened CharTables
  import opened CutCode
  import opened LocalText

  const XLATE_NBUF := 32
  const O_UP_MAX := 1919 - 7
  const O_DT_MAX := 1919 - 5 - 5

  datatype Options = Options(ascii: bool, cr: bool)

  predicate Strips(o: Options) { o.ascii && o.cr }

  // --- What is sent -----------------------------------------------------------------------------

  // The bytes of the file with a CR before each lone LF, when that is asked for.
  function Expanded(o: Options, reader: Reader, lastCr: bool, file: seq<byte>): seq<byte>
    decreases |file|
  {
    if !o.ascii then file
    else
      match ReadChar(reader, [], file)
      case AtEnd => []
      case Got(mb, last, rest) =>
        if o.cr && !lastCr && last == LF then [CR] + (mb + Expanded(o, reader, lastCr, rest))
        else mb + Expanded(o, reader, last == CR, rest)
  }

  /** What survives the inserted CRs: the characters of the file without CRs and Ctrl-Zs. */
  lemma {:induction false} ExpandedKept(o: Options, reader: Reader, lastCr: bool, file: seq<byte>)
    requires o.ascii
    ensures Kept(Strips(o), Expanded(o, reader, lastCr, file))
            == Kept(Strips(o), Joined(Characters(reader, file)))
    decreases |file|
  {
    var strip := Strips(o);
    match ReadChar(reader, [], file) {
      case AtEnd =>
      case Got(mb, last, rest) =>
        ExpandedKept(o, reader, lastCr, rest);
        ExpandedKept(o, reader, last == CR, rest);
        var text := Joined(Characters(reader, rest));
        assert ([mb] + Characters(reader, rest))[1..] == Characters(reader, rest);
        KeptAppend(strip, mb, text);
        if o.cr && !lastCr && last == LF {
          var e := Expanded(o, reader, lastCr, rest);
          KeptAppend(strip, mb, e);
          assert ([CR] + (mb + e))[1..] == mb + e;
        } else {
          KeptAppend(strip, mb, Expanded(o, reader, last == CR, rest));
        }
    }
  }

  // --- Frame lengths ----------------------------------------------------------------------------

  // table6[n]
  function Table6(n: nat): byte
    requires n < 64
  {
    if n < 26 then 0x61 + n
    else if n < 32 then match n case 26 => 0x26 case 27 => 0x2D case 28 => 0x2E case 29 => 0x2C
                                case 30 => 0x3A case _ => 0x2B
    else if n < 58 then 0x41 + n - 32
    else 0x30 + n - 58
  }

  // strchr(table6, ch), for a character other than NUL
  function Index6(ch: byte, from: nat): (r: Option<nat>)
    requires from <= 64
    ensures r.Some? ==> from <= r.value < 64 && Table6(r.value) == ch
    ensures r.None? ==> forall i :: from <= i < 64 ==> Table6(i) != ch
    decreases 64 - from
  {
    if from == 64 then None else if Table6(from) == ch then Some(from) else Index6(ch, from + 1)
  }

  function Digit6(n: nat): byte
    requires n < 64
  {
    Asc2Ebc0(Table6(n))
  }

  // from6
  function From6(c: byte): (r: nat)
    ensures r < 64
  {
    match Index6(Ebc2Asc0(c), 0) case None => 0 case Some(i) => i
  }

  lemma Digit6InvertsLow(n: nat)
    requires n < 26
    ensures Ebc2Asc0(Digit6(n)) == Table6(n)
  {
    hide Ebc2Asc0, Asc2Ebc0;
    assert Table6(n) == Alpha(n + 27);
    CodeInvertsLetters(n + 27);
  }

  lemma Digit6Inverts(n: nat)
    requires n < 64
    ensures Ebc2Asc0(Digit6(n)) == Table6(n)
  {
    if n < 26 {
      Digit6InvertsLow(n);
    } else if n >= 32 {
      Digit6InvertsHigh(n);
    }
  }

  lemma Digit6InvertsHigh(n: nat)
    requires 32 <= n < 64
    ensures Ebc2Asc0(Digit6(n)) == Table6(n)
  {
    hide Ebc2Asc0, Asc2Ebc0;
    if n < 58 {
      assert Table6(n) == Alpha(n - 31);
      CodeInvertsLetters(n - 31);
    } else {
      assert Table6(n) == Alpha(n - 5);
      CodeInverts(n - 5);
    }
  }

  lemma Table6Distinct(m: nat, n: nat)
    requires m < 64 && n < 64 && Table6(m) == Table6(n)
    ensures m == n
  {
  }

  lemma FromDigit(n: nat)
    requires n < 64
    ensures From6(Digit6(n)) == n
  {
    hide Table6, Digit6, Ebc2Asc0;
    Digit6Inverts(n);
    var r := Index6(Table6(n), 0);
    assert Table6(n) == Table6(n);
    Table6Distinct(r.value, n);
  }

  /** A frame of either direction: its two length digits and the data area of the screen. */
  datatype Frame = Frame(hi: byte, lo: byte, data: seq<byte>)

  function FrameLength(f: Frame): nat { From6(f.hi) * 64 + From6(f.lo) }

  function Framed(data: seq<byte>): Frame
    requires |data| < 0x1000
  {
    Frame(Digit6(|data| / 64), Digit6(|data| % 64), data)
  }

  lemma FramedLength(data: seq<byte>)
    requires |data| < 0x1000
    ensures FrameLength(Framed(data)) == |data| && Framed(data).data == data
  {
    FromDigit(|data| / 64);
    FromDigit(|data| % 64);
  }

  // --- Sending ----------------------------------------------------------------------------------

  function Min(a: nat, b: nat): nat { if a < b then a else b }

  // What one data request takes from the codes that are left.
  function Payload(p: seq<byte>): seq<byte> { p[..Min(|p|, O_UP_MAX)] }

  function Left(p: seq<byte>): seq<byte> { p[Min(|p|, O_UP_MAX)..] }

  // The frames for n data requests.
  function Replies(p: seq<byte>, n: nat): (r: seq<Frame>)
    ensures |r| == n
  {
    if n == 0 then [] else [Framed(if p == [] then EOF_DATA else Payload(p))] + Replies(Left(p), n - 1)
  }

  // The data up to the end-of-file frame; None if there is no such frame yet.
  function UpToEof(r: seq<Frame>): Option<seq<byte>>
  {
    if r == [] then None
    else if r[0].data == EOF_DATA then Some([])
    else match UpToEof(r[1..]) case None => None case Some(d) => Some(r[0].data + d)
  }

  /** Enough data requests bring over the whole coded file, and no frame before the last looks like the
      end of the file. */
  lemma {:induction false} RepliesComplete(q: Quadrant, p: seq<byte>, n: nat)
    requires WellCoded(q, p) && n > |p|
    ensures UpToEof(Replies(p, n)) == Some(p)
    decreases |p|
  {
    hide WellCoded, Digit6;
    var r := Replies(p, n);
    if p != [] {
      assert p == Payload(p) + Left(p);
      WellCodedParts(q, Payload(p), Left(p));
      NeverEof(q, Payload(p));
      RepliesComplete(Decode(false, q, Payload(p)).q, Left(p), n - 1);
      assert r[1..] == Replies(Left(p), n - 1);
    }
  }

  // The length digits of every frame are right.
  predicate LengthsAgree(r: seq<Frame>)
  {
    forall i :: 0 <= i < |r| ==> FrameLength(r[i]) == |r[i].data| <= O_UP_MAX
  }

  lemma {:induction false} ReplyLengths(p: seq<byte>, n: nat)
    ensures LengthsAgree(Replies(p, n))
  {
    hide FrameLength, Digit6;
    if n > 0 {
      FramedLength(if p == [] then EOF_DATA else Payload(p));
      ReplyLengths(Left(p), n - 1);
    }
  }

  /** The sending side: the file that is left, the quadrant, and the codes of the present character that did
      not go out yet. */
  class Sender {
    const o: Options
    const reader: Reader
    var file: seq<byte>
    var lastCr: bool
    var quadrant: Quadrant
    const xlateBuf: array<byte>
    var xlateIx: nat
    var xlateBuffered: nat
    var eof: bool

    // The state at the host's acknowledgement.
    constructor (o: Options, reader: Reader, file: seq<byte>)
      requires Fits(reader)
      ensures Valid() && fresh(xlateBuf)
      ensures this.o == o && this.reader == reader
      ensures Pending() == Encoded(-1, Expanded(o, reader, false, file)).codes
    {
      this.o, this.reader, this.file := o, reader, file;
      lastCr, quadrant, xlateIx, xlateBuffered, eof := false, -1, 0, 0, false;
      xlateBuf := new byte[XLATE_NBUF](_ => 0);
      new;
      assert Buffered() == [];
    }

    ghost predicate Valid()
      reads this, xlateBuf
    {
      && xlateBuf.Length == XLATE_NBUF && xlateIx + xlateBuffered <= XLATE_NBUF
      && Fits(reader)
      && (eof ==> Pending() == [])
    }

    ghost function Buffered(): seq<byte>
      requires xlateIx + xlateBuffered <= xlateBuf.Length
      reads this, xlateBuf
    {
      xlateBuf[xlateIx..xlateIx + xlateBuffered]
    }

    // The codes still to be sent.
    ghost function Pending(): seq<byte>
      requires xlateIx + xlateBuffered <= xlateBuf.Length
      reads this, xlateBuf
    {
      Buffered() + Rest()
    }

    // store_download
    method StoreDownload(c: byte) returns (r: seq<byte>)
      modifies this`quadrant
      ensures Coded(r, quadrant) == Stored(old(quadrant), c)
    {
      if quadrant >= 0 {
        var ix := Memchr(quadrant, c);
        if ix.Some? {
          return [Code(ix.value)];
        }
      }
      var oq := quadrant;
      var k := 0;
      while k < NQ
        invariant 0 <= k <= NQ
        invariant Relocated(oq, c, 0) == Relocated(oq, c, k)
      {
        if k != oq {
          var ix := Memchr(k, c);
          if ix.Some? {
            quadrant := k;
            return [Selector(k), Code(ix.value)];
          }
        }
        k := k + 1;
      }
      quadrant := -1;
      return [];
    }

    // download_convert
    method DownloadConvert(buf: seq<byte>) returns (r: seq<byte>)
      modifies this`quadrant
      ensures Coded(r, quadrant) == Encoded(old(quadrant), buf)
      ensures |r| <= 2 * |buf| && (buf != [] ==> r != [])
    {
      hide Stored;
      r := [];
      ghost var q0 := quadrant;
      for i := 0 to |buf|
        invariant Coded(r, quadrant) == Encoded(q0, buf[..i])
        invariant |r| <= 2 * i && (i > 0 ==> r != [])
      {
        ghost var q1, r1 := quadrant, r;
        ByteMeans(quadrant, buf[i]);
        if buf[i] == 0 {
          if quadrant != OTHER_2 {
            quadrant := OTHER_2;
            r := r + [Selector(OTHER_2)];
          }
          r := r + [XLATE_NULL];
        } else {
          var codes := StoreDownload(buf[i]);
          r := r + codes;
        }
        assert Coded(r, quadrant) == Coded(r1 + CodedByte(q1, buf[i]).codes, CodedByte(q1, buf[i]).q);
        OneMore(q0, buf[..i], buf[i]);
        assert buf[..i + 1] == buf[..i] + [buf[i]];
      }
      assert buf[..|buf|] == buf;
    }

    // The loop that reads a character of a text file.
    method GetChar() returns (r: Read)
      modifies this`file
      requires Fits(reader)
      ensures r == ReadChar(reader, [], old(file))
      ensures if r.Got? then file == r.rest && |r.mb| <= MB_MAX else file == []
    {
      ReadFits(reader, [], file);
      var mb: seq<byte> := [];
      ghost var spec := ReadChar(reader, [], file);
      while true
        invariant spec == ReadChar(reader, mb, file)
        invariant spec.Got? ==> |spec.mb| <= MB_MAX
        decreases |file|
      {
        if file == [] {
          return AtEnd;
        }
        var c := file[0];
        file := file[1..];
        mb := mb + [c];
        match reader(mb) {
          case Short =>
          case Invalid => return Got([QUESTION], c, file);
          case Character(_) => return Got(mb, c, file);
        }
      }
    }

    // The codes for what is left of the file.
    ghost function Rest(): seq<byte>
      reads this
    {
      Encoded(quadrant, Expanded(o, reader, lastCr, file)).codes
    }

    // The part of xlate_getc that reads and converts; no codes at the end of the file.
    method NextCodes() returns (codes: seq<byte>)
      requires Fits(reader)
      modifies this`file, this`lastCr, this`quadrant
      ensures old(Rest()) == codes + Rest() && |codes| <= XLATE_NBUF
      ensures codes == [] ==> Rest() == []
    {
      hide Encoded, Expanded, ReadChar, Fits;
      ghost var all := Expanded(o, reader, lastCr, file);
      ghost var q0 := quadrant;
      EncodedNothing(q0);
      var mb: seq<byte>;
      var cr: seq<byte> := [];
      codes := [];
      if o.ascii {
        ExpandedText(o, reader, lastCr, file);
        var got := GetChar();
        if got.AtEnd? {
          ExpandedText(o, reader, lastCr, file);
          return;
        }
        mb := got.mb;
        if o.cr && !lastCr && got.last == LF {
          codes := DownloadConvert([CR]);
          cr := [CR];
        } else {
          lastCr := got.last == CR;
        }
      } else {
        ExpandedBinary(o, reader, lastCr, file);
        if file == [] {
          return;
        }
        mb := [file[0]];
        file := file[1..];
        ExpandedBinary(o, reader, lastCr, file);
      }
      ghost var left := Expanded(o, reader, lastCr, file);
      assert all == cr + mb + left by {
        Assoc(cr, mb, left);
        assert [] + mb == mb;
      }
      SplitCodes(q0, cr, mb, left);
      var more := DownloadConvert(mb);
      codes := codes + more;
    }

    // xlate_getc
    method XlateGetc() returns (r: Option<byte>)
      requires Valid() && !eof
      modifies this`file, this`lastCr, this`quadrant, this`xlateIx, this`xlateBuffered, xlateBuf
      ensures Valid()
      ensures old(Pending()) == (match r case None => [] case Some(c) => [c] + Pending())
      ensures r.None? ==> Pending() == []
    {
      hide Encoded, Expanded, ReadChar, Fits;
      assert Pending() == Buffered() + Rest();
      if xlateBuffered > 0 {
        r := Some(xlateBuf[xlateIx]);
        assert Buffered() == [r.value] + xlateBuf[xlateIx + 1..xlateIx + xlateBuffered];
        xlateIx, xlateBuffered := xlateIx + 1, xlateBuffered - 1;
        Assoc([r.value], Buffered(), Rest());
        return;
      }
      assert Buffered() == [];
      var codes := NextCodes();
      if codes == [] {
        return None;
      }
      r := Some(codes[0]);
      Buffer(codes);
      Assoc([codes[0]], codes[1..], Rest());
      assert [codes[0]] + codes[1..] == codes;
    }

    // Keep all codes but the first.
    method Buffer(codes: seq<byte>)
      requires 0 < |codes| <= XLATE_NBUF && xlateBuf.Length == XLATE_NBUF && xlateBuffered == 0
      requires xlateIx <= XLATE_NBUF
      modifies this`xlateIx, this`xlateBuffered, xlateBuf
      ensures xlateIx + xlateBuffered <= XLATE_NBUF
      ensures Buffered() == codes[1..]
    {
      if |codes| > 1 {
        for i := 1 to |codes|
          invariant xlateBuffered == i - 1
          invariant xlateBuf[..xlateBuffered] == codes[1..i]
        {
          xlateBuf[xlateBuffered] := codes[i];
          xlateBuffered := xlateBuffered + 1;
        }
        xlateIx := 0;
      }
    }

    // cut_data_request, with a file that can be read
    method DataRequest() returns (f: Frame)
      requires Valid()
      modifies this, xlateBuf
      ensures Valid()
      ensures var p := old(Pending());
              f == Framed(if p == [] then EOF_DATA else Payload(p)) && Pending() == Left(p)
    {
      hide Encoded, Expanded, Fits;
      var data: seq<byte> := [];
      ghost var p := Pending();
      while |data| < O_UP_MAX && !eof
        invariant Valid() && |data| <= O_UP_MAX
        invariant p == data + Pending()
        invariant eof ==> Pending() == []
        decreases O_UP_MAX - |data|, !eof
      {
        ghost var before := Pending();
        var c := XlateGetc();
        if c.None? {
          eof := true;
          break;
        }
        assert data + ([c.value] + Pending()) == (data + [c.value]) + Pending();
        data := data + [c.value];
      }
      assert data == Payload(p) && Pending() == Left(p);
      if data == [] && eof {
        data := EOF_DATA;
      }
      f := Framed(data);
    }
  }

  method Memchr(q: nat, c: byte) returns (r: Option<nat>)
    ensures r == XlateIndex(q, c, 0)
  {
    hide Xlate;
    var i := 0;
    while i < NE
      invariant 0 <= i <= NE
      invariant XlateIndex(q, c, 0) == XlateIndex(q, c, i)
    {
      if Xlate(q, i) == c {
        return Some(i);
      }
      i := i + 1;
    }
    return None;
  }

  lemma OneMore(q: Quadrant, s: seq<byte>, c: byte)
    ensures var a := Encoded(q, s);
            var b := CodedByte(a.q, c);
            Encoded(q, s + [c]) == Coded(a.codes + b.codes, b.q)
  {
    hide CodedByte;
    EncodedAppend(q, s, [c]);
    var b := CodedByte(Encoded(q, s).q, c);
    assert [c][1..] == [] && b.codes + [] == b.codes;
  }

  lemma SplitCodes(q: Quadrant, cr: seq<byte>, mb: seq<byte>, left: seq<byte>)
    ensures var a := Encoded(q, cr);
            var b := Encoded(a.q, mb);
            Encoded(q, (cr + mb) + left).codes == (a.codes + b.codes) + Encoded(b.q, left).codes
    ensures Encoded(q, []) == Coded([], q)
  {
    hide CodedByte;
    EncodedAppend(q, cr + mb, left);
    EncodedAppend(q, cr, mb);
  }

  lemma EncodedNothing(q: Quadrant)
    ensures Encoded(q, []) == Coded([], q)
  {
  }

  lemma ExpandedBinary(o: Options, reader: Reader, lastCr: bool, file: seq<byte>)
    requires !o.ascii
    ensures Expanded(o, reader, lastCr, file) == file
    ensures file != [] ==> file == [file[0]] + file[1..]
  {
  }

  lemma ExpandedText(o: Options, reader: Reader, lastCr: bool, file: seq<byte>)
    requires o.ascii
    ensures var r := ReadChar(reader, [], file);
            Expanded(o, reader, lastCr, file)
            == if r.AtEnd? then []
               else if o.cr && !lastCr && r.last == LF
               then [CR] + (r.mb + Expanded(o, reader, lastCr, r.rest))
               else r.mb + Expanded(o, reader, r.last == CR, r.rest)
    ensures ReadChar(reader, [], []) == AtEnd
  {
  }
}
