/** DFT-style file transfer: Get requests answered with pieces of the coded file, and records stored into a file
    (Common/ft_dft.c:219-386, 422-669). */
module DftTransfer {
  import opened Bytes
  import opened CharTables
  import opened LocalText
  import opened DftCode

  const DFT_MAX_UNGETC := 32
  const HEADER := 27

  // The answer to a Get request.
  datatype Reply = Data(recnum: nat, data: seq<byte>) | Eof

  function Min(a: nat, b: nat): nat { if a < b then a else b }

  // --- All Get requests ---------------------------------------------------------------------------

  // The data for a request and what is left, when `p` is still to be sent.
  function Piece(p: seq<byte>, size: nat): seq<byte>
    requires size > HEADER
  {
    p[..Min(|p|, size - HEADER)]
  }

  function After(p: seq<byte>, size: nat): seq<byte>
    requires size > HEADER
  {
    p[Min(|p|, size - HEADER)..]
  }

  function ReplyFor(p: seq<byte>, recnum: nat, size: nat): Reply
    requires size > HEADER
  {
    if p == [] then Eof else Data(recnum, Piece(p, size))
  }

  function NextRecnum(p: seq<byte>, recnum: nat): nat { if p == [] then recnum else recnum + 1 }

  predicate SizesOk(sizes: seq<nat>) { forall i :: 0 <= i < |sizes| ==> sizes[i] > HEADER }

  function Replies(p: seq<byte>, recnum: nat, sizes: seq<nat>): (r: seq<Reply>)
    requires SizesOk(sizes)
    ensures |r| == |sizes|
  {
    if sizes == [] then []
    else [ReplyFor(p, recnum, sizes[0])] + Replies(After(p, sizes[0]), NextRecnum(p, recnum), sizes[1..])
  }

  // The data up to the end-of-file reply.
  function DataOf(r: seq<Reply>): seq<byte>
  {
    if r == [] || r[0].Eof? then [] else r[0].data + DataOf(r[1..])
  }

  function EofIn(r: seq<Reply>): bool { exists i :: 0 <= i < |r| && r[i].Eof? }

  /** For any sequence of buffer sizes: the data adds up to the start of the coded file, and to all of it once
      the end is reported, which it is after enough requests and then for good. */
  lemma {:induction false} RepliesAddUp(p: seq<byte>, recnum: nat, sizes: seq<nat>)
    requires SizesOk(sizes)
    ensures var r := Replies(p, recnum, sizes);
            && DataOf(r) <= p
            && (EofIn(r) ==> DataOf(r) == p)
            && (|sizes| > |p| ==> EofIn(r))
            && (forall i, j :: 0 <= i < j < |r| && r[i].Eof? ==> r[j].Eof?)
    decreases |sizes|
  {
    hide Piece, After;
    if sizes != [] {
      var r := Replies(p, recnum, sizes);
      var rest := After(p, sizes[0]);
      RepliesAddUp(rest, NextRecnum(p, recnum), sizes[1..]);
      PieceAndRest(p, sizes[0]);
      if p == [] {
        EofForever(rest, recnum, sizes[1..]);
        assert r[0].Eof?;
      } else {
        EofLater(r);
      }
    }
  }

  lemma PieceAndRest(p: seq<byte>, size: nat)
    requires size > HEADER
    ensures p == Piece(p, size) + After(p, size)
    ensures p != [] ==> |After(p, size)| < |p|
  {
  }

  lemma EofLater(r: seq<Reply>)
    requires r != [] && r[0].Data?
    ensures EofIn(r) <==> EofIn(r[1..])
    ensures (forall i, j :: 0 <= i < j < |r[1..]| && r[1..][i].Eof? ==> r[1..][j].Eof?)
            ==> (forall i, j :: 0 <= i < j < |r| && r[i].Eof? ==> r[j].Eof?)
  {
    assert forall i :: 0 < i < |r| ==> r[i] == r[1..][i - 1];
    if EofIn(r[1..]) {
      var k :| 0 <= k < |r| - 1 && r[1..][k].Eof?;
      assert r[k + 1].Eof?;
    }
  }

  predicate AllEof(r: seq<Reply>) { forall i :: 0 <= i < |r| ==> r[i].Eof? }

  lemma {:induction false} EofForever(p: seq<byte>, recnum: nat, sizes: seq<nat>)
    requires SizesOk(sizes) && p == []
    ensures AllEof(Replies(p, recnum, sizes))
  {
    hide After;
    if sizes != [] {
      AfterNothing(sizes[0]);
      EofForever(After(p, sizes[0]), recnum, sizes[1..]);
    }
  }

  lemma AfterNothing(size: nat)
    requires size > HEADER
    ensures After([], size) == []
  {
  }

  /** Every piece of data carries the next number, is not empty and fits its buffer. */
  lemma {:induction false} RepliesNumbered(p: seq<byte>, recnum: nat, sizes: seq<nat>)
    requires SizesOk(sizes)
    ensures var r := Replies(p, recnum, sizes);
            forall i :: 0 <= i < |r| && r[i].Data? ==>
              r[i].recnum == recnum + i && 0 < |r[i].data| <= sizes[i] - HEADER
  {
    if sizes != [] {
      var r := Replies(p, recnum, sizes);
      var rest := After(p, sizes[0]);
      RepliesNumbered(rest, NextRecnum(p, recnum), sizes[1..]);
      if p == [] {
        AfterNothing(sizes[0]);
        EofForever(rest, recnum, sizes[1..]);
      }
      assert forall i :: 0 < i < |r| ==> r[i] == r[1..][i - 1] && sizes[i] == sizes[1..][i - 1];
    }
  }

  // --- The sender ---------------------------------------------------------------------------------

  /** The sending side: the file that is left, the state of the code, and the bytes that did not fit the last
      buffer. */
  class Sender {
    const cp: CodePage
    const o: Options
    var file: seq<byte>
    var lastCr: bool
    var lastDbcs: bool
    const ungetcCache: array<byte>
    var ungetcCount: nat
    var eof: bool
    var recnum: nat

    // The state after an Open request.
    constructor (cp: CodePage, o: Options, file: seq<byte>)
      ensures Valid() && fresh(ungetcCache)
      ensures Pending() == Encoded(cp, o, Sent(false, false), file) && recnum == 1
    {
      this.cp, this.o, this.file := cp, o, file;
      lastCr, lastDbcs, ungetcCount, eof, recnum := false, false, 0, false, 1;
      ungetcCache := new byte[DFT_MAX_UNGETC](_ => 0);
      new;
      assert Cached() == [] && [] + Rest() == Rest();
    }

    /** At most two bytes are carried over, and none at the end of the file. */
    ghost predicate Valid()
      reads this, ungetcCache
    {
      && ungetcCache.Length == DFT_MAX_UNGETC && ungetcCount <= 2
      && (!o.remap ==> !lastDbcs)
      && (!Converts(o) ==> ungetcCount == 0)
      && (eof ==> Pending() == [])
    }

    ghost function Cached(): seq<byte>
      requires ungetcCount <= ungetcCache.Length
      reads this, ungetcCache
    {
      ungetcCache[..ungetcCount]
    }

    // The code of the file that is left.
    ghost function Rest(): seq<byte>
      reads this
    {
      Encoded(cp, o, Sent(lastCr, lastDbcs), file)
    }

    // All that is still to be sent.
    ghost function Pending(): seq<byte>
      requires ungetcCount <= ungetcCache.Length
      reads this, ungetcCache
    {
      Cached() + Rest()
    }

    // store_inbyte: `buf` so far and the room that is left
    method StoreInbyte(c: byte, buf: seq<byte>, room: nat) returns (buf1: seq<byte>, room1: nat)
      requires ungetcCount < ungetcCache.Length && (room > 0 ==> ungetcCount == 0)
      modifies this`ungetcCount, ungetcCache
      ensures ungetcCount <= old(ungetcCount) + 1
      ensures |buf1| + room1 == |buf| + room && (room1 > 0 ==> ungetcCount == 0)
      ensures buf1 + Cached() == (buf + old(Cached())) + [c]
      ensures room > 0 ==> |buf1| > 0
      ensures |buf1| >= |buf|
    {
      if room > 0 {
        assert Cached() == [];
        buf1, room1 := buf + [c], room - 1;
        assert Cached() == [];
      } else {
        buf1, room1 := buf, room;
        ungetcCache[ungetcCount] := c;
        ungetcCount := ungetcCount + 1;
        assert Cached() == old(Cached()) + [c];
      }
    }

    // The loop that reads a character.
    method GetChar() returns (r: Read)
      modifies this`file
      ensures r == NextChar(cp, o, old(file))
      ensures file == if r.Got? then r.rest else []
    {
      if !o.remap {
        if file == [] {
          return AtEnd;
        }
        r := Got([file[0]], file[0], file[1..]);
        file := file[1..];
        return;
      }
      var inbuf: seq<byte> := [];
      ghost var spec := ReadChar(cp.reader, [], file);
      while true
        invariant spec == ReadChar(cp.reader, inbuf, file)
        decreases |file|
      {
        if file == [] {
          return AtEnd;
        }
        var c := file[0];
        file := file[1..];
        inbuf := inbuf + [c];
        match cp.reader(inbuf) {
          case Short =>
          case Invalid => return Got([QUESTION], c, file);
          case Character(_) => return Got(inbuf, c, file);
        }
      }
    }

    // The part of dft_ascii_read that empties the cache.
    method FromCache(numbytes: nat) returns (data: seq<byte>)
      requires Valid() && ungetcCount > 0 && numbytes > 0
      modifies this`ungetcCount, ungetcCache
      ensures Valid()
      ensures 0 < |data| <= numbytes && old(Pending()) == data + Pending()
    {
      hide Encoded;
      var nm := if ungetcCount > numbytes then numbytes else ungetcCount;
      data := ungetcCache[..nm];
      ghost var all := Cached();
      ghost var n := ungetcCount;
      for i := 0 to ungetcCount - nm
        invariant ungetcCount == n
        invariant forall k :: 0 <= k < i ==> ungetcCache[k] == all[nm + k]
        invariant forall k :: i <= k < ungetcCount ==> ungetcCache[k] == all[k]
      {
        ungetcCache[i] := ungetcCache[nm + i];
      }
      ungetcCount := ungetcCount - nm;
      assert Cached() == all[nm..];
      assert all == data + Cached();
      Assoc(data, Cached(), Rest());
    }

    // The part of dft_ascii_read that converts a character.
    method FromFile(numbytes: nat) returns (r: Option<seq<byte>>)
      requires Valid() && Converts(o) && !eof && ungetcCount == 0 && numbytes > 0
      modifies this`file, this`lastCr, this`lastDbcs, this`ungetcCount, ungetcCache
      ensures Valid()
      ensures match r
              case None => old(Pending()) == [] == Pending()
              case Some(data) => 0 < |data| <= numbytes && old(Pending()) == data + Pending()
    {
      hide Encoded, NextChar, CharCode, EbcdicOf;
      EncodedStep(cp, o, Sent(lastCr, lastDbcs), file);
      assert Cached() == [] && Pending() == Rest();
      var got := GetChar();
      if got.AtEnd? {
        EncodedNothing(cp, o, lastCr);
        if o.remap && lastDbcs {
          lastDbcs := false;
          assert Pending() == [] && [SI] + [] == [SI];
          return Some([SI]);
        }
        return None;
      }
      if o.cr && !lastCr && got.last == LF {
        if lastDbcs {
          ungetcCache[0], ungetcCache[1] := CR, LF;
          ungetcCount, lastDbcs := 2, false;
          assert Cached() == [CR, LF];
          return Some([SI]);
        }
        ungetcCache[0] := LF;
        ungetcCount := 1;
        assert Cached() == [LF];
        assert [] + ([CR, LF] + Rest()) == [CR] + ([LF] + Rest());
        return Some([CR]);
      }
      lastCr := got.last == CR;
      if !o.remap {
        return Some([got.last]);
      }
      var data := Convert(EbcdicOf(cp, CharOf(cp, got.mb)), numbytes);
      Assoc(data, Cached(), Rest());
      return Some(data);
    }

    // Storing a character, as far as there is room.
    method Convert(e: Ebc, numbytes: nat) returns (data: seq<byte>)
      requires ungetcCount == 0 && numbytes > 0 && ungetcCache.Length == DFT_MAX_UNGETC
      modifies this`lastDbcs, this`ungetcCount, ungetcCache
      ensures 0 < |data| <= numbytes && ungetcCount <= 2
      ensures data + Cached() == CharCode(old(lastDbcs), e) && lastDbcs == (e >= 0x100)
    {
      hide Ft2Asc;
      if e >= 0x100 {
        var room := numbytes;
        data := [];
        assert Cached() == [];
        if !lastDbcs {
          data, room := StoreInbyte(SO, data, room);
        }
        data, room := StoreInbyte(Ft2Asc(e / 0x100), data, room);
        data, room := StoreInbyte(Ft2Asc(e % 0x100), data, room);
        lastDbcs := true;
      } else {
        var nc := if e != 0 then Ft2Asc(e) else QUESTION;
        if lastDbcs {
          ungetcCache[0] := nc;
          ungetcCount, lastDbcs := 1, false;
          assert Cached() == [nc];
          data := [SI];
        } else {
          data := [nc];
          assert Cached() == [];
        }
      }
    }

    // dft_ascii_read; None at the end of the file
    method AsciiRead(numbytes: nat) returns (r: Option<seq<byte>>)
      requires Valid() && Converts(o) && !eof
      modifies this`file, this`lastCr, this`lastDbcs, this`ungetcCount, ungetcCache
      ensures Valid()
      ensures match r
              case None => old(Pending()) == [] == Pending()
              case Some(data) =>
                |data| <= numbytes && (numbytes > 0 ==> data != []) && old(Pending()) == data + Pending()
    {
      if numbytes == 0 {
        assert Pending() == [] + Pending();
        return Some([]);
      }
      if ungetcCount > 0 {
        var data := FromCache(numbytes);
        return Some(data);
      }
      r := FromFile(numbytes);
    }

    // fread, which notices the end of the file only when it asks for more than there is
    method BinaryRead(numbytes: nat) returns (part: seq<byte>)
      requires Valid() && !Converts(o) && !eof && numbytes > 0
      modifies this`file, this`eof
      ensures Valid() && old(Pending()) == part + Pending()
      ensures |part| <= numbytes && (|part| < numbytes ==> Pending() == [])
    {
      hide Encoded;
      BinaryCode(cp, o, Sent(lastCr, lastDbcs));
      assert Cached() == [];
      var n := if |file| < numbytes then |file| else numbytes;
      part := file[..n];
      assert file == part + file[n..];
      eof := n > 0 && |file| < numbytes;
      file := file[n..];
    }

    // The loop that reads a buffer's worth.
    method Fill(room: nat) returns (data: seq<byte>)
      requires Valid()
      modifies this, ungetcCache
      ensures Valid() && recnum == old(recnum)
      ensures old(Pending()) == data + Pending() && |data| <= room
      ensures |data| < room ==> Pending() == []
    {
      hide Encoded;
      var numbytes: nat := room;
      data := [];
      ghost var p := Pending();
      while !eof && numbytes > 0
        invariant Valid() && recnum == old(recnum)
        invariant p == data + Pending() && |data| + numbytes == room
        decreases numbytes, !eof
      {
        if Converts(o) {
          var part := AsciiRead(numbytes);
          if part.None? {
            assert p == data + Pending();
            eof := true;
            break;
          }
          Assoc(data, part.value, Pending());
          data, numbytes := data + part.value, numbytes - |part.value|;
        } else {
          var part := BinaryRead(numbytes);
          Assoc(data, part, Pending());
          data, numbytes := data + part, numbytes - |part|;
          if part == [] || eof {
            break;
          }
        }
      }
    }

    // dft_get_request, with a file that can be read
    method GetRequest(size: nat) returns (r: Reply)
      requires Valid() && size > HEADER
      modifies this, ungetcCache
      ensures Valid()
      ensures r == ReplyFor(old(Pending()), old(recnum), size)
      ensures Pending() == After(old(Pending()), size)
      ensures recnum == NextRecnum(old(Pending()), old(recnum))
      ensures r.Eof? ==> ungetcCount == 0
    {
      hide Encoded, After, Piece, ReplyFor;
      ghost var p := Pending();
      var data := Fill(size - HEADER);
      PieceIs(p, data, Pending(), size);
      AnswerIs(p, data, recnum, size);
      if data != [] {
        r := Data(recnum, data);
        recnum := recnum + 1;
      } else {
        r := Eof;
        eof := true;
      }
    }

    // Any run of Get requests.
    method GetRequests(sizes: seq<nat>) returns (r: seq<Reply>)
      requires Valid() && SizesOk(sizes)
      modifies this, ungetcCache
      ensures Valid()
      ensures r == Replies(old(Pending()), old(recnum), sizes)
    {
      r := [];
      ghost var all := Replies(Pending(), recnum, sizes);
      for i := 0 to |sizes|
        invariant Valid() && all == r + Replies(Pending(), recnum, sizes[i..])
      {
        assert sizes[i..][0] == sizes[i] && sizes[i..][1..] == sizes[i + 1..];
        var reply := GetRequest(sizes[i]);
        Assoc(r, [reply], Replies(Pending(), recnum, sizes[i + 1..]));
        r := r + [reply];
      }
    }
  }

  lemma PieceIs(p: seq<byte>, data: seq<byte>, rest: seq<byte>, size: nat)
    requires size > HEADER && p == data + rest && |data| <= size - HEADER
    requires |data| < size - HEADER ==> rest == []
    ensures data == Piece(p, size) && rest == After(p, size)
    ensures data == [] <==> p == []
  {
  }

  lemma AnswerIs(p: seq<byte>, data: seq<byte>, recnum: nat, size: nat)
    requires size > HEADER && data == Piece(p, size) && (data == [] <==> p == [])
    ensures ReplyFor(p, recnum, size) == if data == [] then Eof else Data(recnum, data)
  {
  }

  lemma EncodedStep(cp: CodePage, o: Options, st: Sent, file: seq<byte>)
    requires Converts(o)
    ensures Encoded(cp, o, st, file)
            == match NextChar(cp, o, file)
               case AtEnd => if o.remap then ShiftIn(st.lastDbcs) else []
               case Got(mb, last, rest) =>
                 if NeedsCr(o, st, last) then
                   ShiftIn(st.lastDbcs) + ([CR, LF] + Encoded(cp, o, Sent(st.lastCr, false), rest))
                 else if !o.remap then [last] + Encoded(cp, o, Sent(last == CR, st.lastDbcs), rest)
                 else
                   var e := EbcdicOf(cp, CharOf(cp, mb));
                   CharCode(st.lastDbcs, e) + Encoded(cp, o, Sent(last == CR, e >= 0x100), rest)
  {
  }

  lemma EncodedNothing(cp: CodePage, o: Options, lastCr: bool)
    ensures Encoded(cp, o, Sent(lastCr, false), []) == []
  {
  }

  lemma BinaryCode(cp: CodePage, o: Options, st: Sent)
    requires !Converts(o)
    ensures forall f :: Encoded(cp, o, st, f) == f
  {
  }

  // --- The receiver -------------------------------------------------------------------------------

  /** The receiving side of file data: the double-byte state and the file stored so far. */
  class Receiver {
    const cp: CodePage
    const o: Options
    var shift: Shift
    var file: seq<byte>

    constructor (cp: CodePage, o: Options)
      ensures this.cp == cp && this.o == o && shift == Single && file == []
    {
      this.cp, this.o, shift, file := cp, o, Single, [];
    }

    // The part of dft_data_insert that stores file data, when the write succeeds.
    method DataInsert(data: seq<byte>)
      modifies this
      ensures var d := Decoded(cp, o, old(shift), data); shift == d.shift && file == old(file) + d.out
    {
      hide Trimmed, Asc2Ft, Ft2Asc;
      if !Converts(o) {
        file := file + data;
        return;
      }
      hide Decoded;
      var ob: seq<byte> := [];
      ghost var shift0 := shift;
      NothingDecoded(cp, o, shift);
      for i := 0 to |data|
        invariant Decoded(cp, o, shift0, data[..i]) == Step(shift, ob) && file == old(file)
      {
        var c := data[i];
        OneMore(cp, o, shift0, data[..i], c);
        assert data[..i + 1] == data[..i] + [c];
        assert ob + [] == ob;
        if o.cr && (c == CR || c == CTRL_Z) {
          continue;
        }
        if !o.remap {
          ob := ob + [c];
          continue;
        }
        match shift {
          case Single =>
            if c == SO {
              shift := Shifted;
            } else if c < 0x20 || (c >= 0x80 && c < 0xA0 && c != 0x9F) {
              ob := ob + Trimmed(cp.fromUnicode(c));
            } else if c == 0xFF {
              ob := ob + Trimmed(cp.fromUnicode(0x9F));
            } else {
              ob := ob + Trimmed(cp.fromEbcdic(Asc2Ft(c)));
            }
          case Shifted =>
            shift := if c == SI then Single else Half(Asc2Ft(c));
          case Half(left) =>
            if c == SI {
              shift := Single;
            } else {
              ob := ob + Trimmed(cp.fromEbcdic(left * 0x100 + Asc2Ft(c)));
              shift := Shifted;
            }
        }
      }
      assert data[..|data|] == data;
      file := file + ob;
    }
  }

  lemma OneMore(cp: CodePage, o: Options, shift: Shift, data: seq<byte>, c: byte)
    requires Converts(o)
    ensures var a := Decoded(cp, o, shift, data);
            var b := StepOf(cp, o, a.shift, c);
            Decoded(cp, o, shift, data + [c]) == Step(b.shift, a.out + b.out)
  {
    hide StepOf;
    DecodedAppend(cp, o, shift, data, [c]);
    var a := Decoded(cp, o, shift, data);
    var b := StepOf(cp, o, a.shift, c);
    OneByte(cp, o, a.shift, c, []);
    assert [c] + [] == [c] && b.out + [] == b.out;
  }
}
