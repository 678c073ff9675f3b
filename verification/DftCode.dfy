/** The character code of DFT-style file transfer (Common/ft_dft.c:219-386, 439-563): text is sent in the code
    that IND$FILE will translate to the right EBCDIC, with double-byte text framed by SO and SI. */
module DftCode {
  import opened Bytes
  import opened CharTables
  import opened LocalText

  const SO: byte := 0x0E
  const SI: byte := 0x0F

  type Ebc = e: int | 0 <= e < 0x1_0000

  /** The conversions between the local multi-byte code, Unicode and the host code page: an EBCDIC code of 0
      means that there is none, and the results of the last two may end in a NUL. */
  datatype CodePage = CodePage(reader: Reader, toEbcdic: nat -> Ebc,
                               fromEbcdic: nat -> seq<byte>, fromUnicode: nat -> seq<byte>)

  datatype Options = Options(ascii: bool, cr: bool, remap: bool)

  // Whether text is converted at all.
  predicate Converts(o: Options) { o.ascii && (o.remap || o.cr) }

  predicate IsControl(u: int) { 0 <= u < 0x20 || 0x80 <= u <= 0x9F }

  // --- Sending ----------------------------------------------------------------------------------

  // What the sender remembers: the last byte read was a CR; the last character sent was double-byte.
  datatype Sent = Sent(lastCr: bool, lastDbcs: bool)

  function CharOf(cp: CodePage, mb: seq<byte>): nat
  {
    match cp.reader(mb) case Character(u) => u case _ => 0
  }

  function EbcdicOf(cp: CodePage, u: nat): Ebc
  {
    if u < 0x20 || 0x80 <= u < 0x9F then Asc2Ft(u) else if u == 0x9F then 0xFF else cp.toEbcdic(u)
  }

  function ShiftIn(lastDbcs: bool): seq<byte> { if lastDbcs then [SI] else [] }

  function ShiftOut(lastDbcs: bool): seq<byte> { if lastDbcs then [] else [SO] }

  // The code of a character, after what was sent before it.
  function CharCode(lastDbcs: bool, e: Ebc): seq<byte>
  {
    if e >= 0x100 then ShiftOut(lastDbcs) + [Ft2Asc(e / 0x100), Ft2Asc(e % 0x100)]
    else ShiftIn(lastDbcs) + [if e == 0 then QUESTION else Ft2Asc(e)]
  }

  function NextChar(cp: CodePage, o: Options, file: seq<byte>): (r: Read)
    ensures r.Got? ==> r.mb != [] && |r.rest| < |file|
  {
    if o.remap then ReadChar(cp.reader, [], file)
    else if file == [] then AtEnd
    else Got([file[0]], file[0], file[1..])
  }

  predicate NeedsCr(o: Options, st: Sent, last: byte) { o.cr && !st.lastCr && last == LF }

  // The code of a file.
  function Encoded(cp: CodePage, o: Options, st: Sent, file: seq<byte>): seq<byte>
    decreases |file|
  {
    if !Converts(o) then file
    else
      match NextChar(cp, o, file)
      case AtEnd => if o.remap then ShiftIn(st.lastDbcs) else []
      case Got(mb, last, rest) =>
        if NeedsCr(o, st, last) then
          ShiftIn(st.lastDbcs) + ([CR, LF] + Encoded(cp, o, Sent(st.lastCr, false), rest))
        else if !o.remap then [last] + Encoded(cp, o, Sent(last == CR, st.lastDbcs), rest)
        else
          var e := EbcdicOf(cp, CharOf(cp, mb));
          CharCode(st.lastDbcs, e) + Encoded(cp, o, Sent(last == CR, e >= 0x100), rest)
  }

  // --- Receiving --------------------------------------------------------------------------------

  // FT_DBCS_NONE, FT_DBCS_SO, FT_DBCS_LEFT with the left half.
  datatype Shift = Single | Shifted | Half(left: byte)

  // A conversion without its final NUL.
  function Trimmed(b: seq<byte>): seq<byte>
  {
    if b != [] && b[|b| - 1] == 0 then b[..|b| - 1] else b
  }

  function SingleByte(cp: CodePage, c: byte): seq<byte>
  {
    if c < 0x20 || (0x80 <= c < 0xA0 && c != 0x9F) then Trimmed(cp.fromUnicode(c))
    else if c == 0xFF then Trimmed(cp.fromUnicode(0x9F))
    else Trimmed(cp.fromEbcdic(Asc2Ft(c)))
  }

  datatype Step = Step(shift: Shift, out: seq<byte>)

  // One byte of the receive loop.
  function StepOf(cp: CodePage, o: Options, shift: Shift, c: byte): Step
  {
    if Dropped(o.cr, c) then Step(shift, [])
    else if !o.remap then Step(shift, [c])
    else
      match shift
      case Single => if c == SO then Step(Shifted, []) else Step(Single, SingleByte(cp, c))
      case Shifted => if c == SI then Step(Single, []) else Step(Half(Asc2Ft(c)), [])
      case Half(left) =>
        if c == SI then Step(Single, [])
        else Step(Shifted, Trimmed(cp.fromEbcdic(left * 0x100 + Asc2Ft(c))))
  }

  function Decoded(cp: CodePage, o: Options, shift: Shift, data: seq<byte>): Step
    decreases |data|
  {
    if !Converts(o) then Step(shift, data)
    else if data == [] then Step(shift, [])
    else
      var a := StepOf(cp, o, shift, data[0]);
      var b := Decoded(cp, o, a.shift, data[1..]);
      Step(b.shift, a.out + b.out)
  }

  /** Records of any lengths are decoded like the data they make up. */
  lemma {:induction false} DecodedAppend(cp: CodePage, o: Options, shift: Shift, a: seq<byte>, b: seq<byte>)
    ensures var x := Decoded(cp, o, shift, a);
            var y := Decoded(cp, o, x.shift, b);
            Decoded(cp, o, shift, a + b) == Step(y.shift, x.out + y.out)
    decreases |a|
  {
    hide StepOf;
    if !Converts(o) {
    } else if a == [] {
      assert a + b == b;
      assert [] + Decoded(cp, o, shift, b).out == Decoded(cp, o, shift, b).out;
    } else {
      var h := StepOf(cp, o, shift, a[0]);
      DecodedAppend(cp, o, h.shift, a[1..], b);
      assert (a + b)[1..] == a[1..] + b;
      var x := Decoded(cp, o, h.shift, a[1..]);
      Assoc(h.out, x.out, Decoded(cp, o, x.shift, b).out);
    }
  }

  // --- The tables -------------------------------------------------------------------------------

  // A displayable code: it is received as itself, and is neither a control nor a shift.
  predicate Displayable(e: int)
  {
    && 0 < e < 0x100 && Asc2Ft(Ft2Asc(e)) == e
    && Ft2Asc(e) >= 0x20 && Ft2Asc(e) != 0xFF && !(0x80 <= Ft2Asc(e) < 0xA0 && Ft2Asc(e) != 0x9F)
  }

  lemma DisplayableRow4(e: int)
    requires 0x40 <= e <= 0x4F
    ensures Displayable(e)
  {
  }

  lemma DisplayableRow5(e: int)
    requires 0x50 <= e <= 0x5F
    ensures Displayable(e)
  {
  }

  lemma DisplayableRow6(e: int)
    requires 0x60 <= e <= 0x6F
    ensures Displayable(e)
  {
  }

  lemma DisplayableRow7(e: int)
    requires 0x70 <= e <= 0x7F
    ensures Displayable(e)
  {
  }

  lemma DisplayableRow8(e: int)
    requires 0x80 <= e <= 0x8F
    ensures Displayable(e)
  {
  }

  lemma DisplayableRow9(e: int)
    requires 0x90 <= e <= 0x9F
    ensures Displayable(e)
  {
  }

  lemma DisplayableRowA(e: int)
    requires 0xA0 <= e <= 0xAF
    ensures Displayable(e)
  {
  }

  lemma DisplayableRowB(e: int)
    requires 0xB0 <= e <= 0xBF
    ensures Displayable(e)
  {
  }

  lemma DisplayableRowC(e: int)
    requires 0xC0 <= e <= 0xCF
    ensures Displayable(e)
  {
  }

  lemma DisplayableRowD(e: int)
    requires 0xD0 <= e <= 0xDF
    ensures Displayable(e)
  {
  }

  lemma DisplayableRowE(e: int)
    requires 0xE0 <= e <= 0xEF
    ensures Displayable(e)
  {
  }

  lemma DisplayableRowF(e: int)
    requires 0xF0 <= e <= 0xFE
    ensures Displayable(e)
  {
  }

  lemma DisplayableCodes(e: int)
    requires 0x40 <= e <= 0xFE
    ensures Displayable(e)
  {
    hide Displayable;
    match e / 16 {
      case 4 => DisplayableRow4(e);
      case 5 => DisplayableRow5(e);
      case 6 => DisplayableRow6(e);
      case 7 => DisplayableRow7(e);
      case 8 => DisplayableRow8(e);
      case 9 => DisplayableRow9(e);
      case 10 => DisplayableRowA(e);
      case 11 => DisplayableRowB(e);
      case 12 => DisplayableRowC(e);
      case 13 => DisplayableRowD(e);
      case 14 => DisplayableRowE(e);
      case _ => DisplayableRowF(e);
    }
  }

  lemma ControlCodes(u: int)
    requires IsControl(u) && u !in {0, 0x0E, 0x8E, 0x9F}
    ensures 0 < Asc2Ft(u) && Ft2Asc(Asc2Ft(u)) == u
  {
    if u < 0x20 {
      LowControlCodes(u);
    }
  }

  lemma LowControlCodes(u: int)
    requires 0 < u < 0x20 && u != 0x0E
    ensures 0 < Asc2Ft(u) && Ft2Asc(Asc2Ft(u)) == u
  {
  }

  // --- Round trip -----------------------------------------------------------------------------------

  type Local = nat -> seq<byte>

  // The local code of a character is read as that character, byte by byte.
  ghost predicate Reads(cp: CodePage, local: Local, u: nat)
  {
    var b := local(u);
    && b != [] && cp.reader(b) == Character(u)
    && (forall k :: 0 < k < |b| ==> cp.reader(b[..k]) == Short)
    && (b[|b| - 1] == LF <==> u == 0x0A) && (b[|b| - 1] == CR <==> u == 0x0D)
  }

  // Converting back gives the local code of the character.
  predicate Writes(cp: CodePage, local: Local, u: nat)
  {
    Trimmed(if IsControl(u) then cp.fromUnicode(u) else cp.fromEbcdic(cp.toEbcdic(u))) == local(u)
  }

  // The characters that the code is made for: controls but three, and EBCDIC codes with bytes 40 to FE.
  predicate Transferable(cp: CodePage, u: nat)
  {
    if IsControl(u) then u !in {0, 0x0E, 0x8E}
    else
      var e := cp.toEbcdic(u);
      0x40 <= e % 0x100 <= 0xFE && (e < 0x100 || 0x40 <= e / 0x100 <= 0xFE)
  }

  type Chars = seq<nat>

  ghost predicate TextOk(cp: CodePage, local: Local, t: Chars)
  {
    forall i :: 0 <= i < |t| ==> Reads(cp, local, t[i]) && Writes(cp, local, t[i]) && Transferable(cp, t[i])
  }

  function LocalBytes(local: Local, t: Chars): seq<byte>
  {
    if t == [] then [] else local(t[0]) + LocalBytes(local, t[1..])
  }

  // What arrives: everything, or everything but CRs and Ctrl-Zs.
  function Expected(strip: bool, t: Chars): Chars
  {
    if t == [] then []
    else (if strip && t[0] in {0x0D, 0x1A} then [] else [t[0]]) + Expected(strip, t[1..])
  }

  lemma {:induction false} ReadsChar(cp: CodePage, local: Local, u: nat, k: nat, rest: seq<byte>)
    requires Reads(cp, local, u) && k < |local(u)|
    ensures var b := local(u);
            ReadChar(cp.reader, b[..k], b[k..] + rest) == Got(b, b[|b| - 1], rest)
    decreases |local(u)| - k
  {
    var b := local(u);
    var file := b[k..] + rest;
    assert file[0] == b[k] && b[..k] + [b[k]] == b[..k + 1] && file[1..] == b[k + 1..] + rest;
    if k + 1 < |b| {
      ReadsChar(cp, local, u, k + 1, rest);
    } else {
      assert b[..k + 1] == b && b[k + 1..] == [] && [] + rest == rest;
    }
  }

  function ShiftOf(lastDbcs: bool): Shift { if lastDbcs then Shifted else Single }

  // The shift characters do what they say.
  lemma ShiftsArrive(cp: CodePage, o: Options, lastDbcs: bool, data: seq<byte>)
    requires Converts(o) && o.remap
    ensures Decoded(cp, o, ShiftOf(lastDbcs), ShiftIn(lastDbcs) + data) == Decoded(cp, o, Single, data)
    ensures Decoded(cp, o, ShiftOf(lastDbcs), ShiftOut(lastDbcs) + data) == Decoded(cp, o, Shifted, data)
  {
    hide SingleByte;
    assert [] + data == data && ([SI] + data)[1..] == data && ([SO] + data)[1..] == data;
    assert [] + Decoded(cp, o, Single, data).out == Decoded(cp, o, Single, data).out;
    assert [] + Decoded(cp, o, Shifted, data).out == Decoded(cp, o, Shifted, data).out;
  }

  lemma OneByte(cp: CodePage, o: Options, shift: Shift, c: byte, data: seq<byte>)
    requires Converts(o)
    ensures var a := StepOf(cp, o, shift, c);
            var b := Decoded(cp, o, a.shift, data);
            Decoded(cp, o, shift, [c] + data) == Step(b.shift, a.out + b.out)
  {
    assert ([c] + data)[1..] == data;
  }

  // What a single character turns into.
  function Arrived(strip: bool, local: Local, u: nat): seq<byte>
  {
    if strip && u in {0x0D, 0x1A} then [] else local(u)
  }

  lemma SingleArrives(cp: CodePage, o: Options, local: Local, u: nat)
    requires o.remap && Writes(cp, local, u) && Transferable(cp, u) && EbcdicOf(cp, u) < 0x100
    ensures 0 < EbcdicOf(cp, u)
    ensures StepOf(cp, o, Single, Ft2Asc(EbcdicOf(cp, u))) == Step(Single, Arrived(o.cr, local, u))
  {
    hide Asc2Ft, Ft2Asc, Trimmed;
    if u == 0x9F {
      assert Ft2Asc(0xFF) == 0xFF by { LastCode(); }
    } else if IsControl(u) {
      ControlCodes(u);
    } else {
      DisplayableCodes(EbcdicOf(cp, u));
    }
  }

  lemma LastCode()
    ensures Ft2Asc(0xFF) == 0xFF
  {
  }

  lemma DoubleArrives(cp: CodePage, o: Options, local: Local, u: nat, data: seq<byte>)
    requires Converts(o) && o.remap && Writes(cp, local, u) && Transferable(cp, u) && EbcdicOf(cp, u) >= 0x100
    ensures var e := EbcdicOf(cp, u);
            var b := Decoded(cp, o, Shifted, data);
            Decoded(cp, o, Shifted, [Ft2Asc(e / 0x100), Ft2Asc(e % 0x100)] + data)
            == Step(b.shift, Arrived(o.cr, local, u) + b.out)
  {
    hide Asc2Ft, Ft2Asc, Trimmed, Decoded;
    var e := EbcdicOf(cp, u);
    var h, l := Ft2Asc(e / 0x100), Ft2Asc(e % 0x100);
    DisplayableCodes(e / 0x100);
    DisplayableCodes(e % 0x100);
    OneByte(cp, o, Shifted, h, [l] + data);
    OneByte(cp, o, Half(Asc2Ft(h)), l, data);
    assert [h, l] + data == [h] + ([l] + data);
    var out := local(u) + Decoded(cp, o, Shifted, data).out;
    assert [] + out == out;
  }

  // A character arrives, and both ends agree on the shift.
  lemma CharArrives(cp: CodePage, o: Options, local: Local, lastDbcs: bool, u: nat, data: seq<byte>)
    requires Converts(o) && o.remap && Writes(cp, local, u) && Transferable(cp, u)
    ensures var e := EbcdicOf(cp, u);
            var b := Decoded(cp, o, ShiftOf(e >= 0x100), data);
            Decoded(cp, o, ShiftOf(lastDbcs), CharCode(lastDbcs, e) + data)
            == Step(b.shift, Arrived(o.cr, local, u) + b.out)
  {
    hide Decoded, StepOf, Ft2Asc, Writes, Transferable, Arrived, EbcdicOf;
    var e := EbcdicOf(cp, u);
    if e >= 0x100 {
      var hl := [Ft2Asc(e / 0x100), Ft2Asc(e % 0x100)];
      Assoc(ShiftOut(lastDbcs), hl, data);
      ShiftsArrive(cp, o, lastDbcs, hl + data);
      DoubleArrives(cp, o, local, u, data);
    } else {
      SingleArrives(cp, o, local, u);
      Assoc(ShiftIn(lastDbcs), [Ft2Asc(e)], data);
      ShiftsArrive(cp, o, lastDbcs, [Ft2Asc(e)] + data);
      OneByte(cp, o, Single, Ft2Asc(e), data);
    }
  }

  lemma NewlineArrives(cp: CodePage, o: Options, local: Local, lastDbcs: bool, data: seq<byte>)
    requires Converts(o) && o.remap && o.cr && Writes(cp, local, 0x0A)
    ensures var b := Decoded(cp, o, Single, data);
            Decoded(cp, o, ShiftOf(lastDbcs), ShiftIn(lastDbcs) + ([CR, LF] + data))
            == Step(b.shift, local(0x0A) + b.out)
  {
    hide Decoded, Asc2Ft, Trimmed;
    ShiftsArrive(cp, o, lastDbcs, [CR, LF] + data);
    OneByte(cp, o, Single, CR, [LF] + data);
    OneByte(cp, o, Single, LF, data);
    assert [CR, LF] + data == [CR] + ([LF] + data);
    var out := local(0x0A) + Decoded(cp, o, Single, data).out;
    assert [] + out == out;
  }

  /** Mixed text arrives exactly, or with CR processing without its CRs and Ctrl-Zs, and the receiver ends up
      unshifted. */
  lemma {:induction false} TextArrives(cp: CodePage, o: Options, local: Local, st: Sent, t: Chars)
    requires Converts(o) && o.remap && TextOk(cp, local, t)
    ensures Decoded(cp, o, ShiftOf(st.lastDbcs), Encoded(cp, o, st, LocalBytes(local, t)))
            == Step(Single, LocalBytes(local, Expected(o.cr, t)))
    decreases |t|
  {
    hide Decoded, Reads, Writes, Transferable, EbcdicOf, CharCode, ShiftIn;
    if t == [] {
      NothingArrives(cp, o, st.lastDbcs);
    } else {
      var u, rest := t[0], LocalBytes(local, t[1..]);
      FirstChar(cp, o, local, st, u, rest);
      ExpectedBytes(o.cr, local, t);
      TextArrives(cp, o, local, Sent(st.lastCr, false), t[1..]);
      TextArrives(cp, o, local, Sent(u == 0x0D, EbcdicOf(cp, u) >= 0x100), t[1..]);
      if NeedsCr(o, st, if u == 0x0A then LF else 0) {
        NewlineArrives(cp, o, local, st.lastDbcs, Encoded(cp, o, Sent(st.lastCr, false), rest));
      } else {
        CharArrives(cp, o, local, st.lastDbcs, u, Encoded(cp, o, Sent(u == 0x0D, EbcdicOf(cp, u) >= 0x100), rest));
      }
    }
  }

  lemma NothingArrives(cp: CodePage, o: Options, lastDbcs: bool)
    requires Converts(o) && o.remap
    ensures Decoded(cp, o, ShiftOf(lastDbcs), ShiftIn(lastDbcs)) == Step(Single, [])
  {
    ShiftsArrive(cp, o, lastDbcs, []);
    assert ShiftIn(lastDbcs) + [] == ShiftIn(lastDbcs);
  }

  // Reading and coding the first character of some text.
  lemma FirstChar(cp: CodePage, o: Options, local: Local, st: Sent, u: nat, rest: seq<byte>)
    requires Converts(o) && o.remap && Reads(cp, local, u)
    ensures Encoded(cp, o, st, local(u) + rest)
            == if NeedsCr(o, st, if u == 0x0A then LF else 0)
               then ShiftIn(st.lastDbcs) + ([CR, LF] + Encoded(cp, o, Sent(st.lastCr, false), rest))
               else CharCode(st.lastDbcs, EbcdicOf(cp, u))
                    + Encoded(cp, o, Sent(u == 0x0D, EbcdicOf(cp, u) >= 0x100), rest)
  {
    hide EbcdicOf, CharCode, ShiftIn, ReadChar;
    ReadsChar(cp, local, u, 0, rest);
    assert local(u)[..0] == [] && local(u)[0..] == local(u);
  }

  lemma ExpectedBytes(strip: bool, local: Local, t: Chars)
    requires t != []
    ensures LocalBytes(local, Expected(strip, t))
            == Arrived(strip, local, t[0]) + LocalBytes(local, Expected(strip, t[1..]))
  {
    var rest := Expected(strip, t[1..]);
    assert [] + rest == rest && ([t[0]] + rest)[1..] == rest;
    assert [] + LocalBytes(local, rest) == LocalBytes(local, rest);
  }

  /** Without remapping, a text file arrives without its CRs and Ctrl-Zs. */
  lemma {:induction false} PlainTextArrives(cp: CodePage, o: Options, st: Sent, shift: Shift, file: seq<byte>)
    requires Converts(o) && !o.remap && !st.lastDbcs
    ensures Decoded(cp, o, shift, Encoded(cp, o, st, file)) == Step(shift, Kept(o.cr, file))
    decreases |file|
  {
    hide Decoded;
    if file == [] {
      NothingDecoded(cp, o, shift);
    } else {
      var last, rest := file[0], file[1..];
      PlainTextArrives(cp, o, Sent(st.lastCr, false), shift, rest);
      PlainTextArrives(cp, o, Sent(last == CR, st.lastDbcs), shift, rest);
      if NeedsCr(o, st, last) {
        PlainNewline(cp, o, shift, Encoded(cp, o, Sent(st.lastCr, false), rest));
      } else {
        OneByte(cp, o, shift, last, Encoded(cp, o, Sent(last == CR, st.lastDbcs), rest));
      }
    }
  }

  lemma PlainNewline(cp: CodePage, o: Options, shift: Shift, data: seq<byte>)
    requires Converts(o) && !o.remap && o.cr
    ensures var b := Decoded(cp, o, shift, data);
            Decoded(cp, o, shift, [] + ([CR, LF] + data)) == Step(b.shift, [LF] + b.out)
  {
    hide Decoded;
    OneByte(cp, o, shift, CR, [LF] + data);
    OneByte(cp, o, shift, LF, data);
    assert [] + ([CR, LF] + data) == [CR] + ([LF] + data);
    var out := [LF] + Decoded(cp, o, shift, data).out;
    assert [] + out == out;
  }

  lemma NothingDecoded(cp: CodePage, o: Options, shift: Shift)
    ensures Decoded(cp, o, shift, []) == Step(shift, [])
  {
  }

  // What a receiver makes of one record after another.
  function DecodedRecords(cp: CodePage, o: Options, shift: Shift, records: seq<seq<byte>>): Step
    decreases |records|
  {
    if records == [] then Step(shift, [])
    else
      var a := Decoded(cp, o, shift, records[0]);
      var b := DecodedRecords(cp, o, a.shift, records[1..]);
      Step(b.shift, a.out + b.out)
  }

  lemma {:induction false} RecordsJoin(cp: CodePage, o: Options, shift: Shift, records: seq<seq<byte>>)
    ensures DecodedRecords(cp, o, shift, records) == Decoded(cp, o, shift, Joined(records))
    decreases |records|
  {
    hide Decoded;
    if records == [] {
      NothingDecoded(cp, o, shift);
    } else {
      var a := Decoded(cp, o, shift, records[0]);
      RecordsJoin(cp, o, a.shift, records[1..]);
      DecodedAppend(cp, o, shift, records[0], Joined(records[1..]));
    }
  }

  /** However the code of a text is cut into records, even between the halves of a character, the text
      arrives. */
  lemma RecordsArrive(cp: CodePage, o: Options, local: Local, t: Chars, records: seq<seq<byte>>)
    requires Converts(o) && o.remap && TextOk(cp, local, t)
    requires Joined(records) == Encoded(cp, o, Sent(false, false), LocalBytes(local, t))
    ensures DecodedRecords(cp, o, Single, records) == Step(Single, LocalBytes(local, Expected(o.cr, t)))
  {
    hide Decoded, Encoded, TextOk;
    RecordsJoin(cp, o, Single, records);
    TextArrives(cp, o, local, Sent(false, false), t);
  }

  /** Of the controls, exactly U+0000, U+000E and U+008E do not come back. */
  lemma ControlComesBack(cp: CodePage, o: Options, local: Local, u: nat)
    requires Converts(o) && o.remap && !o.cr && IsControl(u) && Reads(cp, local, u) && Writes(cp, local, u)
    requires Writes(cp, local, 0x0A) && Trimmed(cp.fromEbcdic(0x6F)) == local(QUESTION)
    requires local(0) != local(QUESTION) && local(0x8E) != local(0x0A)
    ensures Decoded(cp, o, Single, Encoded(cp, o, Sent(false, false), local(u))).out == local(u)
            <==> u !in {0, 0x0E, 0x8E}
  {
    hide Decoded, ReadChar, Asc2Ft, Ft2Asc, Trimmed;
    assert local(u) + [] == local(u);
    FirstChar(cp, o, local, Sent(false, false), u, []);
    var e := EbcdicOf(cp, u);
    var after := Sent(u == 0x0D, e >= 0x100);
    assert Encoded(cp, o, after, []) == ShiftIn(e >= 0x100);
    NothingDecoded(cp, o, Single);
    NothingDecoded(cp, o, Shifted);
    LostControls();
    if u in {0, 0x0E, 0x8E} {
      var c := CharCode(false, e)[0];
      OneByte(cp, o, Single, c, []);
      assert CharCode(false, e) == [c] && [c] + [] == [c];
    } else {
      CharArrives(cp, o, local, false, u, []);
      assert local(u) + [] == local(u);
    }
  }

  // A code page of single bytes.
  const ONE_BYTE := CodePage(b => if |b| == 1 then Character(b[0]) else Invalid,
                             u => 0x40, e => [QUESTION], u => [u % 256, 0])

  // In it, the control U+000E is read and written, but does not come back.
  lemma ShiftOutLost()
    ensures var o, local := Options(true, false, true), (u: nat) => [(u % 256) as byte];
            && Reads(ONE_BYTE, local, 0x0E) && Writes(ONE_BYTE, local, 0x0E)
            && Decoded(ONE_BYTE, o, Single, Encoded(ONE_BYTE, o, Sent(false, false), local(0x0E))).out
               != local(0x0E)
  {
    hide Decoded, Encoded, Asc2Ft, Ft2Asc;
    var o, local := Options(true, false, true), (u: nat) => [(u % 256) as byte];
    LostControls();
    ControlComesBack(ONE_BYTE, o, local, 0x0E);
  }

  // Where the lost controls end up: U+0000 has no code, U+000E is a shift and U+008E turns into a newline.
  lemma LostControls()
    ensures Asc2Ft(0) == 0 && Asc2Ft(QUESTION) == 0x6F
    ensures Asc2Ft(0x0E) != 0 && Ft2Asc(Asc2Ft(0x0E)) == SO
    ensures Asc2Ft(0x8E) != 0 && Ft2Asc(Asc2Ft(0x8E)) == LF
  {
  }
}
