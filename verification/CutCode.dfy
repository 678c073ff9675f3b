/** The quadrant code of CUT-style file transfer (Common/ft_cut.c:50-385): 77 printable characters stand for
    the bytes of four overlapping quadrants, and a selector announces each change of quadrant. */
module CutCode {
  import opened Bytes
  import opened CharTables
  import opened LocalText

  const NQ := 4
  const NE := 77
  const OTHER_2 := 2
  const XLATE_NULL: byte := 0xC1

  // No quadrant yet, or one of the four.
  type Quadrant = q: int | -1 <= q < 4

  // --- Tables -----------------------------------------------------------------------------------

  function Selector(q: nat): byte {
    match q case 0 => 0x5E case 1 => 0x7E case 2 => 0x5C case _ => 0x7D
  }

  // conv[q].xlate[ix]
  function Xlate(q: nat, ix: nat): byte {
    match q case 0 => Xlate0(ix) case 1 => Xlate1(ix) case 2 => Xlate2(ix) case _ => Xlate3(ix)
  }

  function Xlate0(ix: nat): byte {
    match ix / 16
    case 0 => Xlate0Row0(ix % 16) case 1 => Xlate0Row1(ix % 16) case 2 => Xlate0Row2(ix % 16)
    case 3 => Xlate0Row3(ix % 16) case _ => Xlate0Row4(ix % 16)
  }

  function Xlate0Row0(k: nat): byte {
    match k
    case 0 => 0x40 case 1 => 0xC1 case 2 => 0xC2 case 3 => 0xC3
    case 4 => 0xC4 case 5 => 0xC5 case 6 => 0xC6 case 7 => 0xC7
    case 8 => 0xC8 case 9 => 0xC9 case 10 => 0xD1 case 11 => 0xD2
    case 12 => 0xD3 case 13 => 0xD4 case 14 => 0xD5 case _ => 0xD6
  }

  function Xlate0Row1(k: nat): byte {
    match k
    case 0 => 0xD7 case 1 => 0xD8 case 2 => 0xD9 case 3 => 0xE2
    case 4 => 0xE3 case 5 => 0xE4 case 6 => 0xE5 case 7 => 0xE6
    case 8 => 0xE7 case 9 => 0xE8 case 10 => 0xE9 case 11 => 0x81
    case 12 => 0x82 case 13 => 0x83 case 14 => 0x84 case _ => 0x85
  }

  function Xlate0Row2(k: nat): byte {
    match k
    case 0 => 0x86 case 1 => 0x87 case 2 => 0x88 case 3 => 0x89
    case 4 => 0x91 case 5 => 0x92 case 6 => 0x93 case 7 => 0x94
    case 8 => 0x95 case 9 => 0x96 case 10 => 0x97 case 11 => 0x98
    case 12 => 0x99 case 13 => 0xA2 case 14 => 0xA3 case _ => 0xA4
  }

  function Xlate0Row3(k: nat): byte {
    match k
    case 0 => 0xA5 case 1 => 0xA6 case 2 => 0xA7 case 3 => 0xA8
    case 4 => 0xA9 case 5 => 0xF0 case 6 => 0xF1 case 7 => 0xF2
    case 8 => 0xF3 case 9 => 0xF4 case 10 => 0xF5 case 11 => 0xF6
    case 12 => 0xF7 case 13 => 0xF8 case 14 => 0xF9 case _ => 0x6C
  }

  function Xlate0Row4(k: nat): byte {
    match k
    case 0 => 0x50 case 1 => 0x6D case 2 => 0x4D case 3 => 0x5D
    case 4 => 0x4C case 5 => 0x4E case 6 => 0x6B case 7 => 0x60
    case 8 => 0x4B case 9 => 0x61 case 10 => 0x7A case 11 => 0x6E
    case _ => 0x6F
  }

  function Xlate1(ix: nat): byte {
    match ix / 16
    case 0 => Xlate1Row0(ix % 16) case 1 => Xlate1Row1(ix % 16) case 2 => Xlate1Row2(ix % 16)
    case 3 => Xlate1Row3(ix % 16) case _ => Xlate1Row4(ix % 16)
  }

  function Xlate1Row0(k: nat): byte {
    match k
    case 0 => 0x20 case 1 => 0x41 case 2 => 0x42 case 3 => 0x43
    case 4 => 0x44 case 5 => 0x45 case 6 => 0x46 case 7 => 0x47
    case 8 => 0x48 case 9 => 0x49 case 10 => 0x4A case 11 => 0x4B
    case 12 => 0x4C case 13 => 0x4D case 14 => 0x4E case _ => 0x4F
  }

  function Xlate1Row1(k: nat): byte {
    match k
    case 0 => 0x50 case 1 => 0x51 case 2 => 0x52 case 3 => 0x53
    case 4 => 0x54 case 5 => 0x55 case 6 => 0x56 case 7 => 0x57
    case 8 => 0x58 case 9 => 0x59 case 10 => 0x5A case 11 => 0x61
    case 12 => 0x62 case 13 => 0x63 case 14 => 0x64 case _ => 0x65
  }

  function Xlate1Row2(k: nat): byte {
    match k
    case 0 => 0x66 case 1 => 0x67 case 2 => 0x68 case 3 => 0x69
    case 4 => 0x6A case 5 => 0x6B case 6 => 0x6C case 7 => 0x6D
    case 8 => 0x6E case 9 => 0x6F case 10 => 0x70 case 11 => 0x71
    case 12 => 0x72 case 13 => 0x73 case 14 => 0x74 case _ => 0x75
  }

  function Xlate1Row3(k: nat): byte {
    match k
    case 0 => 0x76 case 1 => 0x77 case 2 => 0x78 case 3 => 0x79
    case 4 => 0x7A case 5 => 0x30 case 6 => 0x31 case 7 => 0x32
    case 8 => 0x33 case 9 => 0x34 case 10 => 0x35 case 11 => 0x36
    case 12 => 0x37 case 13 => 0x38 case 14 => 0x39 case _ => 0x25
  }

  function Xlate1Row4(k: nat): byte {
    match k
    case 0 => 0x26 case 1 => 0x27 case 2 => 0x28 case 3 => 0x29
    case 4 => 0x2A case 5 => 0x2B case 6 => 0x2C case 7 => 0x2D
    case 8 => 0x2E case 9 => 0x2F case 10 => 0x3A case 11 => 0x3B
    case _ => 0x3F
  }

  function Xlate2(ix: nat): byte {
    match ix / 16
    case 0 => Xlate2Row0(ix % 16) case 1 => Xlate2Row1(ix % 16) case 2 => Xlate2Row2(ix % 16)
    case 3 => Xlate2Row3(ix % 16) case _ => Xlate2Row4(ix % 16)
  }

  function Xlate2Row0(k: nat): byte {
    match k
    case 0 => 0x00 case 1 => 0x00 case 2 => 0x01 case 3 => 0x02
    case 4 => 0x03 case 5 => 0x04 case 6 => 0x05 case 7 => 0x06
    case 8 => 0x07 case 9 => 0x08 case 10 => 0x09 case 11 => 0x0A
    case 12 => 0x0B case 13 => 0x0C case 14 => 0x0D case _ => 0x0E
  }

  function Xlate2Row1(k: nat): byte {
    match k
    case 0 => 0x0F case 1 => 0x10 case 2 => 0x11 case 3 => 0x12
    case 4 => 0x13 case 5 => 0x14 case 6 => 0x15 case 7 => 0x16
    case 8 => 0x17 case 9 => 0x18 case 10 => 0x19 case _ => 0x00
  }

  function Xlate2Row2(k: nat): byte {
    match k
    case _ => 0x00
  }

  function Xlate2Row3(k: nat): byte {
    match k
    case 0 => 0x00 case 1 => 0x00 case 2 => 0x00 case 3 => 0x00
    case 4 => 0x00 case 5 => 0x3C case 6 => 0x3D case 7 => 0x3E
    case 8 => 0x00 case 9 => 0xFA case 10 => 0xFB case 11 => 0xFC
    case 12 => 0xFD case 13 => 0xFE case 14 => 0xFF case _ => 0x7B
  }

  function Xlate2Row4(k: nat): byte {
    match k
    case 0 => 0x7C case 1 => 0x7D case 2 => 0x7E case 3 => 0x7F
    case 4 => 0x1A case 5 => 0x1B case 6 => 0x1C case 7 => 0x1D
    case 8 => 0x1E case 9 => 0x1F case _ => 0x00
  }

  function Xlate3(ix: nat): byte {
    match ix / 16
    case 0 => Xlate3Row0(ix % 16) case 1 => Xlate3Row1(ix % 16) case 2 => Xlate3Row2(ix % 16)
    case 3 => Xlate3Row3(ix % 16) case _ => Xlate3Row4(ix % 16)
  }

  function Xlate3Row0(k: nat): byte {
    match k
    case 0 => 0x00 case 1 => 0xA0 case 2 => 0xA1 case 3 => 0xEA
    case 4 => 0xEB case 5 => 0xEC case 6 => 0xED case 7 => 0xEE
    case 8 => 0xEF case 9 => 0xE0 case 10 => 0xE1 case 11 => 0xAA
    case 12 => 0xAB case 13 => 0xAC case 14 => 0xAD case _ => 0xAE
  }

  function Xlate3Row1(k: nat): byte {
    match k
    case 0 => 0xAF case 1 => 0xB0 case 2 => 0xB1 case 3 => 0xB2
    case 4 => 0xB3 case 5 => 0xB4 case 6 => 0xB5 case 7 => 0xB6
    case 8 => 0xB7 case 9 => 0xB8 case 10 => 0xB9 case 11 => 0x80
    case 12 => 0x00 case 13 => 0xCA case 14 => 0xCB case _ => 0xCC
  }

  function Xlate3Row2(k: nat): byte {
    match k
    case 0 => 0xCD case 1 => 0xCE case 2 => 0xCF case 3 => 0xC0
    case 4 => 0x00 case 5 => 0x8A case 6 => 0x8B case 7 => 0x8C
    case 8 => 0x8D case 9 => 0x8E case 10 => 0x8F case 11 => 0x90
    case 12 => 0x00 case 13 => 0xDA case 14 => 0xDB case _ => 0xDC
  }

  function Xlate3Row3(k: nat): byte {
    match k
    case 0 => 0xDD case 1 => 0xDE case 2 => 0xDF case 3 => 0xD0
    case 4 => 0x00 case 5 => 0x00 case 6 => 0x21 case 7 => 0x22
    case 8 => 0x23 case 9 => 0x24 case 10 => 0x5B case 11 => 0x5C
    case 12 => 0x00 case 13 => 0x5E case 14 => 0x5F case _ => 0x00
  }

  function Xlate3Row4(k: nat): byte {
    match k
    case 0 => 0x9C case 1 => 0x9D case 2 => 0x9E case 3 => 0x9F
    case 4 => 0xBA case 5 => 0xBB case 6 => 0xBC case 7 => 0xBD
    case 8 => 0xBE case 9 => 0xBF case 10 => 0x9A case 11 => 0x9B
    case _ => 0x00
  }

  // alphas[ix]
  function Alpha(ix: nat): byte
    requires ix < NE
  {
    if ix == 0 then 0x20
    else if ix <= 26 then 0x40 + ix
    else if ix <= 52 then 0x46 + ix
    else if ix <= 62 then ix - 5
    else match ix
      case 63 => 0x25 case 64 => 0x26 case 65 => 0x5F case 66 => 0x28 case 67 => 0x29
      case 68 => 0x3C case 69 => 0x2B case 70 => 0x2C case 71 => 0x2D case 72 => 0x2E
      case 73 => 0x2F case 74 => 0x3A case 75 => 0x3E case _ => 0x3F
  }

  // strchr(alphas, ch), for a character other than NUL, from a position on
  function AlphaIndex(ch: byte, from: nat): (r: Option<nat>)
    requires from <= NE
    ensures r.Some? ==> from <= r.value < NE && Alpha(r.value) == ch
    ensures r.None? ==> forall i :: from <= i < NE ==> Alpha(i) != ch
    decreases NE - from
  {
    if from == NE then None else if Alpha(from) == ch then Some(from) else AlphaIndex(ch, from + 1)
  }

  // memchr(conv[q].xlate, c, NE), from a position on
  function XlateIndex(q: nat, c: byte, from: nat): (r: Option<nat>)
    requires from <= NE
    ensures r.Some? ==> from <= r.value < NE && Xlate(q, r.value) == c
    ensures r.None? ==> forall i :: from <= i < NE ==> Xlate(q, i) != c
    decreases NE - from
  {
    if from == NE then None else if Xlate(q, from) == c then Some(from) else XlateIndex(q, c, from + 1)
  }

  // The EBCDIC code that is sent for a position in a quadrant.
  function Code(ix: nat): byte
    requires ix < NE
  {
    Asc2Ebc0(Alpha(ix))
  }

  // The position that a received code stands for.
  function Position(c: byte): Option<nat> { AlphaIndex(Ebc2Asc0(c), 0) }

  // --- Encoding -----------------------------------------------------------------------------------

  datatype Coded = Coded(codes: seq<byte>, q: Quadrant)

  // The search for a quadrant other than the present one.
  function Relocated(q: Quadrant, c: byte, at: nat): (r: Coded)
    requires at <= NQ
    decreases NQ - at
  {
    if at == NQ then Coded([], -1)
    else if at == q then Relocated(q, c, at + 1)
    else
      match XlateIndex(at, c, 0)
      case None => Relocated(q, c, at + 1)
      case Some(ix) => Coded([Selector(at), Code(ix)], at)
  }

  // store_download
  function Stored(q: Quadrant, c: byte): Coded
  {
    if q >= 0 && XlateIndex(q, c, 0).Some? then Coded([Code(XlateIndex(q, c, 0).value)], q)
    else Relocated(q, c, 0)
  }

  // download_convert of one byte, without remapping
  function CodedByte(q: Quadrant, c: byte): Coded
  {
    if c != 0 then Stored(q, c)
    else if q == OTHER_2 then Coded([XLATE_NULL], OTHER_2)
    else Coded([Selector(OTHER_2), XLATE_NULL], OTHER_2)
  }

  // download_convert
  function Encoded(q: Quadrant, s: seq<byte>): Coded
    decreases |s|
  {
    if s == [] then Coded([], q)
    else
      var a := CodedByte(q, s[0]);
      var b := Encoded(a.q, s[1..]);
      Coded(a.codes + b.codes, b.q)
  }

  // --- Decoding -----------------------------------------------------------------------------------

  /** What a code does: it selects a quadrant, stands for a byte, or is wrong. */
  datatype Meaning = Select(q: Quadrant) | Emit(c: byte) | Wrong

  function Selected(c: byte): Meaning
  {
    if c == Selector(0) then Select(0)
    else if c == Selector(1) then Select(1)
    else if c == Selector(2) then Select(2)
    else if c == Selector(3) then Select(3)
    else Wrong
  }

  function Meant(q: Quadrant, c: byte): Meaning
  {
    if q < 0 then Selected(c)
    else if c < 0x40 || c > 0xF9 then Wrong
    else
      match Position(c)
      case None => Selected(c)
      case Some(ix) =>
        if q != OTHER_2 && c != XLATE_NULL && Xlate(q, ix) == 0 then Selected(c) else Emit(Xlate(q, ix))
  }

  datatype Decoded = Decoded(q: Quadrant, out: seq<byte>) | Failed

  // upload_convert without remapping
  function Decode(strip: bool, q: Quadrant, codes: seq<byte>): Decoded
    decreases |codes|
  {
    if codes == [] then Decoded(q, [])
    else
      match Meant(q, codes[0])
      case Wrong => Failed
      case Select(q1) => Decode(strip, q1, codes[1..])
      case Emit(c) =>
        match Decode(strip, q, codes[1..])
        case Failed => Failed
        case Decoded(q1, out) => Decoded(q1, KeptByte(strip, c) + out)
  }

  // --- The tables fit together ----------------------------------------------------------------------

  // A position of each byte but zero in one of the quadrants.
  function HomeQuadrant(c: byte): nat
  {
    if c <= 0x1F || 0x3C <= c <= 0x3E || 0x7B <= c <= 0x7F || c >= 0xFA then 2
    else if c == 0x20 || 0x25 <= c <= 0x3F || 0x41 <= c <= 0x5A || 0x61 <= c <= 0x7A then 1
    else if c in {0x40, 0x5D, 0x60} || 0x81 <= c <= 0x89 || 0x91 <= c <= 0x99 || 0xA2 <= c <= 0xA9
         || 0xC1 <= c <= 0xC9 || 0xD1 <= c <= 0xD9 || 0xE2 <= c <= 0xE9 || c >= 0xF0 then 0
    else 3
  }

  function HomePosition(c: byte): nat
  {
    match HomeQuadrant(c)
    case 0 =>
      if c == 0x40 then 0 else if c == 0x5D then 67 else if c == 0x60 then 71
      else if c <= 0x89 then c - 0x81 + 27 else if c <= 0x99 then c - 0x91 + 36
      else if c <= 0xA9 then c - 0xA2 + 45 else if c <= 0xC9 then c - 0xC1 + 1
      else if c <= 0xD9 then c - 0xD1 + 10 else if c <= 0xE9 then c - 0xE2 + 19 else c - 0xF0 + 53
    case 1 =>
      if c == 0x20 then 0 else if c <= 0x2F then c - 0x25 + 63 else if c <= 0x39 then c - 0x30 + 53
      else if c <= 0x3B then c - 0x3A + 74 else if c == 0x3F then 76
      else if c <= 0x5A then c - 0x41 + 1 else c - 0x61 + 27
    case 2 =>
      if c <= 0x19 then c - 1 + 2 else if c <= 0x1F then c - 0x1A + 68
      else if c <= 0x3E then c - 0x3C + 53 else if c <= 0x7F then c - 0x7B + 63 else c - 0xFA + 57
    case _ =>
      if c <= 0x24 then c - 0x21 + 54 else if c <= 0x5C then c - 0x5B + 58
      else if c <= 0x5F then c - 0x5E + 61 else if c == 0x80 then 27 else if c <= 0x90 then c - 0x8A + 37
      else if c <= 0x9B then c - 0x9A + 74 else if c <= 0x9F then c - 0x9C + 64
      else if c <= 0xA1 then c - 0xA0 + 1 else if c <= 0xB9 then c - 0xAA + 11
      else if c <= 0xBF then c - 0xBA + 68 else if c == 0xC0 then 35 else if c <= 0xCF then c - 0xCA + 29
      else if c == 0xD0 then 51 else if c <= 0xDF then c - 0xDA + 45 else if c <= 0xE1 then c - 0xE0 + 9
      else c - 0xEA + 3
  }

  lemma Homes0(c: byte)
    requires c != 0 && HomeQuadrant(c) == 0
    ensures HomePosition(c) < NE && Xlate0(HomePosition(c)) == c
  {
  }

  lemma Homes1(c: byte)
    requires c != 0 && HomeQuadrant(c) == 1
    ensures HomePosition(c) < NE && Xlate1(HomePosition(c)) == c
  {
  }

  lemma Homes2(c: byte)
    requires c != 0 && HomeQuadrant(c) == 2
    ensures HomePosition(c) < NE && Xlate2(HomePosition(c)) == c
  {
  }

  lemma Homes3Low(c: byte)
    requires HomeQuadrant(c) == 3 && c < 0xA0
    ensures HomePosition(c) < NE && Xlate3(HomePosition(c)) == c
  {
  }

  lemma Homes3(c: byte)
    requires HomeQuadrant(c) == 3
    ensures HomePosition(c) < NE && Xlate3(HomePosition(c)) == c
  {
    if c < 0xA0 {
      Homes3Low(c);
    }
  }

  lemma Covered(c: byte)
    requires c != 0
    ensures HomeQuadrant(c) < NQ && XlateIndex(HomeQuadrant(c), c, 0).Some?
  {
    hide HomePosition, Xlate0, Xlate1, Xlate2, Xlate3;
    match HomeQuadrant(c) {
      case 0 => Homes0(c);
      case 1 => Homes1(c);
      case 2 => Homes2(c);
      case _ => Homes3(c);
    }
    assert Xlate(HomeQuadrant(c), HomePosition(c)) == c;
  }

  // The inverse of Alpha.
  function AlphaPosition(ch: byte): nat
  {
    if ch == 0x20 then 0
    else if 0x41 <= ch <= 0x5A then ch - 0x40
    else if 0x61 <= ch <= 0x7A then ch - 0x46
    else if 0x30 <= ch <= 0x39 then ch + 5
    else match ch
      case 0x25 => 63 case 0x26 => 64 case 0x5F => 65 case 0x28 => 66 case 0x29 => 67
      case 0x3C => 68 case 0x2B => 69 case 0x2C => 70 case 0x2D => 71 case 0x2E => 72
      case 0x2F => 73 case 0x3A => 74 case 0x3E => 75 case _ => 76
  }

  lemma AlphaDistinct(ix: nat)
    requires ix < NE
    ensures AlphaPosition(Alpha(ix)) == ix
  {
  }

  lemma CodeInvertsLetters(ix: nat)
    requires ix <= 52
    ensures Ebc2Asc0(Code(ix)) == Alpha(ix) && 0x40 <= Code(ix) <= 0xF9
  {
  }

  lemma CodeInverts(ix: nat)
    requires ix < NE
    ensures Ebc2Asc0(Code(ix)) == Alpha(ix) && 0x40 <= Code(ix) <= 0xF9
  {
    if ix <= 52 {
      CodeInvertsLetters(ix);
    }
  }

  /** Every code sent for a position is read back as that position. */
  lemma CodePosition(ix: nat)
    requires ix < NE
    ensures Position(Code(ix)) == Some(ix)
  {
    hide Code, Ebc2Asc0, AlphaPosition, Alpha;
    CodeInverts(ix);
    AlphaDistinct(ix);
    var r := AlphaIndex(Alpha(ix), 0);
    assert Alpha(ix) == Alpha(ix);
    AlphaDistinct(r.value);
  }

  lemma NotAnAlpha(ch: byte)
    requires ch in {0x3B, 0x3D, 0x2A, 0x27}
    ensures AlphaIndex(ch, 0) == None
  {
    var r := AlphaIndex(ch, 0);
  }

  lemma SelectorMeans(q: Quadrant, k: nat)
    requires k < NQ
    ensures Meant(q, Selector(k)) == Select(k)
  {
    hide Alpha, AlphaIndex, Xlate;
    assert Ebc2Asc0(Selector(k)) in {0x3B, 0x3D, 0x2A, 0x27};
    NotAnAlpha(Ebc2Asc0(Selector(k)));
  }

  lemma NullMeans()
    ensures Meant(OTHER_2, XLATE_NULL) == Emit(0)
  {
    hide AlphaIndex;
    assert Code(1) == XLATE_NULL by { assert Alpha(1) == 0x41; }
    CodePosition(1);
  }

  lemma CodeMeans(q: Quadrant, ix: nat)
    requires q >= 0 && ix < NE && Xlate(q, ix) != 0
    ensures Meant(q, Code(ix)) == Emit(Xlate(q, ix))
  {
    hide Alpha, Code, Xlate, Position;
    CodeInverts(ix);
    CodePosition(ix);
  }

  // --- Round trip -----------------------------------------------------------------------------------

  // What the codes of one byte mean to a receiver in the same quadrant.
  predicate CodesOf(q: Quadrant, c: byte, r: Coded)
  {
    || (&& |r.codes| == 1 && r.q == q && Meant(q, r.codes[0]) == Emit(c)
        && (c == 0 ==> r.codes[0] == XLATE_NULL))
    || (&& |r.codes| == 2 && Meant(q, r.codes[0]) == Select(r.q) && Meant(r.q, r.codes[1]) == Emit(c)
        && (c == 0 ==> r.codes[1] == XLATE_NULL))
  }

  lemma {:induction false} RelocatedMeans(q: Quadrant, c: byte, at: nat)
    requires c != 0 && at <= NQ
    requires exists k :: at <= k < NQ && k != q && XlateIndex(k, c, 0).Some?
    ensures CodesOf(q, c, Relocated(q, c, at))
    decreases NQ - at
  {
    hide Meant, Code, Xlate, Selector, XlateIndex;
    if at == q || XlateIndex(at, c, 0).None? {
      RelocatedMeans(q, c, at + 1);
    } else {
      var ix := XlateIndex(at, c, 0).value;
      SelectorMeans(q, at);
      CodeMeans(at, ix);
    }
  }

  /** Every byte has a code, and a receiver in the same quadrant takes it for that byte: the search for a
      quadrant never fails. */
  lemma ByteMeans(q: Quadrant, c: byte)
    ensures CodesOf(q, c, CodedByte(q, c))
  {
    hide Meant, Code, Xlate, Selector, XlateIndex, HomeQuadrant, Relocated;
    if c == 0 {
      NullMeans();
      SelectorMeans(q, OTHER_2);
    } else if q >= 0 && XlateIndex(q, c, 0).Some? {
      CodeMeans(q, XlateIndex(q, c, 0).value);
    } else {
      Covered(c);
      assert HomeQuadrant(c) != q;
      RelocatedMeans(q, c, 0);
    }
  }

  lemma ByteRoundTrip(strip: bool, q: Quadrant, c: byte, rest: seq<byte>)
    ensures var r := CodedByte(q, c);
            Decode(strip, q, r.codes + rest)
            == match Decode(strip, r.q, rest)
               case Failed => Failed
               case Decoded(q1, out) => Decoded(q1, KeptByte(strip, c) + out)
  {
    hide Meant, CodedByte, KeptByte;
    var r := CodedByte(q, c);
    ByteMeans(q, c);
    var codes := r.codes + rest;
    if |r.codes| == 1 {
      assert codes[1..] == rest;
    } else {
      assert codes[1..][1..] == rest;
    }
  }

  /** Decoding what was encoded gives back every byte, or every byte that is not a CR or Ctrl-Z, and leaves
      both ends in the same quadrant. */
  lemma {:induction false} RoundTrip(strip: bool, q: Quadrant, s: seq<byte>)
    ensures Decode(strip, q, Encoded(q, s).codes) == Decoded(Encoded(q, s).q, Kept(strip, s))
    decreases |s|
  {
    hide Meant, CodedByte, KeptByte;
    if s != [] {
      var a := CodedByte(q, s[0]);
      RoundTrip(strip, a.q, s[1..]);
      ByteRoundTrip(strip, q, s[0], Encoded(a.q, s[1..]).codes);
    }
  }

  lemma {:induction false} EncodedAppend(q: Quadrant, s: seq<byte>, t: seq<byte>)
    ensures var a := Encoded(q, s);
            var b := Encoded(a.q, t);
            Encoded(q, s + t) == Coded(a.codes + b.codes, b.q)
    decreases |s|
  {
    hide CodedByte;
    if s == [] {
      assert s + t == t && [] + Encoded(q, t).codes == Encoded(q, t).codes;
    } else {
      var h := CodedByte(q, s[0]);
      EncodedAppend(h.q, s[1..], t);
      assert (s + t)[1..] == s[1..] + t;
      var a := Encoded(h.q, s[1..]);
      Assoc(h.codes, a.codes, Encoded(a.q, t).codes);
    }
  }

  lemma {:induction false} DecodeAppend(strip: bool, q: Quadrant, a: seq<byte>, b: seq<byte>)
    ensures Decode(strip, q, a + b)
            == match Decode(strip, q, a)
               case Failed => Failed
               case Decoded(q1, x) =>
                 match Decode(strip, q1, b)
                 case Failed => Failed
                 case Decoded(q2, y) => Decoded(q2, x + y)
    decreases |a|
  {
    hide Meant, KeptByte;
    if a == [] {
      assert a + b == b;
      var d := Decode(strip, q, b);
      assert d.Decoded? ==> [] + d.out == d.out;
    } else {
      assert (a + b)[1..] == a[1..] + b;
      match Meant(q, a[0]) {
        case Wrong =>
        case Select(q1) => DecodeAppend(strip, q1, a[1..], b);
        case Emit(c) =>
          DecodeAppend(strip, q, a[1..], b);
          var x := Decode(strip, q, a[1..]);
          if x.Decoded? {
            var y := Decode(strip, x.q, b);
            if y.Decoded? {
              Assoc(KeptByte(strip, c), x.out, y.out);
            }
          }
      }
    }
  }

  // --- Streams cut into frames ------------------------------------------------------------------------

  /** A stretch of an encoded stream, for a receiver in quadrant q: a selector is followed by the code of a
      byte, and zero is sent as XLATE_NULL only. */
  predicate WellCoded(q: Quadrant, codes: seq<byte>)
    decreases |codes|
  {
    codes == []
    || match Meant(q, codes[0])
       case Wrong => false
       case Select(q1) =>
         (|codes| > 1 ==> Meant(q1, codes[1]).Emit?) && WellCoded(q1, codes[1..])
       case Emit(c) => (c == 0 ==> codes[0] == XLATE_NULL) && WellCoded(q, codes[1..])
  }

  lemma {:induction false} EncodedWell(q: Quadrant, s: seq<byte>)
    ensures WellCoded(q, Encoded(q, s).codes)
    decreases |s|
  {
    hide Meant, CodedByte;
    if s != [] {
      var a := CodedByte(q, s[0]);
      ByteMeans(q, s[0]);
      EncodedWell(a.q, s[1..]);
      var rest := Encoded(a.q, s[1..]).codes;
      var codes := a.codes + rest;
      if |a.codes| == 1 {
        assert codes[1..] == rest;
      } else {
        assert codes[1..][1..] == rest && codes[1..][0] == codes[1];
        assert WellCoded(a.q, codes[1..]);
      }
    }
  }

  // Each part of a stream is well coded where it starts.
  lemma {:induction false} WellCodedParts(q: Quadrant, a: seq<byte>, b: seq<byte>)
    requires WellCoded(q, a + b)
    ensures WellCoded(q, a)
    ensures Decode(false, q, a).Decoded? && WellCoded(Decode(false, q, a).q, b)
    ensures forall strip :: var d := Decode(strip, q, a); d.Decoded? && d.q == Decode(false, q, a).q
    decreases |a|
  {
    hide Meant, KeptByte;
    if a == [] {
      assert a + b == b;
    } else {
      assert (a + b)[1..] == a[1..] + b;
      match Meant(q, a[0]) {
        case Select(q1) =>
          WellCodedParts(q1, a[1..], b);
          assert |a| > 1 ==> (a + b)[1] == a[1];
        case Emit(c) => WellCodedParts(q, a[1..], b);
      }
    }
  }

  /** A frame of an encoded stream decodes to nothing if and only if it is empty or a selector alone. */
  lemma NothingDecoded(q: Quadrant, f: seq<byte>)
    requires WellCoded(q, f)
    ensures var d := Decode(false, q, f);
            d.Decoded? && (d.out == [] <==> f == [] || (|f| == 1 && Meant(q, f[0]).Select?))
  {
    hide Meant;
    assert f + [] == f;
    WellCodedParts(q, f, []);
    if |f| > 1 && Meant(q, f[0]).Select? {
      assert f[1..][0] == f[1];
    }
  }

  const EOF_DATA: seq<byte> := [0x5C, 0xA9]

  lemma EofMeaning(q: Quadrant)
    ensures Meant(q, 0x5C) == Select(OTHER_2)
    ensures Meant(OTHER_2, 0xA9) == Emit(0)
  {
    hide AlphaIndex;
    SelectorMeans(q, OTHER_2);
    assert Code(52) == 0xA9 by { assert Alpha(52) == 0x7A; }
    CodePosition(52);
  }

  /** No frame of an encoded stream can be taken for the end-of-file frame. */
  lemma NeverEof(q: Quadrant, f: seq<byte>)
    requires WellCoded(q, f)
    ensures f != EOF_DATA
  {
    hide Meant;
    EofMeaning(q);
    if |f| == 2 && f[0] == 0x5C {
      assert f[1..][0] == f[1];
      assert f[1] != 0xA9;
    }
  }
}
