/** Base64 (Common/base64.c:53-165; section 4 of RFC 4648).  Strings end in a NUL, as in C. */
module Base64 {
  import opened Bytes

  const EQUALS: byte := 0x3D

  // alphabet64[v]
  function Letter(v: nat): byte
    requires v < 64
  {
    if v < 26 then 0x41 + v
    else if v < 52 then 0x61 + v - 26
    else if v < 62 then 0x30 + v - 52
    else if v == 62 then 0x2B else 0x2F
  }

  // strchr(alphabet64, c), for a character other than NUL, from a position on
  function LetterIndex(c: byte, from: nat): (r: Option<nat>)
    requires from <= 64
    ensures r.Some? ==> from <= r.value < 64 && Letter(r.value) == c
    ensures r.None? ==> forall v :: from <= v < 64 ==> Letter(v) != c
    decreases 64 - from
  {
    if from == 64 then None else if Letter(from) == c then Some(from) else LetterIndex(c, from + 1)
  }

  predicate InAlphabet(c: byte) { LetterIndex(c, 0).Some? }

  lemma LettersDistinct(v: nat, w: nat)
    requires v < 64 && w < 64 && Letter(v) == Letter(w)
    ensures v == w
  {
  }

  lemma IndexOfLetter(v: nat)
    requires v < 64
    ensures LetterIndex(Letter(v), 0) == Some(v) && Letter(v) != EQUALS && Letter(v) != 0
  {
    var r := LetterIndex(Letter(v), 0);
    assert Letter(v) == Letter(v);
    LettersDistinct(r.value, v);
  }

  // --- Encoding -----------------------------------------------------------------------------------

  // The letters of a number, six bits each.
  function Letters(a: nat, n: nat): (r: seq<byte>)
    requires n <= 4
    ensures |r| == n
  {
    if n == 0 then [] else [Letter(a / Power64(n - 1) % 64)] + Letters(a, n - 1)
  }

  function Power64(k: nat): (r: nat)
    ensures r > 0
  {
    match k case 0 => 1 case 1 => 64 case 2 => 4096 case _ => 262144
  }

  function Pads(n: nat): seq<byte> { seq(n, _ => EQUALS) }

  // The bytes as one number.
  function Number(s: seq<byte>): nat
  {
    if s == [] then 0 else Number(s[..|s| - 1]) * 256 + s[|s| - 1]
  }

  lemma NumberStep(s: seq<byte>, c: byte)
    ensures Number(s + [c]) == Number(s) * 256 + c
  {
    assert (s + [c])[..|s|] == s;
  }

  lemma SmallNumbers(s: seq<byte>)
    ensures |s| == 1 ==> Number(s) == s[0]
    ensures |s| == 2 ==> Number(s) == s[0] as int * 0x100 + s[1]
    ensures |s| == 3 ==> Number(s) == s[0] as int * 0x1_0000 + s[1] as int * 0x100 + s[2]
  {
    if 0 < |s| <= 3 {
      NumberStep([], s[0]);
      assert [] + [s[0]] == s[..1];
      if |s| > 1 {
        NumberStep(s[..1], s[1]);
        assert s[..1] + [s[1]] == s[..2];
        if |s| > 2 {
          NumberStep(s[..2], s[2]);
          assert s[..2] + [s[2]] == s[..3];
        }
      }
      assert s[..|s|] == s;
    }
  }

  // One group of up to three bytes.
  function Group(s: seq<byte>): (r: seq<byte>)
    requires |s| <= 3
  {
    if |s| == 3 then Letters(Number(s), 4)
    else if |s| == 2 then Letters(Number(s) * 4, 3) + Pads(1)
    else if |s| == 1 then Letters(Number(s) * 16, 2) + Pads(2)
    else []
  }

  function Encode(s: seq<byte>): seq<byte>
  {
    if |s| < 3 then Group(s) else Group(s[..3]) + Encode(s[3..])
  }

  lemma GroupLength(s: seq<byte>)
    requires |s| <= 3
    ensures |Group(s)| == if s == [] then 0 else 4
  {
    hide Letters, Number;
  }

  /** Four characters for every three bytes or part of them. */
  lemma {:induction false} EncodedLength(s: seq<byte>)
    ensures |Encode(s)| == 4 * ((|s| + 2) / 3)
  {
    hide Group;
    if |s| < 3 {
      GroupLength(s);
    } else {
      GroupLength(s[..3]);
      EncodedLength(s[3..]);
    }
  }

  // --- The code of the standard ---------------------------------------------------------------------

  // Table 1 of RFC 4648.
  const ALPHABET := "ABCDEFGHIJKLMNOPQRSTUVWXYZ" + "abcdefghijklmnopqrstuvwxyz" + "0123456789+/"

  lemma UpperLetters(v: nat)
    requires v < 26
    ensures Letter(v) == ALPHABET[v] as int
  {
    assert ALPHABET[v] == "ABCDEFGHIJKLMNOPQRSTUVWXYZ"[v];
  }

  lemma LowerLetters(v: nat)
    requires 26 <= v < 52
    ensures Letter(v) == ALPHABET[v] as int
  {
    assert ALPHABET[v] == "abcdefghijklmnopqrstuvwxyz"[v - 26];
  }

  lemma OtherLetters(v: nat)
    requires 52 <= v < 64
    ensures Letter(v) == ALPHABET[v] as int
  {
    assert ALPHABET[v] == "0123456789+/"[v - 52];
  }

  /** The letter for six bits is that of the alphabet of the standard. */
  lemma StandardLetter(v: nat)
    requires v < 64
    ensures |ALPHABET| == 64 && Letter(v) == ALPHABET[v] as int
  {
    if v < 26 {
      UpperLetters(v);
    } else if v < 52 {
      LowerLetters(v);
    } else {
      OtherLetters(v);
    }
  }

  // The letters of three bytes are their bits, six at a time from the highest on.
  lemma ThreeByteGroup(s: seq<byte>)
    requires |s| == 3
    ensures var a: nat, b: nat, c: nat := s[0], s[1], s[2];
            Group(s) == [Letter(a / 4), Letter(a % 4 * 16 + b / 16), Letter(b % 16 * 4 + c / 64), Letter(c % 64)]
  {
    hide Letter, Letters, Number;
    var a: nat, b: nat, c: nat := s[0], s[1], s[2];
    SmallNumbers(s);
    Parts(a, b, c);
    FourLetters(a * 0x1_0000 + b * 0x100 + c);
  }

  // One or two bytes at the end are filled up with zero bits and padding characters.
  lemma LastGroup(s: seq<byte>)
    requires 1 <= |s| <= 2
    ensures |s| == 1 ==> Group(s) == [Letter(s[0] as nat / 4), Letter(s[0] as nat % 4 * 16), 0x3D, 0x3D]
    ensures |s| == 2 ==> var a: nat, b: nat := s[0], s[1];
                         Group(s) == [Letter(a / 4), Letter(a % 4 * 16 + b / 16), Letter(b % 16 * 4), 0x3D]
  {
    hide Letter, Letters, Number;
    SmallNumbers(s);
    var a: nat := s[0];
    if |s| == 1 {
      OnePart(a);
      FourLetters(a * 16);
    } else {
      var b: nat := s[1];
      TwoParts(a, b);
      FourLetters((a * 0x100 + b) * 4);
    }
  }

  lemma OnePart(a: nat)
    requires a < 256
    ensures a * 16 / 64 % 64 == a / 4 && a * 16 % 64 == a % 4 * 16
  {
  }

  /** The text is that of the standard: for each three bytes, four letters with six of their bits each. */
  lemma StandardText(s: seq<byte>, rest: seq<byte>)
    requires |s| == 3
    ensures var a: nat, b: nat, c: nat := s[0], s[1], s[2];
            Encode(s + rest)
            == [Letter(a / 4), Letter(a % 4 * 16 + b / 16), Letter(b % 16 * 4 + c / 64), Letter(c % 64)] + Encode(rest)
  {
    hide Group, Letter;
    ThreeByteGroup(s);
    assert (s + rest)[..3] == s && (s + rest)[3..] == rest;
  }

  /** At its end stand a group of fewer letters and padding, or nothing. */
  lemma StandardEnd(s: seq<byte>)
    requires |s| <= 2
    ensures s == [] ==> Encode(s) == []
    ensures |s| == 1 ==> Encode(s) == [Letter(s[0] as nat / 4), Letter(s[0] as nat % 4 * 16), 0x3D, 0x3D]
    ensures |s| == 2 ==> var a: nat, b: nat := s[0], s[1];
                         Encode(s) == [Letter(a / 4), Letter(a % 4 * 16 + b / 16), Letter(b % 16 * 4), 0x3D]
  {
    hide Letter, Letters, Number;
    if s != [] {
      LastGroup(s);
    }
  }

  // --- Decoding -----------------------------------------------------------------------------------

  function Power2(k: nat): (r: nat)
    ensures r > 0
  {
    match k
    case 0 => 1 case 1 => 2 case 2 => 4 case 3 => 8 case 4 => 16 case 5 => 32 case 6 => 64 case 7 => 128
    case 8 => 256 case 9 => 512 case 10 => 1024 case 11 => 2048 case 12 => 4096 case _ => 8192
  }

  datatype Held = Held(accum: nat, bits: nat)

  // Fewer than eight bits are held between characters.
  predicate HeldOk(h: Held) { h.bits < 8 && h.accum < Power2(h.bits) }

  // Bits shifted in.
  function Shifted(h: Held, v: nat, bits: nat): (r: Held)
    requires HeldOk(h) && bits <= 6 && v < Power2(bits)
    ensures r.bits <= 13 && r.accum < Power2(r.bits)
  {
    PowerSum(h.bits, bits);
    assert h.accum * Power2(bits) + v < Power2(h.bits + bits) by {
      Carried(h.accum, Power2(h.bits), Power2(bits), v);
    }
    Held(h.accum * Power2(bits) + v, h.bits + bits)
  }

  lemma PowerSum(a: nat, b: nat)
    requires a < 8 && b <= 6
    ensures Power2(a) * Power2(b) == Power2(a + b)
  {
  }

  lemma Carried(a: nat, p: nat, q: nat, v: nat)
    requires a < p && v < q
    ensures a * q + v < p * q
  {
    assert (a + 1) * q <= p * q;
  }

  // The byte that is complete, if there is one, and what is held after it.
  function Taken(h: Held): (r: (seq<byte>, Held))
    requires h.bits <= 13 && h.accum < Power2(h.bits)
    ensures HeldOk(r.1) && |r.0| <= 1
  {
    if h.bits < 8 then ([], h)
    else
      var p := Power2(h.bits - 8);
      ([h.accum / p % 256], Held(h.accum % p, h.bits - 8))
  }

  // The rest of the text, after `eq` padding characters.
  function DecodeFrom(h: Held, eq: nat, s: seq<byte>): (r: Option<seq<byte>>)
    requires HeldOk(h)
    ensures r.Some? ==> |r.value| <= |s|
    decreases |s|
  {
    if s == [] then Some([])
    else if s[0] == EQUALS then
      var t := Taken(Shifted(h, 0, 2));
      if eq + 1 > 2 then None else Append(t.0, DecodeFrom(t.1, eq + 1, s[1..]))
    else
      match LetterIndex(s[0], 0)
      case None => None
      case Some(v) =>
        if eq > 0 then None
        else
          var t := Taken(Shifted(h, v, 6));
          Append(t.0, DecodeFrom(t.1, eq, s[1..]))
  }

  function Append(p: seq<byte>, o: Option<seq<byte>>): Option<seq<byte>>
  {
    match o case None => None case Some(t) => Some(p + t)
  }

  const NOTHING := Held(0, 0)

  function Decode(s: seq<byte>): Option<seq<byte>> { DecodeFrom(NOTHING, 0, s) }

  // The letters at the start of a text.
  function LeadingLetters(s: seq<byte>): (n: nat)
    ensures n <= |s|
  {
    if s != [] && s[0] != EQUALS && InAlphabet(s[0]) then LeadingLetters(s[1..]) + 1 else 0
  }

  predicate AllPads(s: seq<byte>) { forall i :: 0 <= i < |s| ==> s[i] == EQUALS }

  /** Decoding accepts exactly the texts of letters with at most two padding characters at the end. */
  lemma {:induction false} DecodeAccepts(h: Held, s: seq<byte>)
    requires HeldOk(h)
    ensures var rest := s[LeadingLetters(s)..];
            DecodeFrom(h, 0, s).Some? <==> AllPads(rest) && |rest| <= 2
    decreases |s|
  {
    hide Taken, Shifted;
    if s != [] {
      if s[0] != EQUALS && InAlphabet(s[0]) {
        DecodeAccepts(Taken(Shifted(h, LetterIndex(s[0], 0).value, 6)).1, s[1..]);
        assert s[LeadingLetters(s)..] == s[1..][LeadingLetters(s[1..])..];
      } else if s[0] == EQUALS {
        PadsAccepted(Taken(Shifted(h, 0, 2)).1, 1, s[1..]);
        assert s[0..] == [s[0]] + s[1..];
      }
    }
  }

  lemma {:induction false} PadsAccepted(h: Held, eq: nat, s: seq<byte>)
    requires HeldOk(h) && 0 < eq <= 2
    ensures DecodeFrom(h, eq, s).Some? <==> AllPads(s) && eq + |s| <= 2
    decreases |s|
  {
    hide Taken, Shifted;
    if s != [] && s[0] == EQUALS && eq < 2 {
      PadsAccepted(Taken(Shifted(h, 0, 2)).1, eq + 1, s[1..]);
      assert s == [s[0]] + s[1..];
    }
  }

  // The text up to its first NUL.
  function CString(s: seq<byte>): seq<byte>
  {
    if s == [] || s[0] == 0 then [] else [s[0]] + CString(s[1..])
  }

  // --- Round trip -----------------------------------------------------------------------------------

  lemma LetterDecodes(h: Held, v: nat, rest: seq<byte>)
    requires HeldOk(h) && v < 64
    ensures var t := Taken(Shifted(h, v, 6));
            DecodeFrom(h, 0, [Letter(v)] + rest) == Append(t.0, DecodeFrom(t.1, 0, rest))
  {
    hide Letter, LetterIndex, Taken, Shifted;
    IndexOfLetter(v);
    assert ([Letter(v)] + rest)[1..] == rest;
  }

  lemma PadDecodes(h: Held, eq: nat, rest: seq<byte>)
    requires HeldOk(h) && eq < 2
    ensures var t := Taken(Shifted(h, 0, 2));
            DecodeFrom(h, eq, [EQUALS] + rest) == Append(t.0, DecodeFrom(t.1, eq + 1, rest))
  {
    hide Taken, Shifted;
    assert ([EQUALS] + rest)[1..] == rest;
  }

  lemma AppendTwice(p: seq<byte>, q: seq<byte>, o: Option<seq<byte>>)
    ensures Append(p, Append(q, o)) == Append(p + q, o)
    ensures Append([], o) == o
  {
    if o.Some? {
      assert p + (q + o.value) == (p + q) + o.value && [] + o.value == o.value;
    }
  }

  lemma LowPart(a: nat, b: nat, c: nat)
    requires a < 256 && b < 256 && c < 256
    ensures var n := a * 0x1_0000 + b * 0x100 + c; n / 64 == a * 1024 + b * 4 + c / 64 && n % 64 == c % 64
  {
  }

  lemma MiddlePart(a: nat, b: nat, c: nat)
    requires a < 256 && b < 256 && c < 4
    ensures var m := a * 1024 + b * 4 + c; m / 64 == a * 16 + b / 16 && m % 64 == b % 16 * 4 + c
  {
  }

  lemma HighPart(a: nat, b: nat)
    requires a < 256 && b < 16
    ensures var h := a * 16 + b; h / 64 == a / 4 < 64 && h % 64 == a % 4 * 16 + b
  {
  }

  lemma Quotients(n: nat)
    ensures n / 4096 == n / 64 / 64 && n / 262144 == n / 64 / 64 / 64
  {
  }

  // The six-bit parts of three bytes.
  lemma Parts(a: nat, b: nat, c: nat)
    requires a < 256 && b < 256 && c < 256
    ensures var n := a * 0x1_0000 + b * 0x100 + c;
            && n / 262144 % 64 == a / 4
            && n / 4096 % 64 == a % 4 * 16 + b / 16
            && n / 64 % 64 == b % 16 * 4 + c / 64
            && n % 64 == c % 64
  {
    Quotients(a * 0x1_0000 + b * 0x100 + c);
    LowPart(a, b, c);
    MiddlePart(a, b, c / 64);
    HighPart(a, b / 16);
  }

  lemma TwoParts(a: nat, b: nat)
    requires a < 256 && b < 256
    ensures var n := (a * 0x100 + b) * 4;
            n / 4096 % 64 == a / 4 && n / 64 % 64 == a % 4 * 16 + b / 16 && n % 64 == b % 16 * 4
  {
    var n := (a * 0x100 + b) * 4;
    assert n / 64 == a * 16 + b / 16;
  }

  // Two letters give a byte and the four bits of the next.
  lemma FirstByte(a: nat, x: nat)
    requires a < 256 && x < 16
    ensures Taken(Shifted(NOTHING, a / 4, 6)) == ([], Held(a / 4, 6))
    ensures Taken(Shifted(Held(a / 4, 6), a % 4 * 16 + x, 6)) == ([a], Held(x, 4))
  {
    hide Taken;
    assert Shifted(NOTHING, a / 4, 6) == Held(a / 4, 6);
    assert Shifted(Held(a / 4, 6), a % 4 * 16 + x, 6) == Held(a * 16 + x, 12);
    TakenFour(a, x);
  }

  lemma TakenFour(a: nat, x: nat)
    requires a < 256 && x < 16
    ensures a / 4 < 64
    ensures Taken(Held(a / 4, 6)) == ([], Held(a / 4, 6))
    ensures Taken(Held(a * 16 + x, 12)) == ([a], Held(x, 4))
  {
  }

  lemma SecondByte(b: nat, y: nat)
    requires b < 256 && y < 4
    ensures Taken(Shifted(Held(b / 16, 4), b % 16 * 4 + y, 6)) == ([b], Held(y, 2))
  {
    hide Taken;
    assert Shifted(Held(b / 16, 4), b % 16 * 4 + y, 6) == Held(b * 4 + y, 10);
    TakenTwo(b, y);
  }

  lemma TakenTwo(b: nat, y: nat)
    requires b < 256 && y < 4
    ensures Taken(Held(b * 4 + y, 10)) == ([b], Held(y, 2))
  {
  }

  lemma ThirdByte(c: nat)
    requires c < 256
    ensures Taken(Shifted(Held(c / 64, 2), c % 64, 6)) == ([c], NOTHING)
  {
    hide Taken;
    assert Shifted(Held(c / 64, 2), c % 64, 6) == Held(c, 8);
    TakenOne(c);
  }

  lemma TakenOne(c: nat)
    requires c < 256
    ensures Taken(Held(c, 8)) == ([c], NOTHING)
  {
  }

  lemma LastBits()
    ensures Taken(Shifted(Held(0, 4), 0, 2)) == ([], Held(0, 6))
    ensures Taken(Shifted(Held(0, 6), 0, 2)) == ([0], NOTHING)
    ensures Taken(Shifted(Held(0, 2), 0, 2)) == ([], Held(0, 4))
  {
  }

  // The first two letters of a group.
  lemma TwoLetters(a: byte, x: nat, rest: seq<byte>)
    requires x < 16
    ensures DecodeFrom(NOTHING, 0, [Letter(a / 4)] + ([Letter(a % 4 * 16 + x)] + rest))
            == Append([a], DecodeFrom(Held(x, 4), 0, rest))
  {
    hide Letter, Taken, Shifted, DecodeFrom;
    FirstByte(a, x);
    LetterDecodes(NOTHING, a / 4, [Letter(a % 4 * 16 + x)] + rest);
    LetterDecodes(Held(a / 4, 6), a % 4 * 16 + x, rest);
    AppendTwice([], [a], DecodeFrom(Held(x, 4), 0, rest));
    assert [] + [a] == [a];
  }

  lemma ThreeBytes(s: seq<byte>, rest: seq<byte>)
    requires |s| == 3
    ensures DecodeFrom(NOTHING, 0, Group(s) + rest) == Append(s, DecodeFrom(NOTHING, 0, rest))
  {
    hide Letter, Taken, Shifted, DecodeFrom, Letters, Number;
    var a: nat, b: nat, c: nat := s[0], s[1], s[2];
    SmallNumbers(s);
    Parts(a, b, c);
    FourLetters(a * 0x1_0000 + b * 0x100 + c);
    var l2 := [Letter(b % 16 * 4 + c / 64)];
    var l3 := [Letter(c % 64)] + rest;
    assert Group(s) + rest == [Letter(a / 4)] + ([Letter(a % 4 * 16 + b / 16)] + (l2 + l3));
    TwoLetters(a, b / 16, l2 + l3);
    SecondByte(b, c / 64);
    LetterDecodes(Held(b / 16, 4), b % 16 * 4 + c / 64, l3);
    ThirdByte(c);
    LetterDecodes(Held(c / 64, 2), c % 64, rest);
    AppendTwice([b], [c], DecodeFrom(NOTHING, 0, rest));
    AppendTwice([a], [b, c], DecodeFrom(NOTHING, 0, rest));
    assert [b] + [c] == [b, c] && [a] + [b, c] == s;
  }

  lemma FourLetters(n: nat)
    ensures Letters(n, 4) == [Letter(n / 262144 % 64), Letter(n / 4096 % 64), Letter(n / 64 % 64), Letter(n % 64)]
    ensures Letters(n, 3) == [Letter(n / 4096 % 64), Letter(n / 64 % 64), Letter(n % 64)]
    ensures Letters(n, 2) == [Letter(n / 64 % 64), Letter(n % 64)]
  {
    hide Letter;
    assert Letters(n, 1) == [Letter(n % 64)] + Letters(n, 0);
    assert Letters(n, 2) == [Letter(n / 64 % 64)] + Letters(n, 1);
    assert Letters(n, 3) == [Letter(n / 4096 % 64)] + Letters(n, 2);
  }

  lemma TwoBytes(s: seq<byte>)
    requires |s| == 2
    ensures Decode(Group(s)) == Some(s)
  {
    hide Letter, Taken, Shifted, DecodeFrom, Letters, Number;
    var a: nat, b: nat := s[0], s[1];
    SmallNumbers(s);
    var n := (a * 0x100 + b) * 4;
    TwoParts(a, b);
    FourLetters(n);
    var pads := [EQUALS];
    var l2 := [Letter(b % 16 * 4)] + pads;
    assert Group(s) == [Letter(a / 4)] + ([Letter(a % 4 * 16 + b / 16)] + l2);
    TwoLetters(a, b / 16, l2);
    SecondByte(b, 0);
    LetterDecodes(Held(b / 16, 4), b % 16 * 4, pads);
    LastBits();
    assert [EQUALS] + [] == pads;
    PadDecodes(Held(0, 2), 0, []);
    NothingLeft(Held(0, 4), 1);
    assert DecodeFrom(Held(0, 2), 0, pads) == Some([]) by { AppendTwice([], [], Some([])); }
    assert [b] + [] == [b] && [a] + [b] == s;
  }

  lemma NothingLeft(h: Held, eq: nat)
    requires HeldOk(h)
    ensures DecodeFrom(h, eq, []) == Some([])
  {
  }

  lemma OneByte(s: seq<byte>)
    requires |s| == 1
    ensures Decode(Group(s)) == Some(s + [0])
  {
    hide Letter, Taken, Shifted, DecodeFrom, Letters, Number;
    var a: nat := s[0];
    SmallNumbers(s);
    var n := a * 16;
    assert n / 64 % 64 == a / 4 && n % 64 == a % 4 * 16;
    FourLetters(n);
    var pads := [EQUALS] + [EQUALS];
    assert Group(s) == [Letter(a / 4)] + ([Letter(a % 4 * 16 + 0)] + pads);
    TwoLetters(a, 0, pads);
    LastBits();
    PadDecodes(Held(0, 4), 0, [EQUALS]);
    assert [EQUALS] + [] == [EQUALS];
    PadDecodes(Held(0, 6), 1, []);
    NothingLeft(NOTHING, 2);
    assert [0] + [] == [0] && [] + [0] == [0];
    assert DecodeFrom(Held(0, 4), 0, pads) == Some([0]);
    assert [a] + [0] == s + [0];
  }

  function LeftOver(n: nat): seq<byte> { if n % 3 == 1 then [0] else [] }

  /** Decoding an encoded string gives it back, with a NUL after it when one byte was left over at its end. */
  lemma {:induction false} RoundTrip(s: seq<byte>)
    ensures Decode(Encode(s)) == Some(s + LeftOver(|s|))
  {
    hide Group, DecodeFrom;
    if |s| >= 3 {
      ThreeBytes(s[..3], Encode(s[3..]));
      RoundTrip(s[3..]);
      assert s[..3] + s[3..] == s;
      assert LeftOver(|s|) == LeftOver(|s| - 3);
      assert s[..3] + (s[3..] + LeftOver(|s|)) == s + LeftOver(|s|);
    } else if |s| == 2 {
      TwoBytes(s);
      assert s + [] == s;
    } else if |s| == 1 {
      OneByte(s);
    } else {
      NothingLeft(NOTHING, 0);
      assert Group(s) == [] by { EmptyGroup(); }
      assert s + [] == [];
    }
  }

  lemma EmptyGroup()
    ensures Group([]) == []
  {
  }

  lemma {:induction false} CStringOf(s: seq<byte>, rest: seq<byte>)
    requires 0 !in s && (rest == [] || rest[0] == 0)
    ensures CString(s + rest) == s
  {
    if s == [] {
      assert s + rest == rest;
    } else {
      CStringOf(s[1..], rest);
      assert (s + rest)[1..] == s[1..] + rest;
    }
  }

  /** As C strings, decoding inverts encoding. */
  lemma StringRoundTrip(s: seq<byte>)
    requires 0 !in s
    ensures Decode(Encode(s)).Some? && CString(Decode(Encode(s)).value) == s
  {
    hide Decode, Encode, CString;
    RoundTrip(s);
    CStringOf(s, LeftOver(|s|));
  }

  // --- The methods ----------------------------------------------------------------------------------

  // Get the next three octets, or what there is.
  method ReadGroup(s: seq<byte>, sp: nat) returns (accum: nat, n: nat)
    requires sp <= |s|
    ensures n <= 3 && sp + n <= |s| && (n < 3 ==> sp + n == |s|)
    ensures accum == Number(s[sp..sp + n])
  {
    accum, n := 0, 0;
    NoNumber();
    assert s[sp..sp] == [];
    while n < 3 && sp + n < |s|
      invariant n <= 3 && sp + n <= |s| && accum == Number(s[sp..sp + n])
    {
      NumberStep(s[sp..sp + n], s[sp + n]);
      assert s[sp..sp + n + 1] == s[sp..sp + n] + [s[sp + n]];
      accum, n := accum * 256 + s[sp + n], n + 1;
    }
  }

  /** base64_encode: the text and its NUL fit the buffer that is allocated. */
  method Base64Encode(s: seq<byte>) returns (ret: array<byte>)
    requires 0 !in s
    ensures fresh(ret) && ret.Length == (|s| * 8 + 5) / 6 + 3
    ensures |Encode(s)| < ret.Length
    ensures ret[..|Encode(s)|] == Encode(s) && ret[|Encode(s)|] == 0
  {
    hide Letters, Letter, Group, Number, Power2, PadBits, Pads, Encode;
    ret := new byte[(|s| * 8 + 5) / 6 + 3](_ => 0);
    EncodedLength(s);
    FitsBuffer(|s|);
    var op: nat, sp: nat, done := 0, 0, false;
    assert s[0..] == s && ret[..0] == [] && [] + Encode(s) == Encode(s);
    while !done
      invariant sp <= |s| && op <= |Encode(s)| < ret.Length
      invariant Encode(s) == ret[..op] + if done then [] else Encode(s[sp..])
      decreases |s| - sp, !done
    {
      var accum, n := ReadGroup(s, sp);
      ghost var before, rest := ret[..op], if n < 3 then [] else Encode(s[sp + n..]);
      NextGroupAt(s, sp, n);
      ghost var group := Group(s[sp..sp + n]);
      Assoc(before, group, rest);
      op := EmitGroup(ret, op, accum, n, s[sp..sp + n]);
      sp, done := sp + n, n < 3;
    }
    ret[op] := 0;
    assert ret[..op] + [] == ret[..op];
  }

  // Pad the bits to a multiple of six, and emit letters and padding.
  method EmitGroup(ret: array<byte>, op0: nat, accum: nat, n: nat, ghost s: seq<byte>) returns (op: nat)
    requires |s| == n <= 3 && accum == Number(s) && op0 + |Group(s)| <= ret.Length
    modifies ret
    ensures op == op0 + |Group(s)| && ret[..op] == old(ret[..op0]) + Group(s)
  {
    hide Letters, Letter, Group, Number, PadBits, Pads, Padded, Power2, GroupLetters, GroupPads;
    PadBitsOf(n);
    GroupOf(s);
    var over := 8 * n % 6;
    var padBits := if over != 0 then 6 - over else 0;
    PadsLength(padBits / 2);
    Held6(n);
    PaddedIs(accum, n);
    op := EmitLetters(ret, op0, accum * Power2(padBits), 8 * n + padBits);
    op := EmitPads(ret, op, padBits);
  }

  lemma Held6(n: nat)
    requires n <= 3
    ensures (8 * n + PadBits(n)) / 6 == GroupLetters(n) && PadBits(n) / 2 == GroupPads(n)
  {
  }

  lemma FitsBuffer(n: nat)
    ensures 4 * ((n + 2) / 3) < (n * 8 + 5) / 6 + 3
  {
  }

  lemma PadsLength(n: nat)
    ensures |Pads(n)| == n
  {
  }

  method EmitLetters(ret: array<byte>, op0: nat, accum: nat, held0: nat) returns (op: nat)
    requires held0 in {0, 12, 18, 24} && op0 + held0 / 6 <= ret.Length
    modifies ret
    ensures op == op0 + held0 / 6
    ensures ret[..op] == old(ret[..op0]) + Letters(accum, held0 / 6)
  {
    hide Letter;
    op := op0;
    var n: nat := held0 / 6;
    ghost var all := ret[..op0] + Letters(accum, n);
    while n > 0
      invariant n <= 4 && op + n == op0 + held0 / 6 && op <= ret.Length
      invariant ret[..op] + Letters(accum, n) == all
    {
      ghost var before := ret[..op];
      ret[op] := Letter(accum / Power64(n - 1) % 64);
      assert ret[..op + 1] == before + [ret[op]];
      assert before + ([ret[op]] + Letters(accum, n - 1)) == (before + [ret[op]]) + Letters(accum, n - 1);
      op, n := op + 1, n - 1;
    }
    assert ret[..op] + [] == ret[..op];
  }

  method EmitPads(ret: array<byte>, op0: nat, padBits0: nat) returns (op: nat)
    requires op0 + padBits0 / 2 <= ret.Length
    modifies ret
    ensures op == op0 + padBits0 / 2
    ensures ret[..op] == old(ret[..op0]) + Pads(padBits0 / 2)
  {
    op := op0;
    var padBits := padBits0;
    while padBits >= 2
      invariant op + padBits / 2 == op0 + padBits0 / 2 && op >= op0
      invariant ret[..op0] == old(ret[..op0]) && forall k :: op0 <= k < op ==> ret[k] == EQUALS
    {
      ret[op] := EQUALS;
      op, padBits := op + 1, padBits - 2;
    }
  }

  lemma NextGroup(s: seq<byte>, n: nat)
    requires n <= |s| && n <= 3 && (n < 3 ==> n == |s|)
    ensures Encode(s) == Group(s[..n]) + if n < 3 then [] else Encode(s[n..])
  {
    hide Group;
    assert n == |s| ==> s[..n] == s;
    assert n < 3 ==> Group(s) + [] == Group(s);
  }

  // The bits that are missing to a multiple of six.
  function PadBits(n: nat): nat { match n case 1 => 4 case 2 => 2 case _ => 0 }

  lemma PadBitsOf(n: nat)
    requires n <= 3
    ensures PadBits(n) == if 8 * n % 6 != 0 then 6 - 8 * n % 6 else 0
    ensures 8 * n + PadBits(n) in {0, 12, 18, 24}
  {
  }

  function Padded(accum: nat, n: nat): nat
  {
    match n case 1 => accum * 16 case 2 => accum * 4 case _ => accum
  }

  lemma PaddedIs(accum: nat, n: nat)
    requires n <= 3
    ensures accum * Power2(PadBits(n)) == Padded(accum, n)
  {
    match n {
      case 1 => assert Power2(4) == 16;
      case 2 => assert Power2(2) == 4;
      case _ => assert Power2(0) == 1;
    }
  }

  // The letters and the padding of a group.
  function GroupLetters(n: nat): nat { match n case 0 => 0 case 1 => 2 case 2 => 3 case _ => 4 }

  function GroupPads(n: nat): nat { match n case 1 => 2 case 2 => 1 case _ => 0 }

  lemma NextGroupAt(s: seq<byte>, at: nat, n: nat)
    requires at + n <= |s| && n <= 3 && (n < 3 ==> at + n == |s|)
    ensures Encode(s[at..]) == Group(s[at..at + n]) + if n < 3 then [] else Encode(s[at + n..])
  {
    hide Group, Encode;
    NextGroup(s[at..], n);
    assert s[at..][..n] == s[at..at + n] && s[at..][n..] == s[at + n..];
  }

  lemma GroupOf(s: seq<byte>)
    requires |s| <= 3
    ensures Group(s) == Letters(Padded(Number(s), |s|), GroupLetters(|s|)) + Pads(GroupPads(|s|))
  {
    hide Letters, Number, Pads;
    NoPads();
    if s == [] {
      NoLetters();
    } else if |s| == 3 {
      assert Letters(Number(s), 4) + [] == Letters(Number(s), 4);
    }
  }

  lemma NoPads()
    ensures Pads(0) == []
  {
  }

  lemma NoNumber()
    ensures Number([]) == 0
  {
  }

  lemma NoLetters()
    ensures forall a: nat :: Letters(a, 0) == []
  {
  }

  /** base64_decode: the bytes and a final NUL fit the buffer that is allocated. */
  method Base64Decode(s: seq<byte>) returns (ok: bool, ret: array<byte>, ghost n: nat)
    requires 0 !in s
    ensures fresh(ret) && ret.Length == |s| + 1
    ensures match Decode(s)
            case None => !ok
            case Some(out) => ok && n == |out| < ret.Length && ret[..n] == out && ret[n] == 0
  {
    hide LetterIndex, Letter, Power2;
    ret := new byte[|s| + 1](_ => 0);
    var op, i, eq := 0, 0, 0;
    var h := NOTHING;
    NothingHeld();
    n := 0;
    AppendTwice([], [], Decode(s));
    assert s[0..] == s;
    while i < |s|
      invariant op <= i <= |s| && eq <= 2 && HeldOk(h)
      invariant Decode(s) == Append(ret[..op], DecodeFrom(h, eq, s[i..]))
    {
      assert s[i..][0] == s[i] && s[i..][1..] == s[i + 1..];
      var c := s[i];
      var h1: Held;
      if c == EQUALS {
        eq := eq + 1;
        SmallPowers();
        h1 := Shifted(h, 0, 2);
      } else {
        var ix := LetterIndex(c, 0);
        if eq > 0 || ix == None {
          return false, ret, 0;
        }
        SmallPowers();
        h1 := Shifted(h, ix.value, 6);
      }
      ghost var before := ret[..op];
      ghost var t := Taken(h1);
      if h1.bits >= 8 {
        ret[op] := h1.accum / Power2(h1.bits - 8) % 256;
        assert ret[..op + 1] == before + t.0;
        op := op + 1;
        h := Held(h1.accum % Power2(h1.bits - 8), h1.bits - 8);
      } else {
        h := h1;
        assert before + [] == before;
      }
      if eq > 2 {
        return false, ret, 0;
      }
      i := i + 1;
      AppendTwice(before, t.0, DecodeFrom(h, eq, s[i..]));
    }
    assert ret[..op] + [] == ret[..op];
    ret[op] := 0;
    return true, ret, op;
  }

  lemma NothingHeld()
    ensures HeldOk(NOTHING)
  {
  }

  lemma SmallPowers()
    ensures Power2(2) == 4 && Power2(6) == 64
  {
  }
}
