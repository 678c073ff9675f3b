/** UTF-8 conversion of 31-bit characters (Common/utf8.c:89-260). */
module Utf8 {
  import opened Bytes

  // A UCS-4 character that UTF-8 can carry.
  type Ucs4 = u: int | 0 <= u < 0x8000_0000

  // --- Six bits at a time -----------------------------------------------------------------------

  // The value without its lowest `k` groups of six bits.
  function High(u: nat, k: nat): nat
  {
    if k == 0 then u else High(u / 0x40, k - 1)
  }

  // The lowest `k` groups of six bits as continuation bytes.
  function Low(u: nat, k: nat): (r: seq<byte>)
    ensures |r| == k
    ensures forall i :: 0 <= i < k ==> IsContinuation(r[i])
  {
    if k == 0 then [] else Low(u / 0x40, k - 1) + [0x80 + u % 0x40]
  }

  predicate IsContinuation(b: byte) { 0x80 <= b < 0xC0 }

  // A value and the continuation bytes that follow it.
  function Join(h: nat, s: seq<byte>): nat
  {
    if s == [] then h else Join(h, s[..|s| - 1]) * 0x40 + s[|s| - 1] % 0x40
  }

  lemma {:induction false} JoinParts(u: nat, k: nat)
    ensures Join(High(u, k), Low(u, k)) == u
  {
    if k > 0 {
      JoinParts(u / 0x40, k - 1);
      assert Low(u, k)[..k - 1] == Low(u / 0x40, k - 1);
    }
  }

  lemma {:induction false} PartsOfJoin(h: nat, s: seq<byte>)
    requires forall i :: 0 <= i < |s| ==> IsContinuation(s[i])
    ensures High(Join(h, s), |s|) == h && Low(Join(h, s), |s|) == s
  {
    if s != [] {
      PartsOfJoin(h, s[..|s| - 1]);
    }
  }

  // --- Conversion -------------------------------------------------------------------------------

  function Length(u: Ucs4): (r: nat)
    ensures 1 <= r <= 6
  {
    if u <= 0x7F then 1 else if u <= 0x7FF then 2 else if u <= 0xFFFF then 3
    else if u <= 0x1F_FFFF then 4 else if u <= 0x3FF_FFFF then 5 else 6
  }

  // The marker bits of a lead byte.
  function Marker(len: nat): byte
    requires 2 <= len <= 6
  {
    match len case 2 => 0xC0 case 3 => 0xE0 case 4 => 0xF0 case 5 => 0xF8 case _ => 0xFC
  }

  // One more than the largest value of the lead bits, and of the character.
  function Room(len: nat): nat
    requires 2 <= len <= 6
  {
    match len case 2 => 32 case 3 => 16 case 4 => 8 case 5 => 4 case _ => 2
  }

  function Most(len: nat): nat
    requires 2 <= len <= 6
  {
    match len
    case 2 => 0x800 case 3 => 0x1_0000 case 4 => 0x20_0000 case 5 => 0x400_0000 case _ => 0x8000_0000
  }

  lemma LeadFits(u: nat, len: nat)
    requires 2 <= len <= 6
    ensures High(u, len - 1) < Room(len) <==> u < Most(len)
  {
    var u1 := u / 0x40;
    var u2 := u1 / 0x40;
    var u3 := u2 / 0x40;
    var u4 := u3 / 0x40;
    assert High(u, 1) == High(u1, 0) == u1;
    assert High(u, 2) == High(u1, 1) == High(u2, 0) == u2;
    assert High(u, 3) == High(u1, 2) == High(u2, 1) == High(u3, 0) == u3;
    assert High(u, 4) == High(u1, 3) == High(u2, 2) == High(u3, 1) == High(u4, 0) == u4;
    assert High(u, 5) == High(u1, 4) == High(u2, 3) == High(u3, 2) == High(u4, 1) == u4 / 0x40;
  }

  // unicode_to_utf8
  function Encode(u: Ucs4): (r: seq<byte>)
    ensures |r| == Length(u)
  {
    var len := Length(u);
    if len == 1 then [u] else LeadFits(u, len); [Marker(len) + High(u, len - 1)] + Low(u, len - 1)
  }

  // A character and its length in bytes; no length for incomplete or invalid input.
  datatype Decoded = Decoded(nr: nat, u: Ucs4)

  const INVALID := Decoded(0, 0)

  // The length that a lead byte announces, or 0.
  function LeadLength(b: byte): nat
  {
    if b < 0xC0 then 0 else if b < 0xE0 then 2 else if b < 0xF0 then 3
    else if b < 0xF8 then 4 else if b < 0xFC then 5 else if b < 0xFE then 6 else 0
  }

  // The least character of a given length; two-byte sequences are not checked.
  function Least(len: nat): nat
  {
    if len <= 2 then 0 else if len == 3 then 0x800 else if len == 4 then 0x1_0000
    else if len == 5 then 0x20_0000 else 0x400_0000
  }

  // utf8_to_unicode
  function Decode(s: seq<byte>): (r: Decoded)
    ensures r.nr <= |s|
  {
    if s == [] then INVALID
    else if s[0] < 0x80 then Decoded(1, s[0])
    else
      var len := LeadLength(s[0]);
      if len == 0 || len > |s| || exists i :: 1 <= i < len && !IsContinuation(s[i]) then INVALID
      else
        var u := Join(s[0] - Marker(len), s[1..len]);
        PartsOfJoin(s[0] - Marker(len), s[1..len]);
        LeadFits(u, len);
        if u < Least(len) then INVALID else Decoded(len, u)
  }

  /** Decoding the encoding of any character, whatever follows it, gives back the character and the
      length of its encoding. */
  lemma DecodeEncode(u: Ucs4, rest: seq<byte>)
    ensures Decode(Encode(u) + rest) == Decoded(|Encode(u)|, u)
  {
    hide High, Low, Join, Marker, Room, Most, Length, LeadLength, Least;
    var len, s := Length(u), Encode(u) + rest;
    LengthOf(u);
    if len > 1 {
      JoinParts(u, len - 1);
      LeadFits(u, len);
      LeadByte(len, High(u, len - 1));
      assert s[1..len] == Low(u, len - 1);
      assert forall i :: 1 <= i < len ==> s[i] == Low(u, len - 1)[i - 1];
    } else {
      assert s[0] == u;
    }
  }

  // The lengths fit the characters.
  lemma LengthOf(u: Ucs4)
    ensures var len := Length(u);
            if len == 1 then u < 0x80 else Least(len) <= u < Most(len) && (len == 2 ==> u >= 0x80)
  {
  }

  lemma LengthIs(u: Ucs4, len: nat)
    requires 2 <= len <= 6 && Least(len) <= u < Most(len)
    ensures Length(u) == len <==> len > 2 || u >= 0x80
  {
  }

  lemma LeadByte(len: nat, h: nat)
    requires 2 <= len <= 6 && h < Room(len)
    ensures 0x80 <= Marker(len) + h < 0x100 && LeadLength(Marker(len) + h) == len
  {
  }

  lemma LeadParts(b: byte)
    requires LeadLength(b) > 0
    ensures var len := LeadLength(b); 2 <= len <= 6 && 0 <= b - Marker(len) < Room(len)
  {
  }

  lemma ShortLength(u: Ucs4)
    ensures Length(u) == 1 <==> u < 0x80
  {
  }

  // Two-byte sequences longer than necessary have two lead bytes only.
  lemma TwoByteLead(b: byte, s: seq<byte>)
    requires LeadLength(b) == 2 && |s| == 1
    ensures Join(b - Marker(2), s) >= 0x80 <==> b !in {0xC0, 0xC1}
  {
    assert s[..0] == [];
    assert Join(b - Marker(2), s) == (b - Marker(2)) * 0x40 + s[0] % 0x40;
  }

  lemma LongLead(b: byte)
    ensures LeadLength(b) > 2 ==> b !in {0xC0, 0xC1}
  {
  }

  /** Conversely, what is decoded encodes to the bytes consumed, except for two-byte sequences that
      are longer than necessary. */
  lemma EncodeDecode(s: seq<byte>)
    requires Decode(s).nr > 0
    ensures Encode(Decode(s).u) == s[..Decode(s).nr] <==> s[0] !in {0xC0, 0xC1}
  {
    hide High, Low, Join, Marker, Room, Most, Length, LeadLength, Least;
    var d := Decode(s);
    if s[0] < 0x80 {
      ShortLength(s[0]);
      assert s[..1] == [s[0]];
    } else {
      LeadParts(s[0]);
      var h := s[0] - Marker(d.nr);
      PartsOfJoin(h, s[1..d.nr]);
      LeadFits(d.u, d.nr);
      LengthIs(d.u, d.nr);
      assert s[..d.nr] == [s[0]] + s[1..d.nr];
      if d.nr == 2 {
        TwoByteLead(s[0], s[1..2]);
      } else {
        LongLead(s[0]);
      }
      if Length(d.u) != d.nr {
        assert |Encode(d.u)| != d.nr;
      }
    }
  }

  // A two-byte sequence for the at sign is accepted, but the at sign is one byte.
  lemma OverlongAccepted()
    ensures Decode([0xC1, 0x80]) == Decoded(2, 0x40) && Encode(0x40) == [0x40]
  {
    var s: seq<byte> := [0xC1, 0x80];
    assert s[1..2] == [0x80] && s[1..2][..0] == [];
    assert Join(1, []) == 1;
    assert Join(1, s[1..2]) == 0x40;
    PartsOfJoin(1, s[1..2]);
  }
}
