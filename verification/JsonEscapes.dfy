/**
 Which strings the parser accepts: exactly those whose escapes it knows (Common/json.c:200-324,
 678-711).
 */
module JsonEscapes {
  import opened Bytes
  import opened Utf8
  import opened JsonText
  import opened JsonParse
  import opened JsonRoundTrip

  // --- The collected characters -------------------------------------------------------------------

  // Behind a backslash, apart from the letter u.
  predicate KnownEscape(c: int) { c in {0x5C, 0x2F, 0x72, 0x6E, 0x74, 0x66} }

  /** In the characters collected between the quotes, every backslash is followed by a known escape, or by u and
      four hexadecimal digits.  A backslash at the very end, which the parser never collects, is ignored. */
  predicate EscapesOk(s: Text)
    decreases |s|
  {
    |s| <= 1
    || if s[0] != BACKSLASH then EscapesOk(s[1..])
       else if s[1] == LETTER_U then FourHexDigits(s[2..]) && EscapesOk(s[6..])
       else KnownEscape(s[1]) && EscapesOk(s[2..])
  }

  // The 32-bit arithmetic on a pair of surrogates stays in range.
  lemma CombinedFits(lead: nat, u: nat)
    requires IsHighSurrogate(lead) && IsLowSurrogate(u)
    ensures Combined(lead, u) < 0x11_0000
  {
  }

  /** A string token is accepted if and only if its escapes are, whatever surrogates they make. */
  lemma {:induction false} UnescapeAccepts(s: Text, lead: Ucs4)
    requires lead == 0 || IsHighSurrogate(lead)
    ensures Unescape(s, lead).Some? <==> EscapesOk(s)
    decreases |s|
  {
    hide Combined, HexWord, IsHexDigit;
    if |s| == 1 {
      assert s[1..] == [];
    } else if |s| > 1 {
      if s[0] != BACKSLASH {
        UnescapeAccepts(s[1..], 0);
      } else if s[1] != LETTER_U {
        UnescapeAccepts(s[2..], 0);
      } else if FourHexDigits(s[2..]) {
        var u := HexWord(s[2..]);
        UnescapeAccepts(s[6..], 0);
        if IsHighSurrogate(u) {
          UnescapeAccepts(s[6..], u);
        } else if IsLowSurrogate(u) && lead != 0 {
          CombinedFits(lead, u);
        }
      }
    }
  }

  // --- The text between the quotes ------------------------------------------------------------------

  // Characters and escapes: no quote without a backslash in front of it, and no backslash alone.
  predicate Body(x: Text)
    decreases |x|
  {
    x == []
    || if x[0] == BACKSLASH then |x| > 1 && Body(x[2..]) else x[0] != QUOTE && Body(x[1..])
  }

  // What the parser collects of it: an escaped quote loses its backslash.
  function Collected(x: Text): Text
    requires Body(x)
    decreases |x|
  {
    if x == [] then []
    else if x[0] == BACKSLASH then (if x[1] == QUOTE then [QUOTE] else [BACKSLASH, x[1]]) + Collected(x[2..])
    else [x[0]] + Collected(x[1..])
  }

  /** Every backslash of the text is followed by a quote, a known escape, or u and four hexadecimal digits. */
  predicate TextOk(x: Text)
    decreases |x|
  {
    x == []
    || if x[0] != BACKSLASH then TextOk(x[1..])
       else if |x| == 1 then false
       else if x[1] == LETTER_U then FourHexDigits(x[2..]) && TextOk(x[6..])
       else (x[1] == QUOTE || KnownEscape(x[1])) && TextOk(x[2..])
  }

  // The parser collects the text up to the closing quote.
  lemma {:induction false} QuotedCollects(x: Text, s: Input, tok: Text)
    requires Body(x)
    ensures Quoted(x + s, tok) == Quoted(s, tok + Collected(x))
    decreases |x|
  {
    hide Unescape;
    if x == [] {
      assert x + s == s && tok + [] == tok;
    } else if x[0] == BACKSLASH {
      var e := if x[1] == QUOTE then [QUOTE] else [BACKSLASH, x[1]];
      assert (x + s)[2..] == x[2..] + s;
      QuotedCollects(x[2..], s, tok + e);
      assert tok + e + Collected(x[2..]) == tok + (e + Collected(x[2..]));
    } else {
      assert (x + s)[1..] == x[1..] + s;
      QuotedCollects(x[1..], s, tok + [x[0]]);
      assert tok + [x[0]] + Collected(x[1..]) == tok + ([x[0]] + Collected(x[1..]));
    }
  }

  // Hexadecimal digits are collected as they are.
  lemma DigitCollected(x: Text)
    requires Body(x)
    ensures x != [] && IsHexDigit(x[0]) <==> Collected(x) != [] && IsHexDigit(Collected(x)[0])
    ensures x != [] && IsHexDigit(x[0]) ==> Body(x[1..]) && Collected(x)[1..] == Collected(x[1..])
  {
  }

  lemma DigitsCollected(x: Text)
    requires Body(x)
    ensures FourHexDigits(x) <==> FourHexDigits(Collected(x))
    ensures FourHexDigits(x) ==> Body(x[4..]) && Collected(x)[4..] == Collected(x[4..])
  {
    hide Collected, Body, IsHexDigit;
    var c := Collected(x);
    DigitCollected(x);
    if x != [] && IsHexDigit(x[0]) {
      DigitCollected(x[1..]);
      if |x| > 1 && IsHexDigit(x[1]) {
        assert x[1..][1..] == x[2..] && c[1..][1..] == c[2..];
        DigitCollected(x[2..]);
        if |x| > 2 && IsHexDigit(x[2]) {
          assert x[2..][1..] == x[3..] && c[2..][1..] == c[3..];
          DigitCollected(x[3..]);
          assert |x| > 3 ==> x[3..][1..] == x[4..];
          assert |c| > 3 ==> c[3..][1..] == c[4..];
        }
      }
    }
  }

  lemma {:induction false} CollectedOk(x: Text)
    requires Body(x)
    ensures EscapesOk(Collected(x)) <==> TextOk(x)
    decreases |x|
  {
    hide FourHexDigits;
    if x != [] {
      var c := Collected(x);
      if x[0] != BACKSLASH {
        CollectedOk(x[1..]);
        assert c[1..] == Collected(x[1..]);
      } else if x[1] == QUOTE {
        CollectedOk(x[2..]);
        assert c[1..] == Collected(x[2..]);
      } else {
        assert c[2..] == Collected(x[2..]);
        DigitsCollected(x[2..]);
        if x[1] != LETTER_U {
          CollectedOk(x[2..]);
        } else if FourHexDigits(x[2..]) {
          HasFour(x[2..]);
          HasFour(c[2..]);
          assert x[2..][4..] == x[6..] && c[2..][4..] == c[6..];
          CollectedOk(x[6..]);
        }
      }
    }
  }

  lemma HasFour(s: Text)
    requires FourHexDigits(s)
    ensures |s| >= 4
  {
  }

  // --- Whole texts ----------------------------------------------------------------------------------

  function StringText(x: Text): Text { [QUOTE] + (x + [QUOTE]) }

  /** A quoted text is parsed as a string if and only if every backslash is followed by something that the parser
      knows; otherwise it is a syntax error. */
  lemma StringAccepted(lib: Libc, x: Text)
    requires Body(x)
    ensures var r := Parse(lib, EncodeText(StringText(x)));
            if TextOk(x) then r.Ok? && r.value.JString? && Unescape(Collected(x), 0) == Some(r.value.text)
            else r == Err(Syntax)
  {
    hide Unescape, Collected, EncodeText, DecodeText, TextOk, EscapesOk;
    TextRoundTrip(StringText(x));
    assert StringText(x)[1..] == x + [QUOTE];
    QuotedCollects(x, [QUOTE], []);
    assert [] + Collected(x) == Collected(x);
    var close: Text := [QUOTE];
    assert close[1..] == [];
    UnescapeAccepts(Collected(x), 0);
    CollectedOk(x);
  }

  /** RFC 8259 allows the escape \b, but the parser rejects every string that contains it. */
  lemma BackspaceEscapeRejected(lib: Libc, p: Text, q: Text)
    requires Body(p) && Body(q)
    ensures Parse(lib, EncodeText(StringText(p + ([BACKSLASH, 0x62] + q)))) == Err(Syntax)
  {
    hide Parse, StringText;
    var x := p + ([BACKSLASH, 0x62] + q);
    ContainsBackspace(p, q);
    StringAccepted(lib, x);
  }

  lemma {:induction false} ContainsBackspace(p: Text, q: Text)
    requires Body(p) && Body(q)
    ensures var x := p + ([BACKSLASH, 0x62] + q); Body(x) && !TextOk(x)
    decreases |p|
  {
    hide FourHexDigits;
    var x := p + ([BACKSLASH, 0x62] + q);
    if p == [] {
      assert x == [BACKSLASH, 0x62] + q && x[2..] == q;
    } else if p[0] != BACKSLASH {
      ContainsBackspace(p[1..], q);
      assert x[1..] == p[1..] + ([BACKSLASH, 0x62] + q);
    } else {
      ContainsBackspace(p[2..], q);
      var y := p[2..] + ([BACKSLASH, 0x62] + q);
      assert x[2..] == y;
      if p[1] == LETTER_U && FourHexDigits(y) {
        DigitsThenBackspace(p[2..], q);
        ContainsBackspace(p[6..], q);
        assert x[6..] == p[6..] + ([BACKSLASH, 0x62] + q);
      }
    }
  }

  // Four digits in front of the escape all belong to the text in front of it.
  lemma DigitsThenBackspace(p: Text, q: Text)
    requires Body(p) && FourHexDigits(p + ([BACKSLASH, 0x62] + q))
    ensures |p| >= 4 && Body(p[4..])
  {
    var x := p + ([BACKSLASH, 0x62] + q);
    assert x[|p|] == BACKSLASH;
    if |p| >= 4 {
      assert x[0] == p[0] && x[1] == p[1] && x[2] == p[2] && x[3] == p[3];
      DigitsCollected(p);
    }
  }

  lemma {:induction false} AsciiText(t: seq<byte>)
    requires forall i :: 0 <= i < |t| ==> t[i] < 0x80
    ensures EncodeText(t) == t
  {
    if t != [] {
      AsciiText(t[1..]);
      assert Encode(t[0]) == [t[0]];
    }
  }

  // The shortest such string.
  lemma BackspaceAloneRejected(lib: Libc)
    ensures Parse(lib, [0x22, 0x5C, 0x62, 0x22]) == Err(Syntax)
  {
    hide Parse, Encode;
    BackspaceEscapeRejected(lib, [], []);
    assert StringText([] + ([BACKSLASH, 0x62] + [])) == [0x22, 0x5C, 0x62, 0x22];
    AsciiText([0x22, 0x5C, 0x62, 0x22]);
  }
}
