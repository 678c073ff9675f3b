/**
 The texts that the parser accepts, as equations that say what an element is by how its text begins
 (Common/json.c:377-739; sections 2 to 7 of RFC 8259).  Between them they cover every text: the end of
 the text, white space, words, numbers, strings, arrays, objects, and any other character.
 */
module JsonGrammar {
  import opened Bytes
  import opened Utf8
  import opened JsonText
  import opened JsonParse
  import opened JsonRoundTrip
  import opened JsonEscapes

  // What is wrong when a token stops an element that should not: the end of the text, or another token.
  function Wrong(stop: int): Error { if stop == 0 then Incomplete else Syntax }

  // --- Simple elements ----------------------------------------------------------------------------

  lemma Nothing(lib: Libc)
    ensures Element(lib, []) == Failed(Incomplete)
  {
  }

  /** White space in front of an element is skipped; any character that begins no element stops the search for one. */
  lemma OtherCharacter(lib: Libc, c: Ucs4, s: Input)
    requires c !in {LBRACE, LBRACKET, QUOTE, MINUS} && !IsDigit(c) && !IsAlpha(c)
    ensures Element(lib, [c] + s)
            == if c in {0x20, 0x09, 0x0D, 0x0A, 0x0C} then Element(lib, s) else Parsed(JNull, c, false, s)
  {
    assert ([c] + s)[1..] == s;
  }

  /** A word is null, true or false, or a syntax error. */
  lemma Word(lib: Libc, w: Text, s: Input)
    requires w != [] && (forall i :: 0 <= i < |w| ==> IsAlpha(w[i]))
    requires s == [] || (s[0] >= 0 && !IsAlpha(s[0]))
    ensures Element(lib, w + s)
            == if w == [0x6E, 0x75, 0x6C, 0x6C] then Terminal(JNull, s)
               else if w == [0x74, 0x72, 0x75, 0x65] then Terminal(JBool(true), s)
               else if w == [0x66, 0x61, 0x6C, 0x73, 0x65] then Terminal(JBool(false), s)
               else Failed(Syntax)
  {
    assert [w[0]] + w[1..] == w && (w + s)[1..] == w[1..] + s;
    WordFrom(w[1..], s, [w[0]]);
  }

  lemma {:induction false} WordFrom(p: Text, s: Input, tok: Text)
    requires (forall i :: 0 <= i < |p| ==> IsAlpha(p[i])) && (s == [] || (s[0] >= 0 && !IsAlpha(s[0])))
    ensures Bareword(p + s, tok)
            == match BarewordOf(tok + p) case None => Failed(Syntax) case Some(v) => Terminal(v, s)
  {
    if p == [] {
      assert p + s == s && tok + p == tok;
    } else {
      assert tok + [p[0]] + p[1..] == tok + p && (p + s)[1..] == p[1..] + s;
      WordFrom(p[1..], s, tok + [p[0]]);
    }
  }

  /** A number is a 64-bit integer if it is spelled as one, and what strtod says otherwise; an integer beyond 64
      bits, or at either end of them while errno says so, is an overflow. */
  function NumberText(lib: Libc, w: Text, s: Input): Parsed
    requires w != []
  {
    var digits := if w[0] == MINUS then w[1..] else w;
    if digits != [] && AllDigits(digits) then
      var v := if w[0] == MINUS then -DecimalValue(digits) else DecimalValue(digits);
      if -0x8000_0000_0000_0000 <= v < 0x8000_0000_0000_0000
         && !(lib.staleErange && v in {-0x8000_0000_0000_0000, 0x7FFF_FFFF_FFFF_FFFF})
      then Terminal(JInt(v), s) else Failed(NumberOverflow)
    else
      match lib.strtod(w)
      case NotADouble => Failed(Syntax)
      case TooLarge => Failed(NumberOverflow)
      case Double(d) => Terminal(JDouble(d), s)
  }

  lemma Number(lib: Libc, w: Text, s: Input)
    requires w != [] && (w[0] == MINUS || IsDigit(w[0])) && (forall i :: 0 <= i < |w| ==> IsNumberChar(w[i]))
    requires s == [] || (s[0] >= 0 && !IsNumberChar(s[0]))
    ensures Element(lib, w + s) == NumberText(lib, w, s)
  {
    hide DecimalValue, NumberText, NumberOf, Numeric;
    assert [w[0]] + w[1..] == w && (w + s)[1..] == w[1..] + s;
    NumberFrom(lib, w[1..], s, [w[0]]);
    NumberMeans(lib, w, s);
  }

  lemma NumberMeans(lib: Libc, w: Text, s: Input)
    requires w != []
    ensures NumberText(lib, w, s)
            == match NumberOf(lib, w)
               case NotANumber => Failed(Syntax)
               case Overflow => Failed(NumberOverflow)
               case Number(v) => Terminal(v, s)
  {
    hide DecimalValue, Terminal;
  }

  lemma {:induction false} NumberFrom(lib: Libc, p: Text, s: Input, tok: Text)
    requires (forall i :: 0 <= i < |p| ==> IsNumberChar(p[i])) && (s == [] || (s[0] >= 0 && !IsNumberChar(s[0])))
    ensures Numeric(lib, p + s, tok)
            == match NumberOf(lib, tok + p)
               case NotANumber => Failed(Syntax)
               case Overflow => Failed(NumberOverflow)
               case Number(v) => Terminal(v, s)
  {
    hide NumberOf, Terminal;
    if p == [] {
      assert p + s == s && tok + p == tok;
    } else {
      assert tok + [p[0]] + p[1..] == tok + p && (p + s)[1..] == p[1..] + s;
      NumberFrom(lib, p[1..], s, tok + [p[0]]);
    }
  }

  /** A string stands for what its escapes mean, and is a syntax error if one of them is unknown. */
  lemma StringElement(lib: Libc, x: Text, s: Input)
    requires Body(x)
    ensures var e := Element(lib, [QUOTE] + (x + ([QUOTE] + s)));
            if TextOk(x) then
              Unescape(Collected(x), 0).Some? && e == Terminal(JString(Unescape(Collected(x), 0).value), s)
            else e == Failed(Syntax)
  {
    hide Unescape, Collected, TextOk, EscapesOk, Terminal;
    var y := x + ([QUOTE] + s);
    assert ([QUOTE] + y)[1..] == y;
    QuotedCollects(x, [QUOTE] + s, []);
    assert [] + Collected(x) == Collected(x) && ([QUOTE] + s)[1..] == s;
    UnescapeAccepts(Collected(x), 0);
    CollectedOk(x);
  }

  // A string without its closing quote.
  lemma OpenString(lib: Libc, x: Text)
    requires Body(x)
    ensures Element(lib, [QUOTE] + x) == Failed(Incomplete)
    ensures Element(lib, [QUOTE] + (x + [BACKSLASH])) == Failed(Incomplete)
  {
    hide Unescape, Collected;
    assert ([QUOTE] + x)[1..] == x && x + [] == x && ([QUOTE] + (x + [BACKSLASH]))[1..] == x + [BACKSLASH];
    QuotedCollects(x, [], []);
    QuotedCollects(x, [BACKSLASH], []);
  }

  // --- Arrays -------------------------------------------------------------------------------------

  // An array with items in front of those of `a`.
  function WithItems(items: seq<Json>, a: Parsed): Parsed
  {
    if a.Parsed? && a.value.JArray? then a.(value := JArray(items + a.value.items)) else a
  }

  lemma TerminalItems(items: seq<Json>, rest: seq<Json>, s: Input)
    ensures WithItems(items, Terminal(JArray(rest), s)) == Terminal(JArray(items + rest), s)
    decreases |s|
  {
    if s != [] && s[0] >= 0 && IsSpace(s[0]) {
      TerminalItems(items, rest, s[1..]);
    }
  }

  lemma {:induction false} ItemsInFront(lib: Libc, s: Input, acc: seq<Json>, more: seq<Json>)
    ensures Items(lib, s, acc + more) == WithItems(acc, Items(lib, s, more))
    decreases |s|
  {
    hide Element, Terminal;
    var e := Element(lib, s);
    if e.Parsed? {
      var more1 := if e.any then more + [e.value] else more;
      assert (if e.any then (acc + more) + [e.value] else acc + more) == acc + more1;
      if e.stop == COMMA {
        ItemsInFront(lib, e.rest, acc, more1);
      } else if e.stop == RBRACKET {
        TerminalItems(acc, more1, e.rest);
      }
    }
  }

  /** What an array is whose text goes on, behind its bracket, with the element `e`: this is its first item, if there
      is one, and then comes a comma and the rest of the array, or the closing bracket.  Anything else is an
      error, the end of the text an incomplete text.  Missing items are left out. */
  function ArrayFrom(lib: Libc, e: Parsed): Parsed
  {
    if e.Failed? then e
    else
      var items := if e.any then [e.value] else [];
      if e.stop == COMMA then WithItems(items, Element(lib, [LBRACKET] + e.rest))
      else if e.stop == RBRACKET then Terminal(JArray(items), e.rest)
      else Failed(Wrong(e.stop))
  }

  lemma Array(lib: Libc, s: Input)
    ensures Element(lib, [LBRACKET] + s) == ArrayFrom(lib, Element(lib, s))
  {
    hide Terminal;
    assert ([LBRACKET] + s)[1..] == s;
    var e := Element(lib, s);
    if e.Parsed? && e.stop == COMMA {
      var items := if e.any then [e.value] else [];
      assert ([LBRACKET] + e.rest)[1..] == e.rest && [] + items == items && items + [] == items;
      assert [] + [e.value] == [e.value];
      ItemsInFront(lib, e.rest, items, []);
      assert Element(lib, [LBRACKET] + s) == Items(lib, s, []) == Items(lib, e.rest, items);
      assert Element(lib, [LBRACKET] + e.rest) == Items(lib, e.rest, []);
    } else if e.Parsed? && e.stop == RBRACKET {
      assert [] + [e.value] == [e.value];
    }
  }

  // --- Objects ------------------------------------------------------------------------------------

  function WithMembers(members: seq<Member>, a: Parsed): Parsed
  {
    if a.Parsed? && a.value.JObject? then a.(value := JObject(members + a.value.members)) else a
  }

  lemma TerminalMembers(members: seq<Member>, rest: seq<Member>, s: Input)
    ensures WithMembers(members, Terminal(JObject(rest), s)) == Terminal(JObject(members + rest), s)
    decreases |s|
  {
    if s != [] && s[0] >= 0 && IsSpace(s[0]) {
      TerminalMembers(members, rest, s[1..]);
    }
  }

  lemma {:induction false} MembersInFront(lib: Libc, s: Input, acc: seq<Member>, more: seq<Member>)
    ensures Members(lib, s, acc + more) == WithMembers(acc, Members(lib, s, more))
    decreases |s|
  {
    hide Element, Terminal;
    var k := Element(lib, s);
    if k.Parsed? && !k.any && k.stop == RBRACE {
      TerminalMembers(acc, more, k.rest);
    } else if k.Parsed? && k.stop == COLON && k.value.JString? {
      var e := Element(lib, k.rest);
      if e.Parsed? && e.any {
        var m := [Member(k.value.text, e.value)];
        assert (acc + more) + m == acc + (more + m);
        if e.stop == COMMA {
          MembersInFront(lib, e.rest, acc, more + m);
        } else if e.stop == RBRACE {
          TerminalMembers(acc, more + m, e.rest);
        }
      }
    }
  }

  /** What an object is whose text goes on, behind its brace, with the element `k`: the closing brace ends it, and a
      string is a name, which a colon and a value must follow. */
  function ObjectFrom(lib: Libc, k: Parsed): Parsed
  {
    if k.Failed? then k
    else if !k.any && k.stop == RBRACE then Terminal(JObject([]), k.rest)
    else if k.stop != COLON then Failed(Wrong(k.stop))
    else if !k.value.JString? then Failed(Syntax)
    else MemberFrom(lib, k.value.text, Element(lib, k.rest))
  }

  // Behind a value comes a comma and the rest of the object, or the closing brace.
  function MemberFrom(lib: Libc, name: Text, e: Parsed): Parsed
  {
    if e.Failed? then e
    else if e.stop !in {COMMA, RBRACE} then Failed(Wrong(e.stop))
    else if !e.any then Failed(Syntax)
    else if e.stop == COMMA then WithMembers([Member(name, e.value)], Element(lib, [LBRACE] + e.rest))
    else Terminal(JObject([Member(name, e.value)]), e.rest)
  }

  lemma Object(lib: Libc, s: Input)
    ensures Element(lib, [LBRACE] + s) == ObjectFrom(lib, Element(lib, s))
  {
    hide Terminal;
    assert ([LBRACE] + s)[1..] == s;
    var k := Element(lib, s);
    if k.Parsed? && k.stop == COLON && k.value.JString? {
      var e := Element(lib, k.rest);
      if e.Parsed? && e.any {
        var m := [Member(k.value.text, e.value)];
        assert [] + m == m && m + [] == m;
        if e.stop == COMMA {
          assert ([LBRACE] + e.rest)[1..] == e.rest;
          MembersInFront(lib, e.rest, m, []);
          assert Element(lib, [LBRACE] + s) == Members(lib, s, []) == Members(lib, e.rest, m);
          assert Element(lib, [LBRACE] + e.rest) == Members(lib, e.rest, []);
        }
      }
    }
  }

  // --- Whole texts --------------------------------------------------------------------------------

  /** A text is accepted if its element goes on to the end; another token behind an element is extra text, and in
      place of one a syntax error. */
  lemma WholeText(lib: Libc, s: seq<byte>)
    ensures var r := Parse(lib, s);
            match Element(lib, DecodeText(s))
            case Failed(e) => r == Err(e)
            case Parsed(v, stop, any, _) =>
              r == if stop == 0 then Ok(v) else if any then Err(Extra) else Err(Syntax)
  {
    hide Element, DecodeText;
  }

  // What follows an element: white space up to the end or the next token.
  lemma AfterElement(v: Json, s: Input)
    ensures Terminal(v, []) == Parsed(v, 0, true, [])
    ensures s != [] && s[0] >= 0 ==>
              Terminal(v, s) == if s[0] in {0x20, 0x09, 0x0D, 0x0A, 0x0C} then Terminal(v, s[1..])
                                else Parsed(v, s[0], true, s[1..])
    ensures s != [] && s[0] < 0 ==> Terminal(v, s) == Failed(BadUtf8)
  {
  }
}
