/**
 Parsing what the printer wrote gives back the value, in both layouts and with surrogate expansion
 on or off.
 */
module JsonRoundTrip {
  import opened Bytes
  import opened Utf8
  import opened JsonText
  import opened JsonParse
  import opened JsonPrint

  // --- White space --------------------------------------------------------------------------------

  predicate AllSpace(p: Input) { forall i :: 0 <= i < |p| ==> IsSpace(p[i]) }

  lemma {:induction false} SkipSpace(lib: Libc, p: Input, s: Input, v: Json)
    requires AllSpace(p)
    ensures Element(lib, p + s) == Element(lib, s)
    ensures Terminal(v, p + s) == Terminal(v, s)
  {
    if p == [] {
      assert p + s == s;
    } else {
      SkipSpace(lib, p[1..], s, v);
      assert (p + s)[1..] == p[1..] + s;
    }
  }

  lemma SkipSpaceInside(lib: Libc, p: Input, s: Input, items: seq<Json>, members: seq<Member>)
    requires AllSpace(p)
    ensures Items(lib, p + s, items) == Items(lib, s, items)
    ensures Members(lib, p + s, members) == Members(lib, s, members)
  {
    SkipSpace(lib, p, s, JNull);
  }

  // --- Strings ------------------------------------------------------------------------------------

  predicate Plain(p: Input)
  {
    forall i :: 0 <= i < |p| ==> p[i] >= 0 && p[i] != BACKSLASH && p[i] != QUOTE
  }

  lemma {:induction false} QuotedPlain(p: Text, s: Input, tok: Text)
    requires Plain(p)
    ensures Quoted(p + s, tok) == Quoted(s, tok + p)
  {
    if p == [] {
      assert p + s == s && tok + p == tok;
    } else {
      QuotedPlain(p[1..], s, tok + [p[0]]);
      assert (p + s)[1..] == p[1..] + s && tok + [p[0]] + p[1..] == tok + p;
    }
  }

  // What the parser puts into the token for a printed character.
  function Token(c: Ucs4, expand: bool): Text
    requires expand ==> c < 0x11_0000
  {
    if c == QUOTE then [QUOTE] else Escaped(c, expand)
  }

  lemma QuotedPair(e: Ucs4, s: Input, tok: Text)
    ensures Quoted([BACKSLASH, e] + s, tok)
            == Quoted(s, tok + if e == QUOTE then [QUOTE] else [BACKSLASH, e])
  {
    assert ([BACKSLASH, e] + s)[2..] == s;
  }

  lemma QuotedUnicode(v: nat, s: Input, tok: Text)
    requires v < 0x1_0000
    ensures Quoted(UnicodeEscape(v) + s, tok) == Quoted(s, tok + UnicodeEscape(v))
  {
    hide Hex4;
    var h := Hex4(v);
    assert UnicodeEscape(v) + s == [BACKSLASH, LETTER_U] + (h + s);
    QuotedPair(LETTER_U, h + s, tok);
    QuotedPlain(h, s, tok + [BACKSLASH, LETTER_U]);
    assert tok + [BACKSLASH, LETTER_U] + h == tok + UnicodeEscape(v);
  }

  lemma QuotedChar(c: Ucs4, expand: bool, s: Input, tok: Text)
    requires expand ==> c < 0x11_0000
    ensures Quoted(Escaped(c, expand) + s, tok) == Quoted(s, tok + Token(c, expand))
  {
    hide UnicodeEscape, LeadOf, TrailOf;
    if c in {0x0D, 0x0A, 0x09, 0x0C, BACKSLASH, QUOTE} {
      QuotedPair(Escaped(c, expand)[1], s, tok);
    } else if c < 0x20 {
      QuotedUnicode(c, s, tok);
    } else if expand && c >= 0x1_0000 {
      SurrogateWords(c);
      var l, t := LeadOf(c), TrailOf(c);
      assert Escaped(c, expand) + s == UnicodeEscape(l) + (UnicodeEscape(t) + s);
      QuotedUnicode(l, UnicodeEscape(t) + s, tok);
      QuotedUnicode(t, s, tok + UnicodeEscape(l));
      assert tok + UnicodeEscape(l) + UnicodeEscape(t) == tok + Token(c, expand);
    } else {
      QuotedPlain([c], s, tok);
    }
  }

  function Tokens(t: Text, expand: bool): Text
    requires Printable(t, expand)
  {
    if t == [] then [] else Token(t[0], expand) + Tokens(t[1..], expand)
  }

  lemma {:induction false} QuotedText(t: Text, expand: bool, s: Input, tok: Text)
    requires Printable(t, expand)
    ensures Quoted(Expanded(t, expand) + s, tok) == Quoted(s, tok + Tokens(t, expand))
  {
    hide Quoted, Token, Escaped;
    if t == [] {
      assert [] + s == s && tok + [] == tok;
    } else {
      var rest := Expanded(t[1..], expand);
      assert Expanded(t, expand) + s == Escaped(t[0], expand) + (rest + s);
      QuotedChar(t[0], expand, rest + s, tok);
      QuotedText(t[1..], expand, s, tok + Token(t[0], expand));
      assert tok + Token(t[0], expand) + Tokens(t[1..], expand) == tok + Tokens(t, expand);
    }
  }

  lemma UnescapeUnicode(v: nat, s: Text, lead: Ucs4)
    requires v < 0x1_0000
    ensures var x := UnicodeEscape(v) + s;
            && |x| >= 6 && x[0] == BACKSLASH && x[1] == LETTER_U && FourHexDigits(x[2..])
            && HexWord(x[2..]) == v && x[6..] == s
  {
    hide HexDigit, HexValue;
    var x := UnicodeEscape(v) + s;
    assert x[2..] == Hex4(v) + s;
    HexRoundTrip(v, s);
  }

  lemma UnescapePair(c: Ucs4, s: Text)
    requires 0x1_0000 <= c < 0x11_0000
    ensures Unescape(UnicodeEscape(LeadOf(c)) + (UnicodeEscape(TrailOf(c)) + s), 0) == Prepend([c], Unescape(s, 0))
  {
    hide UnicodeEscape, LeadOf, TrailOf, Combined, HexWord;
    SurrogateWords(c);
    SurrogatesCombine(c);
    var l, t := LeadOf(c), TrailOf(c);
    assert Dumped(0) + [c] == [c];
    UnescapeUnicode(l, UnicodeEscape(t) + s, 0);
    UnescapeUnicode(t, s, l);
    PrependAdd([], [c], Unescape(s, 0));
    assert Unescape(UnicodeEscape(t) + s, l) == Prepend([c], Unescape(s, 0));
  }

  lemma UnescapeChar(c: Ucs4, expand: bool, s: Text)
    requires expand ==> c < 0x11_0000
    ensures Unescape(Token(c, expand) + s, 0) == Prepend([c], Unescape(s, 0))
  {
    hide UnicodeEscape, LeadOf, TrailOf, Combined, HexWord;
    var x := Token(c, expand) + s;
    assert Dumped(0) + [c] == [c];
    if c in {0x0D, 0x0A, 0x09, 0x0C, BACKSLASH} {
      assert x[0] == BACKSLASH && SimpleEscape(x[1]) == Some(c) && x[2..] == s;
    } else if c < 0x20 {
      UnescapeUnicode(c, s, 0);
    } else if expand && c >= 0x1_0000 {
      SurrogateWords(c);
      UnescapePair(c, s);
      assert x == UnicodeEscape(LeadOf(c)) + (UnicodeEscape(TrailOf(c)) + s);
    } else {
      assert x[1..] == s;
    }
  }

  lemma {:induction false} UnescapeTokens(t: Text, expand: bool)
    requires Printable(t, expand)
    ensures Unescape(Tokens(t, expand), 0) == Some(t)
  {
    hide Token;
    if t != [] {
      UnescapeChar(t[0], expand, Tokens(t[1..], expand));
      UnescapeTokens(t[1..], expand);
      assert [t[0]] + t[1..] == t;
    }
  }

  // A printed string, and whatever follows it.
  lemma StringParses(lib: Libc, t: Text, expand: bool, s: Input)
    requires Printable(t, expand)
    ensures Element(lib, [QUOTE] + (Expanded(t, expand) + ([QUOTE] + s))) == Terminal(JString(t), s)
  {
    var x := Expanded(t, expand) + ([QUOTE] + s);
    assert ([QUOTE] + x)[1..] == x;
    QuotedText(t, expand, [QUOTE] + s, []);
    UnescapeTokens(t, expand);
    assert [] + Tokens(t, expand) == Tokens(t, expand);
    assert ([QUOTE] + s)[1..] == s;
  }

  // --- Barewords and numbers ------------------------------------------------------------------------

  // What may follow a value: the end, white space or a delimiter.
  predicate EndsValue(s: Input)
  {
    s == [] || IsSpace(s[0]) || s[0] in {COMMA, COLON, RBRACKET, RBRACE}
  }

  lemma {:induction false} BarewordParses(p: Text, s: Input, tok: Text, v: Json)
    requires forall i :: 0 <= i < |p| ==> IsAlpha(p[i])
    requires EndsValue(s) && BarewordOf(tok + p) == Some(v)
    ensures Bareword(p + s, tok) == Terminal(v, s)
  {
    if p == [] {
      assert p + s == s && tok + p == tok;
    } else {
      assert tok + [p[0]] + p[1..] == tok + p && (p + s)[1..] == p[1..] + s;
      BarewordParses(p[1..], s, tok + [p[0]], v);
    }
  }

  lemma {:induction false} NumericParses(lib: Libc, p: Text, s: Input, tok: Text, v: Json)
    requires forall i :: 0 <= i < |p| ==> IsNumberChar(p[i])
    requires EndsValue(s) && NumberOf(lib, tok + p) == Number(v)
    ensures Numeric(lib, p + s, tok) == Terminal(v, s)
  {
    hide NumberOf, IsInteger, Terminal;
    if p == [] {
      assert p + s == s && tok + p == tok;
    } else {
      assert tok + [p[0]] + p[1..] == tok + p && (p + s)[1..] == p[1..] + s;
      NumericParses(lib, p[1..], s, tok + [p[0]], v);
    }
  }

  // The integers that come back: 64 bits, and the extremes only with a clean errno.
  predicate IntOk(lib: Libc, i: int)
  {
    LLONG_MIN <= i <= LLONG_MAX && (lib.staleErange ==> LLONG_MIN < i < LLONG_MAX)
  }

  lemma IntTextValue(lib: Libc, i: int)
    ensures IsInteger(IntText(i)) && IntegerValue(IntText(i)) == i
    ensures NumberOf(lib, IntText(i)) == if IntOk(lib, i) then Number(JInt(i)) else Overflow
    ensures var t := IntText(i); (t[0] == MINUS || IsDigit(t[0])) && forall k :: 0 <= k < |t| ==> IsNumberChar(t[k])
  {
    hide Digits, DecimalValue;
    var n := if i < 0 then -i else i;
    DigitsValue(n);
    if i < 0 {
      assert IntText(i)[1..] == Digits(n);
    }
  }

  lemma IntParses(lib: Libc, i: int, s: Input)
    requires IntOk(lib, i) && EndsValue(s)
    ensures Element(lib, IntText(i) + s) == Terminal(JInt(i), s)
  {
    hide IntText, NumberOf;
    IntTextValue(lib, i);
    var t := IntText(i);
    assert [t[0]] + t[1..] == t && (t + s)[1..] == t[1..] + s;
    NumericParses(lib, t[1..], s, [t[0]], JInt(i));
  }

  lemma WordParses(lib: Libc, t: Text, s: Input, v: Json)
    requires t in {U_NULL, U_TRUE, U_FALSE} && EndsValue(s) && BarewordOf(t) == Some(v)
    ensures Element(lib, t + s) == Terminal(v, s)
  {
    assert [t[0]] + t[1..] == t && (t + s)[1..] == t[1..] + s;
    BarewordParses(t[1..], s, [t[0]], v);
  }

  // --- Values -------------------------------------------------------------------------------------

  // No doubles, and integers that fit.
  predicate Exact(lib: Libc, j: Json)
  {
    match j
    case JInt(i) => IntOk(lib, i)
    case JDouble(_) => false
    case JArray(items) => forall i :: 0 <= i < |items| ==> Exact(lib, items[i])
    case JObject(members) => forall i :: 0 <= i < |members| ==> Exact(lib, members[i].value)
    case _ => true
  }

  /** The text printed for a value, followed by anything that may follow a value, parses to the value
      and stops where the printed text ends. */
  lemma {:induction false} PrintedParses(lib: Libc, j: Json, o: Options, double: real -> Text, indent: nat,
                                         s: Input)
    requires Exact(lib, j) && AllPrintable(j, o.expand) && EndsValue(s)
    ensures Element(lib, Print(j, o, double, indent) + s) == Terminal(j, s)
    decreases j, 1
  {
    match j {
      case JNull => WordParses(lib, U_NULL, s, j);
      case JBool(b) => WordParses(lib, if b then U_TRUE else U_FALSE, s, j);
      case JInt(i) => IntParses(lib, i, s);
      case JString(t) =>
        assert Print(j, o, double, indent) + s
            == [QUOTE] + (Expanded(t, o.expand) + ([QUOTE] + s));
        StringParses(lib, t, o.expand, s);
      case JArray(items) => ArrayParses(lib, items, o, double, indent, s);
      case JObject(members) => ObjectParses(lib, members, o, double, indent, s);
    }
  }

  lemma ArrayParses(lib: Libc, items: seq<Json>, o: Options, double: real -> Text, indent: nat, s: Input)
    requires EndsValue(s)
    requires forall i :: 0 <= i < |items| ==> Exact(lib, items[i]) && AllPrintable(items[i], o.expand)
    ensures Element(lib, Print(JArray(items), o, double, indent) + s) == Terminal(JArray(items), s)
    decreases items, 1
  {
    hide PrintItems, Items, Pad, Terminal;
    var close := Pad(2 * Outer(o, indent)) + ([RBRACKET] + s);
    var body := PrintItems(items, o, double, Inner(o, indent)) + close;
    assert Print(JArray(items), o, double, indent) + s == [LBRACKET] + (Newline(o) + body);
    assert ([LBRACKET] + (Newline(o) + body))[1..] == Newline(o) + body;
    SkipSpaceInside(lib, Newline(o), body, [], []);
    ItemsParse(lib, items, o, double, Inner(o, indent), [], Pad(2 * Outer(o, indent)), s);
    assert [] + items == items;
  }

  lemma ObjectParses(lib: Libc, members: seq<Member>, o: Options, double: real -> Text, indent: nat, s: Input)
    requires EndsValue(s)
    requires forall i :: 0 <= i < |members| ==>
               && Exact(lib, members[i].value) && Printable(members[i].key, o.expand)
               && AllPrintable(members[i].value, o.expand)
    ensures Element(lib, Print(JObject(members), o, double, indent) + s) == Terminal(JObject(members), s)
    decreases members, 1
  {
    hide PrintMembers, Members, Pad, Terminal, Printable;
    var close := Pad(2 * Outer(o, indent)) + ([RBRACE] + s);
    var body := PrintMembers(members, o, double, Inner(o, indent)) + close;
    assert Print(JObject(members), o, double, indent) + s == [LBRACE] + (Newline(o) + body);
    assert ([LBRACE] + (Newline(o) + body))[1..] == Newline(o) + body;
    SkipSpaceInside(lib, Newline(o), body, [], []);
    MembersParse(lib, members, o, double, Inner(o, indent), [], Pad(2 * Outer(o, indent)), s);
    assert [] + members == members;
  }

  // One item or member, its separator and what follows it.
  lemma ItemsStep(lib: Libc, s: Input, acc: seq<Json>)
    requires Element(lib, s).Parsed? && Element(lib, s).any
    ensures var e := Element(lib, s);
            && (e.stop == COMMA ==> Items(lib, s, acc) == Items(lib, e.rest, acc + [e.value]))
            && (e.stop == RBRACKET ==> Items(lib, s, acc) == Terminal(JArray(acc + [e.value]), e.rest))
  {
    hide Element, Terminal;
  }

  lemma MembersStep(lib: Libc, s: Input, acc: seq<Member>)
    requires var k := Element(lib, s);
             && k.Parsed? && k.any && k.stop == COLON && k.value.JString?
             && Element(lib, k.rest).Parsed? && Element(lib, k.rest).any
    ensures var k := Element(lib, s);
            var e := Element(lib, k.rest);
            var m := Member(k.value.text, e.value);
            && (e.stop == COMMA ==> Members(lib, s, acc) == Members(lib, e.rest, acc + [m]))
            && (e.stop == RBRACE ==> Members(lib, s, acc) == Terminal(JObject(acc + [m]), e.rest))
  {
    hide Element, Terminal;
  }

  function After(last: bool, o: Options, rest: Input): Input
  {
    Separator(last) + (Newline(o) + rest)
  }

  lemma RegroupAll(p: seq<int>, v: seq<int>, c: seq<int>, n: seq<int>, tail: seq<int>, close: seq<int>)
    ensures (p + (v + (c + (n + tail)))) + close == p + (v + (c + (n + (tail + close))))
  {
    Regroup(p, v, c, n + tail, close);
    Assoc(n, tail, close);
  }

  lemma PrintItemsStep(items: seq<Json>, o: Options, double: real -> Text, indent: nat, close: Input)
    requires items != []
    requires forall i :: 0 <= i < |items| ==> AllPrintable(items[i], o.expand)
    ensures var rest := PrintItems(items[1..], o, double, indent) + close;
            && PrintItems(items, o, double, indent) + close
               == Pad(2 * indent) + (Print(items[0], o, double, indent) + After(|items| == 1, o, rest))
            && (|items| == 1 ==> rest == close)
  {
    hide Print, AllPrintable, Pad, Separator, Newline;
    var tail := PrintItems(items[1..], o, double, indent);
    var p, v, c, n := Pad(2 * indent), Print(items[0], o, double, indent), Separator(|items| == 1), Newline(o);
    RegroupAll(p, v, c, n, tail, close);
    if |items| == 1 {
      assert [] + close == close;
    }
  }

  lemma PrintMembersStep(members: seq<Member>, o: Options, double: real -> Text, indent: nat, close: Input)
    requires members != []
    requires forall i :: 0 <= i < |members| ==>
               Printable(members[i].key, o.expand) && AllPrintable(members[i].value, o.expand)
    ensures var rest := PrintMembers(members[1..], o, double, indent) + close;
            && PrintMembers(members, o, double, indent) + close
               == Pad(2 * indent) + (Name(members[0].key, o)
                  + (Print(members[0].value, o, double, indent) + After(|members| == 1, o, rest)))
            && (|members| == 1 ==> rest == close)
  {
    hide Print, AllPrintable, Pad, Name, Printable, Separator, Newline;
    var tail := PrintMembers(members[1..], o, double, indent);
    var p, k, v, c, n := Pad(2 * indent), Name(members[0].key, o),
      Print(members[0].value, o, double, indent), Separator(|members| == 1), Newline(o);
    RegroupAll(k, v, c, n, tail, close);
    Assoc(p, k + (v + (c + (n + tail))), close);
    if |members| == 1 {
      assert [] + close == close;
    }
  }

  lemma {:induction false} ItemsParse(lib: Libc, items: seq<Json>, o: Options, double: real -> Text,
                                      indent: nat, acc: seq<Json>, w: Text, s: Input)
    requires EndsValue(s) && AllSpace(w)
    requires forall i :: 0 <= i < |items| ==> Exact(lib, items[i]) && AllPrintable(items[i], o.expand)
    requires items == [] ==> acc == []
    ensures Items(lib, PrintItems(items, o, double, indent) + (w + ([RBRACKET] + s)), acc)
            == Terminal(JArray(acc + items), s)
    decreases items, 0
  {
    hide Print, Element, Exact, AllPrintable, Pad, EndsValue, AllSpace, Terminal, After, Newline;
    var close := w + ([RBRACKET] + s);
    if items == [] {
      assert [] + close == close && acc + items == acc;
      CloserParses(lib, w, RBRACKET, s);
    } else {
      ItemParses(lib, items, o, double, indent, acc, w, s);
      assert acc + [items[0]] + items[1..] == acc + items;
      if |items| == 1 {
        assert acc + [items[0]] == acc + items;
      } else {
        ItemsParse(lib, items[1..], o, double, indent, acc + [items[0]], w, s);
      }
    }
  }

  lemma {:induction false} ItemParses(lib: Libc, items: seq<Json>, o: Options, double: real -> Text,
                                      indent: nat, acc: seq<Json>, w: Text, s: Input)
    requires AllSpace(w) && items != []
    requires forall i :: 0 <= i < |items| ==> Exact(lib, items[i]) && AllPrintable(items[i], o.expand)
    ensures var close := w + ([RBRACKET] + s);
            Items(lib, PrintItems(items, o, double, indent) + close, acc)
            == if |items| == 1 then Terminal(JArray(acc + [items[0]]), s)
               else Items(lib, PrintItems(items[1..], o, double, indent) + close, acc + [items[0]])
    decreases items[0], 2
  {
    hide Print, PrintItems, Items, Element, Exact, AllPrintable, Pad, EndsValue, AllSpace, Terminal;
    var close := w + ([RBRACKET] + s);
    var last := |items| == 1;
    var rest := PrintItems(items[1..], o, double, indent) + close;
    var after := After(last, o, rest);
    var value := Print(items[0], o, double, indent) + after;
    PrintItemsStep(items, o, double, indent, close);
    PadIsSpace(2 * indent);
    SkipSpace(lib, Pad(2 * indent), value, JNull);
    AfterValue(lib, last, o, rest, w, RBRACKET, s, items[0]);
    PrintedParses(lib, items[0], o, double, indent, after);
    ItemsStep(lib, Pad(2 * indent) + value, acc);
    NewlineIsSpace(o);
    SkipSpaceInside(lib, Newline(o), rest, acc + [items[0]], []);
  }

  lemma {:induction false} MembersParse(lib: Libc, members: seq<Member>, o: Options, double: real -> Text,
                                        indent: nat, acc: seq<Member>, w: Text, s: Input)
    requires EndsValue(s) && AllSpace(w)
    requires forall i :: 0 <= i < |members| ==>
               && Exact(lib, members[i].value) && Printable(members[i].key, o.expand)
               && AllPrintable(members[i].value, o.expand)
    requires members == [] ==> acc == []
    ensures Members(lib, PrintMembers(members, o, double, indent) + (w + ([RBRACE] + s)), acc)
            == Terminal(JObject(acc + members), s)
    decreases members, 0
  {
    hide Print, Element, Exact, AllPrintable, Pad, Name, Printable, EndsValue, AllSpace, Terminal, After, Newline;
    var close := w + ([RBRACE] + s);
    if members == [] {
      assert [] + close == close && acc + members == acc;
      CloserParses(lib, w, RBRACE, s);
    } else {
      MemberParses(lib, members, o, double, indent, acc, w, s);
      assert acc + [members[0]] + members[1..] == acc + members;
      if |members| == 1 {
        assert acc + [members[0]] == acc + members;
      } else {
        MembersParse(lib, members[1..], o, double, indent, acc + [members[0]], w, s);
      }
    }
  }

  lemma {:induction false} MemberParses(lib: Libc, members: seq<Member>, o: Options, double: real -> Text,
                                        indent: nat, acc: seq<Member>, w: Text, s: Input)
    requires AllSpace(w) && members != []
    requires forall i :: 0 <= i < |members| ==>
               && Exact(lib, members[i].value) && Printable(members[i].key, o.expand)
               && AllPrintable(members[i].value, o.expand)
    ensures var close := w + ([RBRACE] + s);
            Members(lib, PrintMembers(members, o, double, indent) + close, acc)
            == if |members| == 1 then Terminal(JObject(acc + [members[0]]), s)
               else Members(lib, PrintMembers(members[1..], o, double, indent) + close, acc + [members[0]])
    decreases members[0], 2
  {
    hide Print, PrintMembers, Members, Element, Exact, AllPrintable, Pad, Name, Printable, EndsValue, AllSpace,
      Terminal;
    var close := w + ([RBRACE] + s);
    var last := |members| == 1;
    var m := members[0];
    var rest := PrintMembers(members[1..], o, double, indent) + close;
    var after := After(last, o, rest);
    var value := Print(m.value, o, double, indent) + after;
    PrintMembersStep(members, o, double, indent, close);
    PadIsSpace(2 * indent);
    SkipSpace(lib, Pad(2 * indent), Name(m.key, o) + value, JNull);
    NameParses(lib, m.key, o, value);
    AfterValue(lib, last, o, rest, w, RBRACE, s, m.value);
    PrintedParses(lib, m.value, o, double, indent, after);
    MembersStep(lib, Pad(2 * indent) + (Name(m.key, o) + value), acc);
    NewlineIsSpace(o);
    SkipSpaceInside(lib, Newline(o), rest, [], acc + [m]);
  }

  lemma NewlineIsSpace(o: Options)
    ensures AllSpace(Newline(o))
  {
  }

  lemma PadIsSpace(n: nat)
    ensures AllSpace(Pad(n))
  {
  }

  // A closing bracket alone is no element.
  lemma CloserParses(lib: Libc, w: Text, c: Ucs4, s: Input)
    requires AllSpace(w) && c in {RBRACKET, RBRACE}
    ensures Element(lib, w + ([c] + s)) == Parsed(JNull, c, false, s)
  {
    SkipSpace(lib, w, [c] + s, JNull);
    assert ([c] + s)[1..] == s;
  }

  // What stops a value inside an array or object: a comma, or the closing bracket.
  lemma AfterValue(lib: Libc, last: bool, o: Options, rest: Input, w: Text, c: Ucs4, s: Input, v: Json)
    requires AllSpace(w) && c in {RBRACKET, RBRACE} && (last ==> rest == w + ([c] + s))
    ensures EndsValue(After(last, o, rest))
    ensures Terminal(v, After(last, o, rest))
            == if last then Parsed(v, c, true, s) else Parsed(v, COMMA, true, Newline(o) + rest)
  {
    hide Terminal;
    if last {
      assert After(last, o, rest) == Newline(o) + rest;
      SkipSpace(lib, Newline(o), rest, v);
      SkipSpace(lib, w, [c] + s, v);
      StopsAt(v, c, s);
      assert w == [] ==> rest == [c] + s;
    } else {
      StopsAt(v, COMMA, Newline(o) + rest);
    }
  }

  lemma StopsAt(v: Json, c: Ucs4, s: Input)
    requires !IsSpace(c)
    ensures Terminal(v, [c] + s) == Parsed(v, c, true, s)
  {
    assert ([c] + s)[1..] == s;
  }

  // A name and its colon, and the value after the optional blank.
  lemma NameParses(lib: Libc, t: Text, o: Options, value: Input)
    requires Printable(t, o.expand)
    ensures var e := Element(lib, Name(t, o) + value);
            && e.Parsed? && e.value == JString(t) && e.stop == COLON && e.any
            && Element(lib, e.rest) == Element(lib, value)
  {
    hide Printable, Expanded;
    var blank: Text := if o.oneLine then [] else [BLANK];
    var s := [COLON] + (blank + value);
    assert Name(t, o) + value == [QUOTE] + (Expanded(t, o.expand) + ([QUOTE] + s));
    StringParses(lib, t, o.expand, s);
    assert s[1..] == blank + value;
    SkipSpace(lib, blank, value, JNull);
  }

  // --- Whole texts ----------------------------------------------------------------------------------

  function EncodeText(t: Text): seq<byte>
  {
    if t == [] then [] else Encode(t[0]) + EncodeText(t[1..])
  }

  lemma {:induction false} TextRoundTrip(t: Text)
    ensures DecodeText(EncodeText(t)) == t
  {
    if t != [] {
      var rest := EncodeText(t[1..]);
      DecodeEncode(t[0], rest);
      TextRoundTrip(t[1..]);
      assert (Encode(t[0]) + rest)[|Encode(t[0])|..] == rest;
      assert [t[0]] + t[1..] == t;
    }
  }

  /** Parsing the bytes printed for a value gives back the same value, for every layout. */
  lemma ParsePrinted(lib: Libc, j: Json, o: Options, double: real -> Text)
    requires Exact(lib, j) && AllPrintable(j, o.expand)
    ensures Parse(lib, EncodeText(Print(j, o, double, 0))) == Ok(j)
  {
    hide Print, Element;
    var t := Print(j, o, double, 0);
    TextRoundTrip(t);
    PrintedParses(lib, j, o, double, 0, []);
    assert t + [] == t;
  }

  /** An integer comes back if and only if it fits 64 bits and, at the extremes, errno is clean. */
  lemma IntegerComesBack(lib: Libc, i: int, o: Options, double: real -> Text)
    ensures Parse(lib, EncodeText(Print(JInt(i), o, double, 0))) == Ok(JInt(i)) <==> IntOk(lib, i)
  {
    hide IntText, Parse, IntOk;
    if IntOk(lib, i) {
      ParsePrinted(lib, JInt(i), o, double);
    } else {
      BigIntegerFails(lib, i);
    }
  }

  lemma BigIntegerFails(lib: Libc, i: int)
    requires !IntOk(lib, i)
    ensures Parse(lib, EncodeText(IntText(i))) == Err(NumberOverflow)
  {
    hide IntText, NumberOf, EncodeText, DecodeText;
    var t := IntText(i);
    TextRoundTrip(t);
    IntTextValue(lib, i);
    assert [t[0]] + t[1..] == t;
    OverflowFails(lib, t[1..], [t[0]]);
  }

  lemma {:induction false} OverflowFails(lib: Libc, p: Text, tok: Text)
    requires forall i :: 0 <= i < |p| ==> IsNumberChar(p[i])
    requires NumberOf(lib, tok + p) == Overflow
    ensures Numeric(lib, p, tok) == Failed(NumberOverflow)
  {
    if p == [] {
      assert tok + p == tok;
    } else {
      assert tok + [p[0]] + p[1..] == tok + p;
      OverflowFails(lib, p[1..], tok + [p[0]]);
    }
  }
}
