/**
 The two layouts of the JSON printer: strings hold nothing that has to be escaped, and the indented text
 is the one-line text broken into lines and indented by its brackets (Common/json.c:845-971; section 7 of
 RFC 8259).
 */
module JsonLayout {
  import opened Bytes
  import opened Utf8
  import opened JsonText
  import opened JsonPrint
  import J = JsonParse
  import R = JsonRoundTrip

  // --- Strings ----------------------------------------------------------------------------------

  // Only printable characters, and with expansion none beyond U+FFFF.
  predicate Safe(t: Text, expand: bool)
  {
    forall i :: 0 <= i < |t| ==> t[i] >= 0x20 && (expand ==> t[i] < 0x1_0000)
  }

  lemma EscapedSafe(c: Ucs4, expand: bool)
    requires expand ==> c < 0x11_0000
    ensures Safe(Escaped(c, expand), expand)
  {
    hide LeadOf, TrailOf;
    if expand && c >= 0x1_0000 {
      SurrogateWords(c);
    }
  }

  /** A printed string holds no control characters, and with surrogates expanded no character beyond U+FFFF. */
  lemma {:induction false} ExpandedSafe(t: Text, expand: bool)
    requires Printable(t, expand)
    ensures Safe(Expanded(t, expand), expand)
  {
    hide Escaped;
    if t != [] {
      EscapedSafe(t[0], expand);
      ExpandedSafe(t[1..], expand);
    }
  }

  // --- Lines and indentation ----------------------------------------------------------------------

  // Outside strings, inside one, or behind a backslash inside one.
  datatype Place = Outside | Inside | Behind

  // In a line, at the beginning of one behind an opening bracket, or behind a comma.
  datatype Line = Within | Opened | Next

  /** Text in one line, laid out: a line ends behind an opening bracket, behind a comma and in front of a closing
      bracket, unless the brackets are empty; it begins with two blanks for each bracket that is open; and a
      blank follows a colon. */
  function LaidOut(s: Text, st: Place, depth: nat, line: Line): Text
    decreases |s|
  {
    if s == [] then []
    else if st == Behind then [s[0]] + LaidOut(s[1..], Inside, depth, Within)
    else if st == Inside then
      [s[0]] + LaidOut(s[1..], if s[0] == QUOTE then Outside else if s[0] == BACKSLASH then Behind else Inside, depth,
                       Within)
    else if s[0] in {RBRACKET, RBRACE} then
      var d: nat := if depth == 0 then 0 else depth - 1;
      (if line == Opened then [] else [NEWLINE]) + (Pad(2 * d) + ([s[0]] + LaidOut(s[1..], Outside, d, Within)))
    else
      (if line == Within then [] else Pad(2 * depth))
      + if s[0] in {LBRACKET, LBRACE} then [s[0], NEWLINE] + LaidOut(s[1..], Outside, depth + 1, Opened)
        else if s[0] == COMMA then [COMMA, NEWLINE] + LaidOut(s[1..], Outside, depth, Next)
        else if s[0] == COLON then [COLON, BLANK] + LaidOut(s[1..], Outside, depth, Within)
        else [s[0]] + LaidOut(s[1..], if s[0] == QUOTE then Inside else Outside, depth, Within)
  }

  // The indentation at the beginning of a line.
  function Lead(depth: nat, line: Line): Text { if line == Within then [] else Pad(2 * depth) }

  // Characters without a meaning for the layout.
  predicate Simple(p: Text)
  {
    forall i :: 0 <= i < |p| ==> p[i] !in {QUOTE, COMMA, COLON, LBRACKET, RBRACKET, LBRACE, RBRACE}
  }

  lemma {:induction false} SimpleLaid(p: Text, s: Text, depth: nat)
    requires Simple(p)
    ensures LaidOut(p + s, Outside, depth, Within) == p + LaidOut(s, Outside, depth, Within)
  {
    if p == [] {
      assert p + s == s;
    } else {
      SimpleLaid(p[1..], s, depth);
      assert (p + s)[1..] == p[1..] + s;
      var rest := LaidOut(s, Outside, depth, Within);
      assert [] + ([p[0]] + (p[1..] + rest)) == p + rest;
    }
  }

  // A word or number at the beginning of a line or within one.
  lemma WordLaid(p: Text, s: Text, depth: nat, line: Line)
    requires Simple(p) && p != []
    ensures LaidOut(p + s, Outside, depth, line) == Lead(depth, line) + (p + LaidOut(s, Outside, depth, Within))
  {
    hide Pad;
    SimpleLaid(p[1..], s, depth);
    assert (p + s)[1..] == p[1..] + s && [p[0]] + p[1..] == p;
    Assoc([p[0]], p[1..], LaidOut(s, Outside, depth, Within));
  }

  // Characters that do not end a string.
  lemma {:induction false} PlainInside(p: Text, s: Text, depth: nat)
    requires forall i :: 0 <= i < |p| ==> p[i] != QUOTE && p[i] != BACKSLASH
    ensures LaidOut(p + s, Inside, depth, Within) == p + LaidOut(s, Inside, depth, Within)
  {
    if p == [] {
      assert p + s == s;
    } else {
      PlainInside(p[1..], s, depth);
      assert (p + s)[1..] == p[1..] + s;
      var rest := LaidOut(s, Inside, depth, Within);
      assert [p[0]] + (p[1..] + rest) == p + rest;
    }
  }

  lemma PairInside(c: Ucs4, s: Text, depth: nat)
    ensures LaidOut([BACKSLASH, c] + s, Inside, depth, Within) == [BACKSLASH, c] + LaidOut(s, Inside, depth, Within)
  {
    var t := [BACKSLASH, c] + s;
    assert t[1..] == [c] + s && t[1..][1..] == s;
    assert LaidOut(t[1..], Behind, depth, Within) == [c] + LaidOut(s, Inside, depth, Within);
  }

  lemma UnicodeInside(v: nat, s: Text, depth: nat)
    requires v < 0x1_0000
    ensures LaidOut(UnicodeEscape(v) + s, Inside, depth, Within) == UnicodeEscape(v) + LaidOut(s, Inside, depth, Within)
  {
    hide Hex4;
    var h := Hex4(v);
    assert UnicodeEscape(v) + s == [BACKSLASH, LETTER_U] + (h + s);
    PairInside(LETTER_U, h + s, depth);
    PlainInside(h, s, depth);
    Assoc([BACKSLASH, LETTER_U], h, LaidOut(s, Inside, depth, Within));
  }

  lemma CharInside(c: Ucs4, expand: bool, s: Text, depth: nat)
    requires expand ==> c < 0x11_0000
    ensures LaidOut(Escaped(c, expand) + s, Inside, depth, Within)
            == Escaped(c, expand) + LaidOut(s, Inside, depth, Within)
  {
    hide UnicodeEscape, LeadOf, TrailOf, LaidOut;
    if c in {0x0D, 0x0A, 0x09, 0x0C, BACKSLASH, QUOTE} {
      PairInside(Escaped(c, expand)[1], s, depth);
    } else if c < 0x20 {
      UnicodeInside(c, s, depth);
    } else if expand && c >= 0x1_0000 {
      SurrogateWords(c);
      var l, t := UnicodeEscape(LeadOf(c)), UnicodeEscape(TrailOf(c));
      assert (l + t) + s == l + (t + s);
      UnicodeInside(LeadOf(c), t + s, depth);
      UnicodeInside(TrailOf(c), s, depth);
      Assoc(l, t, LaidOut(s, Inside, depth, Within));
    } else {
      PlainInside([c], s, depth);
    }
  }

  lemma {:induction false} TextInside(t: Text, expand: bool, s: Text, depth: nat)
    requires Printable(t, expand)
    ensures LaidOut(Expanded(t, expand) + s, Inside, depth, Within)
            == Expanded(t, expand) + LaidOut(s, Inside, depth, Within)
  {
    hide Escaped, LaidOut;
    if t == [] {
      assert [] + s == s && [] + LaidOut(s, Inside, depth, Within) == LaidOut(s, Inside, depth, Within);
    } else {
      var e, x := Escaped(t[0], expand), Expanded(t[1..], expand);
      assert (e + x) + s == e + (x + s);
      CharInside(t[0], expand, x + s, depth);
      TextInside(t[1..], expand, s, depth);
      Assoc(e, x, LaidOut(s, Inside, depth, Within));
    }
  }

  lemma StringLaid(t: Text, expand: bool, s: Text, depth: nat, line: Line)
    requires Printable(t, expand)
    ensures var x := [QUOTE] + (Expanded(t, expand) + [QUOTE]);
            LaidOut(x + s, Outside, depth, line) == Lead(depth, line) + (x + LaidOut(s, Outside, depth, Within))
  {
    hide Expanded, Pad;
    var e := Expanded(t, expand);
    var x := [QUOTE] + (e + [QUOTE]);
    assert (x + s)[1..] == e + ([QUOTE] + s) && ([QUOTE] + s)[1..] == s;
    TextInside(t, expand, [QUOTE] + s, depth);
    var rest := LaidOut(s, Outside, depth, Within);
    assert LaidOut([QUOTE] + s, Inside, depth, Within) == [QUOTE] + rest;
    assert [QUOTE] + (e + ([QUOTE] + rest)) == x + rest;
  }

  // --- Values -------------------------------------------------------------------------------------

  lemma IntSimple(i: int)
    ensures Simple(IntText(i))
  {
    hide Digits;
  }

  lemma CloseLaid(c: Ucs4, s: Text, d: nat, line: Line)
    requires c in {RBRACKET, RBRACE}
    ensures LaidOut([c] + s, Outside, d + 1, line)
            == (if line == Opened then [] else [NEWLINE]) + (Pad(2 * d) + ([c] + LaidOut(s, Outside, d, Within)))
  {
    assert ([c] + s)[1..] == s;
  }

  lemma OpenLaid(c: Ucs4, s: Text, d: nat, line: Line)
    requires c in {LBRACKET, LBRACE}
    ensures LaidOut([c] + s, Outside, d, line) == Lead(d, line) + ([c, NEWLINE] + LaidOut(s, Outside, d + 1, Opened))
  {
    assert ([c] + s)[1..] == s;
  }

  lemma CommaLaid(s: Text, d: nat)
    ensures LaidOut([COMMA] + s, Outside, d, Within) == [COMMA, NEWLINE] + LaidOut(s, Outside, d, Next)
  {
    assert ([COMMA] + s)[1..] == s;
    var t := [COMMA, NEWLINE] + LaidOut(s, Outside, d, Next);
    assert [] + t == t;
  }

  lemma ColonLaid(s: Text, d: nat)
    ensures LaidOut([COLON] + s, Outside, d, Within) == [COLON, BLANK] + LaidOut(s, Outside, d, Within)
  {
    assert ([COLON] + s)[1..] == s;
    var t := [COLON, BLANK] + LaidOut(s, Outside, d, Within);
    assert [] + t == t;
  }

  lemma NoPad()
    ensures Pad(0) == []
  {
  }

  lemma {:induction false} ValueLaid(lib: J.Libc, j: Json, expand: bool, double: real -> Text, d: nat, s: Text,
                                     line: Line)
    requires R.Exact(lib, j) && AllPrintable(j, expand)
    ensures LaidOut(Print(j, Options(expand, true), double, 0) + s, Outside, d, line)
            == Lead(d, line) + (Print(j, Options(expand, false), double, d) + LaidOut(s, Outside, d, Within))
    decreases j, 1
  {
    hide LaidOut, Lead, PrintItems, PrintMembers, Expanded, Pad, IntText;
    match j {
      case JInt(i) =>
        IntSimple(i);
        WordLaid(IntText(i), s, d, line);
      case JString(t) => StringLaid(t, expand, s, d, line);
      case JArray(items) => ArrayLaid(lib, items, expand, double, d, s, line);
      case JObject(members) => ObjectLaid(lib, members, expand, double, d, s, line);
      case JNull => WordLaid(U_NULL, s, d, line);
      case JBool(b) => WordLaid(if b then U_TRUE else U_FALSE, s, d, line);
    }
  }

  lemma ArrayLaid(lib: J.Libc, items: seq<Json>, expand: bool, double: real -> Text, d: nat, s: Text, line: Line)
    requires forall i :: 0 <= i < |items| ==> R.Exact(lib, items[i]) && AllPrintable(items[i], expand)
    ensures LaidOut(Print(JArray(items), Options(expand, true), double, 0) + s, Outside, d, line)
            == Lead(d, line)
               + (Print(JArray(items), Options(expand, false), double, d) + LaidOut(s, Outside, d, Within))
    decreases items, 1
  {
    hide LaidOut, Lead, PrintItems, Pad;
    NoPad();
    var body := PrintItems(items, Options(expand, true), double, 0);
    assert Print(JArray(items), Options(expand, true), double, 0) + s == [LBRACKET] + (body + ([RBRACKET] + s));
    OpenLaid(LBRACKET, body + ([RBRACKET] + s), d, line);
    ItemsLaid(lib, items, expand, double, d, s, Opened);
    var lines, rest := PrintItems(items, Options(expand, false), double, d + 1), LaidOut(s, Outside, d, Within);
    assert [LBRACKET, NEWLINE] + (lines + (Pad(2 * d) + ([RBRACKET] + rest)))
        == ([LBRACKET] + ([NEWLINE] + (lines + (Pad(2 * d) + [RBRACKET])))) + rest;
  }

  lemma ObjectLaid(lib: J.Libc, members: seq<Member>, expand: bool, double: real -> Text, d: nat, s: Text, line: Line)
    requires forall i :: 0 <= i < |members| ==>
               && R.Exact(lib, members[i].value) && Printable(members[i].key, expand)
               && AllPrintable(members[i].value, expand)
    ensures LaidOut(Print(JObject(members), Options(expand, true), double, 0) + s, Outside, d, line)
            == Lead(d, line)
               + (Print(JObject(members), Options(expand, false), double, d) + LaidOut(s, Outside, d, Within))
    decreases members, 1
  {
    hide LaidOut, Lead, PrintMembers, Pad, Printable;
    NoPad();
    var body := PrintMembers(members, Options(expand, true), double, 0);
    assert Print(JObject(members), Options(expand, true), double, 0) + s == [LBRACE] + (body + ([RBRACE] + s));
    OpenLaid(LBRACE, body + ([RBRACE] + s), d, line);
    MembersLaid(lib, members, expand, double, d, s, Opened);
    var lines, rest := PrintMembers(members, Options(expand, false), double, d + 1), LaidOut(s, Outside, d, Within);
    assert [LBRACE, NEWLINE] + (lines + (Pad(2 * d) + ([RBRACE] + rest)))
        == ([LBRACE] + ([NEWLINE] + (lines + (Pad(2 * d) + [RBRACE])))) + rest;
  }

  // What follows an item or member: the end of its line, and what comes on the next one.
  lemma RestLaid(last: bool, more: Text, lines: Text, close: Ucs4, s: Text, d: nat)
    requires close in {RBRACKET, RBRACE}
    requires last ==> more == [] == lines
    requires !last ==> LaidOut(more + ([close] + s), Outside, d + 1, Next)
                       == lines + (Pad(2 * d) + ([close] + LaidOut(s, Outside, d, Within)))
    ensures LaidOut((Separator(last) + more) + ([close] + s), Outside, d + 1, Within)
            == (Separator(last) + ([NEWLINE] + lines)) + (Pad(2 * d) + ([close] + LaidOut(s, Outside, d, Within)))
  {
    hide LaidOut, Pad;
    var end := Pad(2 * d) + ([close] + LaidOut(s, Outside, d, Within));
    if last {
      assert (Separator(last) + more) + ([close] + s) == [close] + s;
      CloseLaid(close, s, d, Within);
      assert [] + ([NEWLINE] + []) == [NEWLINE];
    } else {
      assert (Separator(last) + more) + ([close] + s) == [COMMA] + (more + ([close] + s));
      CommaLaid(more + ([close] + s), d + 1);
      assert [COMMA, NEWLINE] + (lines + end) == ([COMMA] + ([NEWLINE] + lines)) + end;
    }
  }

  lemma {:induction false} ItemsLaid(lib: J.Libc, items: seq<Json>, expand: bool, double: real -> Text, d: nat, s: Text,
                                     line: Line)
    requires forall i :: 0 <= i < |items| ==> R.Exact(lib, items[i]) && AllPrintable(items[i], expand)
    requires line == (if items == [] then Opened else line) && line != Within
    ensures LaidOut(PrintItems(items, Options(expand, true), double, 0) + ([RBRACKET] + s), Outside, d + 1, line)
            == PrintItems(items, Options(expand, false), double, d + 1)
               + (Pad(2 * d) + ([RBRACKET] + LaidOut(s, Outside, d, Within)))
    decreases items, 0
  {
    hide LaidOut, Print, Pad, Separator, R.Exact, AllPrintable;
    var close, end := [RBRACKET] + s, Pad(2 * d) + ([RBRACKET] + LaidOut(s, Outside, d, Within));
    if items == [] {
      assert [] + close == close && [] + end == end;
      CloseLaid(RBRACKET, s, d, line);
    } else {
      NoPad();
      var last := |items| == 1;
      var v := Print(items[0], Options(expand, true), double, 0);
      var more := PrintItems(items[1..], Options(expand, true), double, 0);
      var w := Print(items[0], Options(expand, false), double, d + 1);
      var lines := PrintItems(items[1..], Options(expand, false), double, d + 1);
      var tail := Separator(last) + more;
      assert PrintItems(items, Options(expand, true), double, 0) + close == v + (tail + close) by {
        assert [] + (v + (Separator(last) + ([] + more))) == v + tail;
      }
      ValueLaid(lib, items[0], expand, double, d + 1, tail + close, line);
      if !last {
        ItemsLaid(lib, items[1..], expand, double, d, s, Next);
      }
      RestLaid(last, more, lines, RBRACKET, s, d);
      assert Pad(2 * (d + 1)) + (w + ((Separator(last) + ([NEWLINE] + lines)) + end))
          == (Pad(2 * (d + 1)) + (w + (Separator(last) + ([NEWLINE] + lines)))) + end;
    }
  }

  lemma {:induction false} MembersLaid(lib: J.Libc, members: seq<Member>, expand: bool, double: real -> Text, d: nat,
                                       s: Text, line: Line)
    requires forall i :: 0 <= i < |members| ==>
               && R.Exact(lib, members[i].value) && Printable(members[i].key, expand)
               && AllPrintable(members[i].value, expand)
    requires line == (if members == [] then Opened else line) && line != Within
    ensures LaidOut(PrintMembers(members, Options(expand, true), double, 0) + ([RBRACE] + s), Outside, d + 1, line)
            == PrintMembers(members, Options(expand, false), double, d + 1)
               + (Pad(2 * d) + ([RBRACE] + LaidOut(s, Outside, d, Within)))
    decreases members, 0
  {
    hide LaidOut, Print, PrintMembers, Pad, Separator, R.Exact, AllPrintable, Printable, Name;
    var close, end := [RBRACE] + s, Pad(2 * d) + ([RBRACE] + LaidOut(s, Outside, d, Within));
    if members == [] {
      NoMembers(expand, double, d + 1);
      assert [] + close == close && [] + end == end;
      CloseLaid(RBRACE, s, d, line);
    } else {
      NoPad();
      var last, m := |members| == 1, members[0];
      var v := Print(m.value, Options(expand, true), double, 0);
      var more := PrintMembers(members[1..], Options(expand, true), double, 0);
      var w := Print(m.value, Options(expand, false), double, d + 1);
      var lines := PrintMembers(members[1..], Options(expand, false), double, d + 1);
      var tail := Separator(last) + more;
      var n1, n2 := Name(m.key, Options(expand, true)), Name(m.key, Options(expand, false));
      OneLineMembers(members, expand, double, close);
      NameLaid(m.key, expand, v + (tail + close), d + 1, line);
      ValueLaid(lib, m.value, expand, double, d + 1, tail + close, Within);
      WithinLead(d + 1, w + LaidOut(tail + close, Outside, d + 1, Within));
      if last {
        NoMembers(expand, double, d + 1);
      } else {
        MembersLaid(lib, members[1..], expand, double, d, s, Next);
      }
      RestLaid(last, more, lines, RBRACE, s, d);
      Regroup(Pad(2 * (d + 1)), n2, w, Separator(last) + ([NEWLINE] + lines), end);
      IndentedMembers(members, expand, double, d + 1);
    }
  }

  lemma OneLineMembers(members: seq<Member>, expand: bool, double: real -> Text, close: Text)
    requires members != []
    requires forall i :: 0 <= i < |members| ==>
               Printable(members[i].key, expand) && AllPrintable(members[i].value, expand)
    ensures var o := Options(expand, true);
            PrintMembers(members, o, double, 0) + close
            == Name(members[0].key, o)
               + (Print(members[0].value, o, double, 0)
                  + ((Separator(|members| == 1) + PrintMembers(members[1..], o, double, 0)) + close))
  {
    hide Print, Name, Pad, Separator, AllPrintable, Printable;
    NoPad();
    var o := Options(expand, true);
    var n, v := Name(members[0].key, o), Print(members[0].value, o, double, 0);
    var c, more := Separator(|members| == 1), PrintMembers(members[1..], o, double, 0);
    assert [] + more == more && [] + (n + (v + (c + more))) == n + (v + (c + more));
    Assoc(v, c + more, close);
    Assoc(n, v + (c + more), close);
  }

  lemma IndentedMembers(members: seq<Member>, expand: bool, double: real -> Text, indent: nat)
    requires members != []
    requires forall i :: 0 <= i < |members| ==>
               Printable(members[i].key, expand) && AllPrintable(members[i].value, expand)
    ensures var o := Options(expand, false);
            PrintMembers(members, o, double, indent)
            == Pad(2 * indent) + (Name(members[0].key, o)
               + (Print(members[0].value, o, double, indent)
                  + (Separator(|members| == 1) + ([NEWLINE] + PrintMembers(members[1..], o, double, indent)))))
  {
    hide Print, Name, Pad, Separator, AllPrintable, Printable;
  }

  lemma NoMembers(expand: bool, double: real -> Text, indent: nat)
    ensures PrintMembers([], Options(expand, true), double, 0) == []
            == PrintMembers([], Options(expand, false), double, indent)
  {
  }

  lemma WithinLead(d: nat, t: Text)
    ensures Lead(d, Within) + t == t
  {
  }

  lemma NameLaid(t: Text, expand: bool, s: Text, d: nat, line: Line)
    requires Printable(t, expand)
    ensures LaidOut(Name(t, Options(expand, true)) + s, Outside, d, line)
            == Lead(d, line) + (Name(t, Options(expand, false)) + LaidOut(s, Outside, d, Within))
  {
    hide LaidOut, Expanded, Lead;
    var x := [QUOTE] + (Expanded(t, expand) + [QUOTE]);
    assert Name(t, Options(expand, true)) + s == x + ([COLON] + s);
    StringLaid(t, expand, [COLON] + s, d, line);
    ColonLaid(s, d);
    var rest := LaidOut(s, Outside, d, Within);
    assert x + ([COLON, BLANK] + rest) == Name(t, Options(expand, false)) + rest;
  }

  /** The indented text of a value without doubles is its one-line text laid out. */
  lemma IndentedIsLaidOut(lib: J.Libc, j: Json, expand: bool, double: real -> Text)
    requires R.Exact(lib, j) && AllPrintable(j, expand)
    ensures Print(j, Options(expand, false), double, 0)
            == LaidOut(Print(j, Options(expand, true), double, 0), Outside, 0, Within)
  {
    hide Print, R.Exact, AllPrintable;
    var t := Print(j, Options(expand, true), double, 0);
    ValueLaid(lib, j, expand, double, 0, [], Within);
    assert t + [] == t;
    WithinLead(0, Print(j, Options(expand, false), double, 0) + []);
    assert Print(j, Options(expand, false), double, 0) + [] == Print(j, Options(expand, false), double, 0);
  }
}
