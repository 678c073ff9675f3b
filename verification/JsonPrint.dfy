/** The JSON printer (json_expand_string, json_write_indent, Common/json.c:845-995). */
module JsonPrint {
  import opened Bytes
  import opened Utf8
  import opened JsonText

  // JW_EXPAND_SURROGATES and JW_ONE_LINE.
  datatype Options = Options(expand: bool, oneLine: bool)

  // --- Strings ----------------------------------------------------------------------------------

  function UnicodeEscape(v: nat): Text
    requires v < 0x1_0000
  {
    [BACKSLASH, LETTER_U] + Hex4(v)
  }

  lemma SurrogateWords(c: Ucs4)
    requires 0x1_0000 <= c < 0x11_0000
    ensures LeadOf(c) < 0x1_0000 && TrailOf(c) < 0x1_0000
  {
  }

  // A character inside quotes.  A surrogate escape is four digits long only inside Unicode.
  function Escaped(c: Ucs4, expand: bool): Text
    requires expand ==> c < 0x11_0000
  {
    if c == 0x0D then [BACKSLASH, 0x72]
    else if c == 0x0A then [BACKSLASH, 0x6E]
    else if c == 0x09 then [BACKSLASH, 0x74]
    else if c == 0x0C then [BACKSLASH, 0x66]
    else if c == BACKSLASH then [BACKSLASH, BACKSLASH]
    else if c == QUOTE then [BACKSLASH, QUOTE]
    else if c < 0x20 then UnicodeEscape(c)
    else if expand && c >= 0x1_0000 then UnicodeEscape(LeadOf(c)) + UnicodeEscape(TrailOf(c))
    else [c]
  }

  predicate Printable(t: Text, expand: bool)
  {
    expand ==> forall i :: 0 <= i < |t| ==> t[i] < 0x11_0000
  }

  // json_expand_string
  function Expanded(t: Text, expand: bool): Text
    requires Printable(t, expand)
  {
    if t == [] then [] else Escaped(t[0], expand) + Expanded(t[1..], expand)
  }

  // --- Values -----------------------------------------------------------------------------------

  // No strings or names outside Unicode when surrogates are expanded.
  predicate AllPrintable(j: Json, expand: bool)
  {
    match j
    case JString(t) => Printable(t, expand)
    case JArray(items) => forall i :: 0 <= i < |items| ==> AllPrintable(items[i], expand)
    case JObject(members) =>
      forall i :: 0 <= i < |members| ==>
        Printable(members[i].key, expand) && AllPrintable(members[i].value, expand)
    case _ => true
  }

  function Pad(n: nat): (r: Text)
    ensures |r| == n && forall i :: 0 <= i < n ==> r[i] == BLANK
  {
    seq(n, _ => BLANK)
  }

  function Newline(o: Options): Text { if o.oneLine then [] else [NEWLINE] }

  function Separator(last: bool): Text { if last then [] else [COMMA] }

  // The layout of nested values: the indentation of a value and of what is inside it.
  function Inner(o: Options, indent: nat): nat { if o.oneLine then 0 else indent + 1 }

  function Outer(o: Options, indent: nat): nat { if o.oneLine then 0 else indent }

  // json_write_indent; `double` stands for "%g".
  function Print(j: Json, o: Options, double: real -> Text, indent: nat): Text
    requires AllPrintable(j, o.expand)
    decreases j
  {
    match j
    case JNull => U_NULL
    case JBool(b) => if b then U_TRUE else U_FALSE
    case JInt(i) => IntText(i)
    case JDouble(d) => double(d)
    case JString(t) => [QUOTE] + (Expanded(t, o.expand) + [QUOTE])
    case JArray(items) =>
      [LBRACKET] + (Newline(o) + (PrintItems(items, o, double, Inner(o, indent))
      + (Pad(2 * Outer(o, indent)) + [RBRACKET])))
    case JObject(members) =>
      [LBRACE] + (Newline(o) + (PrintMembers(members, o, double, Inner(o, indent))
      + (Pad(2 * Outer(o, indent)) + [RBRACE])))
  }

  function PrintItems(items: seq<Json>, o: Options, double: real -> Text, indent: nat): Text
    requires forall i :: 0 <= i < |items| ==> AllPrintable(items[i], o.expand)
    decreases items
  {
    if items == [] then []
    else
      Pad(2 * indent) + (Print(items[0], o, double, indent)
      + (Separator(|items| == 1) + (Newline(o) + PrintItems(items[1..], o, double, indent))))
  }

  function Name(t: Text, o: Options): Text
    requires Printable(t, o.expand)
  {
    [QUOTE] + (Expanded(t, o.expand) + ([QUOTE] + ([COLON] + if o.oneLine then [] else [BLANK])))
  }

  function PrintMembers(members: seq<Member>, o: Options, double: real -> Text, indent: nat): Text
    requires forall i :: 0 <= i < |members| ==>
               Printable(members[i].key, o.expand) && AllPrintable(members[i].value, o.expand)
    decreases members
  {
    if members == [] then []
    else
      Pad(2 * indent) + (Name(members[0].key, o) + (Print(members[0].value, o, double, indent)
      + (Separator(|members| == 1) + (Newline(o) + PrintMembers(members[1..], o, double, indent)))))
  }

  // --- The methods --------------------------------------------------------------------------------

  method EscapeChar(c: Ucs4, expand: bool) returns (e: Text)
    requires expand ==> c < 0x11_0000
    ensures e == Escaped(c, expand)
  {
    match c {
      case 0x0D => e := [BACKSLASH, 0x72];
      case 0x0A => e := [BACKSLASH, 0x6E];
      case 0x09 => e := [BACKSLASH, 0x74];
      case 0x0C => e := [BACKSLASH, 0x66];
      case 0x5C => e := [BACKSLASH, BACKSLASH];
      case 0x22 => e := [BACKSLASH, QUOTE];
      case _ =>
        if c < 0x20 {
          e := UnicodeEscape(c);
        } else if expand && c >= 0x1_0000 {
          SurrogateWords(c);
          e := UnicodeEscape(LeadOf(c)) + UnicodeEscape(TrailOf(c));
        } else {
          e := [c];
        }
    }
  }

  // Output already written and output still to come.
  lemma Written(r: Text, e: Text, rest: Text)
    ensures r + (e + rest) == (r + e) + rest
    ensures r + [] == r
  {
  }

  method ExpandString(t: Text, expand: bool) returns (r: Text)
    requires Printable(t, expand)
    ensures r == Expanded(t, expand)
  {
    hide Escaped;
    r := [];
    assert t[0..] == t;
    for i := 0 to |t|
      invariant r + Expanded(t[i..], expand) == Expanded(t, expand)
    {
      assert t[i..][0] == t[i] && t[i..][1..] == t[i + 1..];
      var e := EscapeChar(t[i], expand);
      Written(r, e, Expanded(t[i + 1..], expand));
      r := r + e;
    }
    Written(r, [], []);
  }

  method WriteIndent(j: Json, o: Options, double: real -> Text, indent: nat) returns (r: Text)
    requires AllPrintable(j, o.expand)
    ensures r == Print(j, o, double, indent)
    decreases j, 1
  {
    match j {
      case JNull => r := U_NULL;
      case JBool(b) => r := if b then U_TRUE else U_FALSE;
      case JInt(i) => r := IntText(i);
      case JDouble(d) => r := double(d);
      case JString(t) =>
        var s := ExpandString(t, o.expand);
        r := [QUOTE] + (s + [QUOTE]);
      case JObject(members) =>
        var body := WriteMembers(members, o, double, Inner(o, indent));
        r := [LBRACE] + (Newline(o) + (body + (Pad(2 * Outer(o, indent)) + [RBRACE])));
      case JArray(items) =>
        var body := WriteItems(items, o, double, Inner(o, indent));
        r := [LBRACKET] + (Newline(o) + (body + (Pad(2 * Outer(o, indent)) + [RBRACKET])));
    }
  }

  method WriteItems(items: seq<Json>, o: Options, double: real -> Text, indent: nat) returns (r: Text)
    requires forall i :: 0 <= i < |items| ==> AllPrintable(items[i], o.expand)
    ensures r == PrintItems(items, o, double, indent)
    decreases items, 0
  {
    hide Print, AllPrintable, Pad, Separator, Newline;
    r := [];
    assert items[0..] == items;
    for i := 0 to |items|
      invariant r + PrintItems(items[i..], o, double, indent) == PrintItems(items, o, double, indent)
    {
      assert items[i..][0] == items[i] && items[i..][1..] == items[i + 1..];
      var v := WriteIndent(items[i], o, double, indent);
      var e := Pad(2 * indent) + (v + (Separator(i == |items| - 1) + Newline(o)));
      ghost var rest := PrintItems(items[i + 1..], o, double, indent);
      Regroup(Pad(2 * indent), v, Separator(i == |items| - 1), Newline(o), rest);
      Written(r, e, rest);
      r := r + e;
    }
    Written(r, [], []);
  }

  method WriteMembers(members: seq<Member>, o: Options, double: real -> Text, indent: nat)
    returns (r: Text)
    requires forall i :: 0 <= i < |members| ==>
               Printable(members[i].key, o.expand) && AllPrintable(members[i].value, o.expand)
    ensures r == PrintMembers(members, o, double, indent)
    decreases members, 0
  {
    hide Print, AllPrintable, Pad, Name, Expanded, Printable, Separator, Newline;
    r := [];
    assert members[0..] == members;
    for i := 0 to |members|
      invariant r + PrintMembers(members[i..], o, double, indent)
                == PrintMembers(members, o, double, indent)
    {
      assert members[i..][0] == members[i] && members[i..][1..] == members[i + 1..];
      var name := WriteName(members[i].key, o);
      var v := WriteIndent(members[i].value, o, double, indent);
      var e := Pad(2 * indent) + (name + (v + (Separator(i == |members| - 1) + Newline(o))));
      ghost var rest := PrintMembers(members[i + 1..], o, double, indent);
      Regroup(name, v, Separator(i == |members| - 1), Newline(o), rest);
      Written(Pad(2 * indent), name + (v + (Separator(i == |members| - 1) + Newline(o))), rest);
      Written(r, e, rest);
      r := r + e;
    }
    Written(r, [], []);
  }

  method WriteName(t: Text, o: Options) returns (r: Text)
    requires Printable(t, o.expand)
    ensures r == Name(t, o)
  {
    var s := ExpandString(t, o.expand);
    r := [QUOTE] + (s + ([QUOTE] + ([COLON] + if o.oneLine then [] else [BLANK])));
  }
}
