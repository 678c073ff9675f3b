/**
 The JSON parser (Common/json.c:104-324, 377-779), first as a recursive descent on the text that is
 left, then as the token state machine of the source, which advances a shared offset and grows a
 token buffer.  Positions in error reports are not modelled.
 */
module JsonParse {
  import opened Bytes
  import opened Utf8
  import opened JsonText

  // --- Numbers ----------------------------------------------------------------------------------

  datatype Strtod = NotADouble | TooLarge | Double(d: real)

  /** What the parser takes from the C library: strtod, and whether errno still holds ERANGE from an
      earlier call. */
  datatype Libc = Libc(strtod: Text -> Strtod, staleErange: bool)

  datatype Number = NotANumber | Overflow | Number(value: Json)

  predicate IsInteger(tok: Text)
  {
    var s := if tok != [] && tok[0] == MINUS then tok[1..] else tok;
    s != [] && AllDigits(s)
  }

  function IntegerValue(tok: Text): int
    requires IsInteger(tok)
  {
    if tok[0] == MINUS then -DecimalValue(tok[1..]) else DecimalValue(tok)
  }

  // valid_integer and valid_double: strtoll saturates, and its extreme results count as an overflow
  // when errno says so.
  function NumberOf(lib: Libc, tok: Text): Number
  {
    if IsInteger(tok) then
      var v := IntegerValue(tok);
      if v < LLONG_MIN || v > LLONG_MAX then Overflow
      else if (v == LLONG_MIN || v == LLONG_MAX) && lib.staleErange then Overflow
      else Number(JInt(v))
    else
      match lib.strtod(tok)
      case NotADouble => NotANumber
      case TooLarge => Overflow
      case Double(d) => Number(JDouble(d))
  }

  // --- Strings ----------------------------------------------------------------------------------

  // A lead surrogate that turned out not to be followed by a low one.
  function Dumped(lead: Ucs4): Text { if lead == 0 then [] else [lead] }

  function SimpleEscape(c: Ucs4): Option<Ucs4>
  {
    match c
    case 0x5C => Some(0x5C)
    case 0x2F => Some(0x2F)
    case 0x72 => Some(0x0D)
    case 0x6E => Some(0x0A)
    case 0x74 => Some(0x09)
    case 0x66 => Some(0x0C)
    case _ => None
  }

  function Prepend(p: Text, o: Option<Text>): Option<Text>
  {
    match o case None => None case Some(t) => Some(p + t)
  }

  predicate FourHexDigits(s: Text)
  {
    |s| >= 4 && IsHexDigit(s[0]) && IsHexDigit(s[1]) && IsHexDigit(s[2]) && IsHexDigit(s[3])
  }

  // valid_string: the characters that a string token stands for; `lead` is a pending lead surrogate.
  function Unescape(s: Text, lead: Ucs4): (r: Option<Text>)
    decreases |s|
  {
    if s == [] then Some(Dumped(lead))
    else if s[0] != BACKSLASH then Prepend(Dumped(lead) + [s[0]], Unescape(s[1..], 0))
    else if |s| == 1 then Some(Dumped(lead))
    else if s[1] != LETTER_U then
      match SimpleEscape(s[1])
      case None => None
      case Some(c) => Prepend(Dumped(lead) + [c], Unescape(s[2..], 0))
    else if !FourHexDigits(s[2..]) then None
    else
      var u: Ucs4 := HexWord(s[2..]);
      if IsHighSurrogate(u) then Prepend(Dumped(lead), Unescape(s[6..], u))
      else if IsLowSurrogate(u) && lead != 0 then
        var c := Combined(lead, u);
        if c >= 0x8000_0000 then None else Prepend([c], Unescape(s[6..], 0))
      else Prepend(Dumped(lead) + [u], Unescape(s[6..], 0))
  }

  // --- The text that is left ----------------------------------------------------------------------

  datatype Error = BadUtf8 | Syntax | Incomplete | NumberOverflow | Extra

  // Decoded characters; -1 where decoding fails.
  type Input = s: seq<int> | forall i :: 0 <= i < |s| ==> -1 <= s[i] < 0x8000_0000

  /** A parsed element (`any` tells whether there was one), the character that stopped it (0 at the
      end of the text) and the text after that; or an error. */
  datatype Parsed = Parsed(value: Json, stop: int, any: bool, rest: Input) | Failed(e: Error)

  // After an element: white space is skipped and whatever follows is the stop token.
  function Terminal(v: Json, s: Input): (r: Parsed)
    ensures r.Parsed? ==> |r.rest| <= |s| && r.any && r.value == v
    decreases |s|
  {
    if s == [] then Parsed(v, 0, true, [])
    else if s[0] < 0 then Failed(BadUtf8)
    else if IsSpace(s[0]) then Terminal(v, s[1..])
    else Parsed(v, s[0], true, s[1..])
  }

  function BarewordOf(tok: Text): Option<Json>
  {
    if tok == U_NULL then Some(JNull)
    else if tok == U_TRUE then Some(JBool(true))
    else if tok == U_FALSE then Some(JBool(false))
    else None
  }

  function Bareword(s: Input, tok: Text): (r: Parsed)
    ensures r.Parsed? ==> |r.rest| <= |s|
    decreases |s|
  {
    if s != [] && s[0] < 0 then Failed(BadUtf8)
    else if s != [] && IsAlpha(s[0]) then Bareword(s[1..], tok + [s[0]])
    else
      match BarewordOf(tok)
      case None => Failed(Syntax)
      case Some(v) => Terminal(v, s)
  }

  function Numeric(lib: Libc, s: Input, tok: Text): (r: Parsed)
    ensures r.Parsed? ==> |r.rest| <= |s|
    decreases |s|
  {
    if s != [] && s[0] < 0 then Failed(BadUtf8)
    else if s != [] && IsNumberChar(s[0]) then Numeric(lib, s[1..], tok + [s[0]])
    else
      match NumberOf(lib, tok)
      case NotANumber => Failed(Syntax)
      case Overflow => Failed(NumberOverflow)
      case Number(v) => Terminal(v, s)
  }

  // Inside a string; an escaped quote loses its backslash at once.
  function Quoted(s: Input, tok: Text): (r: Parsed)
    ensures r.Parsed? ==> |r.rest| < |s|
    decreases |s|
  {
    if s == [] then Failed(Incomplete)
    else if s[0] < 0 then Failed(BadUtf8)
    else if s[0] == BACKSLASH then
      if |s| == 1 then Failed(Incomplete)
      else if s[1] < 0 then Failed(BadUtf8)
      else Quoted(s[2..], tok + if s[1] == QUOTE then [QUOTE] else [BACKSLASH, s[1]])
    else if s[0] == QUOTE then
      match Unescape(tok, 0)
      case None => Failed(Syntax)
      case Some(t) => Terminal(JString(t), s[1..])
    else Quoted(s[1..], tok + [s[0]])
  }

  // The error for an unexpected stop token.
  function Unexpected(stop: int): Parsed { Failed(if stop == 0 then Incomplete else Syntax) }

  function Element(lib: Libc, s: Input): (r: Parsed)
    ensures r.Parsed? ==> |r.rest| < |s|
    decreases |s|, 0
  {
    if s == [] then Failed(Incomplete)
    else
      var c := s[0];
      if c < 0 then Failed(BadUtf8)
      else if IsSpace(c) then Element(lib, s[1..])
      else if c == LBRACE then Members(lib, s[1..], [])
      else if c == LBRACKET then Items(lib, s[1..], [])
      else if c == QUOTE then Quoted(s[1..], [])
      else if c == MINUS || IsDigit(c) then Numeric(lib, s[1..], [c])
      else if IsAlpha(c) then Bareword(s[1..], [c])
      else Parsed(JNull, c, false, s[1..])
  }

  // The members of an object from the next one on.
  function Members(lib: Libc, s: Input, acc: seq<Member>): (r: Parsed)
    ensures r.Parsed? ==> |r.rest| < |s|
    decreases |s|, 1
  {
    match Element(lib, s)
    case Failed(e) => Failed(e)
    case Parsed(key, stop, any, rest) =>
      if !any && stop == RBRACE then Terminal(JObject(acc), rest)
      else if stop != COLON then Unexpected(stop)
      else if !key.JString? then Failed(Syntax)
      else
        match Element(lib, rest)
        case Failed(e) => Failed(e)
        case Parsed(v, stop1, any1, rest1) =>
          if stop1 != COMMA && stop1 != RBRACE then Unexpected(stop1)
          else if !any1 then Failed(Syntax)
          else if stop1 == COMMA then Members(lib, rest1, acc + [Member(key.text, v)])
          else Terminal(JObject(acc + [Member(key.text, v)]), rest1)
  }

  // The items of an array from the next one on; missing items are skipped.
  function Items(lib: Libc, s: Input, acc: seq<Json>): (r: Parsed)
    ensures r.Parsed? ==> |r.rest| < |s|
    decreases |s|, 1
  {
    match Element(lib, s)
    case Failed(e) => Failed(e)
    case Parsed(v, stop, any, rest) =>
      var acc1 := if any then acc + [v] else acc;
      if stop == COMMA then Items(lib, rest, acc1)
      else if stop != RBRACKET then Unexpected(stop)
      else Terminal(JArray(acc1), rest)
  }

  datatype Result = Ok(value: Json) | Err(e: Error)

  // json_parse, on decoded text
  function ParseText(lib: Libc, s: Input): Result
  {
    match Element(lib, s)
    case Failed(e) => Err(e)
    case Parsed(v, stop, any, _) => if stop == 0 then Ok(v) else Err(if any then Extra else Syntax)
  }

  // The characters of a byte string up to the first that cannot be decoded.
  function DecodeText(s: seq<byte>): (r: Input)
    decreases |s|
  {
    if s == [] then []
    else
      var d := Decode(s);
      if d.nr == 0 then [-1] else [d.u] + DecodeText(s[d.nr..])
  }

  // json_parse
  function Parse(lib: Libc, s: seq<byte>): Result
  {
    ParseText(lib, DecodeText(s))
  }

  // --- The state machine --------------------------------------------------------------------------

  // json_token_state_t
  datatype TokenState = Base | InBareword | InNumber | InString | AfterBackslash | Done

  // What is left to do in a state of the machine.
  function Continue(lib: Libc, st: TokenState, tok: Text, v: Json, s: Input): Parsed
  {
    match st
    case Base => Element(lib, s)
    case InBareword => Bareword(s, tok)
    case InNumber => Numeric(lib, s, tok)
    case InString => Quoted(s, tok)
    case AfterBackslash =>
      if s == [] then Failed(Incomplete)
      else if s[0] < 0 then Failed(BadUtf8)
      else Quoted(s[1..], tok + if s[0] == QUOTE then [QUOTE] else [BACKSLASH, s[0]])
    case Done => Terminal(v, s)
  }

  lemma PrependAdd(p: Text, q: Text, o: Option<Text>)
    ensures Prepend(p, Prepend(q, o)) == Prepend(p + q, o)
    ensures Prepend([], o) == o
  {
    if o.Some? {
      assert p + (q + o.value) == p + q + o.value;
      assert [] + o.value == o.value;
    }
  }

  // valid_string
  method ValidString(s: Text) returns (r: Option<Text>)
    ensures r == Unescape(s, 0)
  {
    hide Combined, HexWord, HexValue, IsHexDigit;
    var ret: Text := [];
    var backslash := false;
    var lead: Ucs4 := 0;
    var i := 0;
    PrependAdd([], [], Unescape(s, 0));
    assert s[0..] == s;
    while i < |s|
      invariant 0 <= i <= |s| && (backslash ==> i > 0 && s[i - 1] == BACKSLASH)
      invariant Unescape(s, 0) == Prepend(ret, Unescape(s[if backslash then i - 1 else i..], lead))
    {
      var c := s[i];
      var add: Text := [];
      if backslash {
        ghost var left := s[i - 1..];
        assert left[0] == BACKSLASH && left[1] == c && left[2..] == s[i + 1..];
        if lead != 0 && c != LETTER_U {
          add, lead := [lead], 0;
        }
        if c == LETTER_U {
          if i + 4 >= |s| || !FourHexDigits(s[i + 1..i + 5]) {
            NoHexDigits(s, i);
            return None;
          }
          SameHexDigits(s, i);
          var u: Ucs4 := HexWord(s[i + 1..i + 5]);
          assert left[6..] == s[i + 5..];
          i := i + 4;
          if lead != 0 && !IsLowSurrogate(u) && !IsHighSurrogate(u) {
            add, lead := [lead], 0;
          }
          if IsHighSurrogate(u) {
            add, lead := Dumped(lead), u;
          } else if IsLowSurrogate(u) && lead != 0 {
            var w := Combined(lead, u);
            if w >= 0x8000_0000 {
              return None;
            }
            add, lead := [w], 0;
          } else {
            add := add + [u];
          }
        } else {
          var e := SimpleEscape(c);
          if e == None {
            return None;
          }
          add := add + [e.value];
        }
        backslash := false;
      } else {
        assert s[i..][0] == c && s[i..][1..] == s[i + 1..];
        if c == BACKSLASH {
          backslash := true;
        } else {
          add := Dumped(lead) + [c];
          lead := 0;
        }
      }
      i := i + 1;
      PrependAdd(ret, add, Unescape(s[if backslash then i - 1 else i..], lead));
      ret := ret + add;
    }
    assert backslash ==> s[i - 1..] == [BACKSLASH];
    r := Some(ret + Dumped(lead));
  }

  lemma SameHexDigits(s: Text, i: nat)
    requires i + 4 < |s|
    ensures FourHexDigits(s[i + 1..]) <==> FourHexDigits(s[i + 1..i + 5])
    ensures FourHexDigits(s[i + 1..]) ==> HexWord(s[i + 1..]) == HexWord(s[i + 1..i + 5])
  {
    var t, q := s[i + 1..], s[i + 1..i + 5];
    assert t[0] == q[0] && t[1] == q[1] && t[2] == q[2] && t[3] == q[3];
  }

  lemma NoHexDigits(s: Text, i: nat)
    requires i < |s| && (i + 4 >= |s| || !FourHexDigits(s[i + 1..i + 5]))
    ensures !FourHexDigits(s[i + 1..])
  {
    if i + 4 < |s| {
      SameHexDigits(s, i);
    }
  }

  /** The parser of the source: it advances `offset` through the text, and calls itself for nested
      elements. */
  class Parser {
    const lib: Libc
    const text: Input
    var offset: nat

    constructor (lib: Libc, text: Input)
      ensures this.lib == lib && this.text == text && offset == 0
    {
      this.lib, this.text, offset := lib, text, 0;
    }

    ghost function Left(): Input
      requires offset <= |text|
      reads this
    {
      text[offset..]
    }

    // Whether a result with the present offset is the one specified.
    ghost predicate Achieves(spec: Parsed, r: Parsed)
      reads this
    {
      && offset <= |text|
      && (spec.Failed? ==> r == spec)
      && (spec.Parsed? ==> r == spec.(rest := []) && Left() == spec.rest)
    }

    // json_parse_internal
    method ParseInternal() returns (r: Parsed)
      requires offset <= |text|
      modifies this
      ensures Achieves(Element(lib, old(Left())), r)
      ensures offset >= old(offset)
      ensures r.Parsed? ==> offset > old(offset)
      decreases |text| - offset, 0
    {
      hide Members, Items, Unescape, NumberOf, BarewordOf;
      var state, tok, v := Base, [], JNull;
      ghost var spec := Element(lib, Left());
      while offset < |text|
        invariant old(offset) <= offset <= |text|
        invariant if state == Base then tok == [] else offset > old(offset)
        invariant spec == Continue(lib, state, tok, v, Left())
        decreases |text| - offset
      {
        var c := text[offset];
        assert Left()[0] == c && Left()[1..] == text[offset + 1..];
        if c < 0 {
          return Failed(BadUtf8);
        }
        offset := offset + 1;
        match state {
          case Done =>
            if !IsSpace(c) {
              return Parsed(v, c, true, []);
            }
          case Base =>
            if IsSpace(c) {
              continue;
            } else if c == LBRACE {
              r := ParseMembers();
              if r.Failed? {
                return;
              }
              state, v := Done, r.value;
            } else if c == LBRACKET {
              r := ParseItems();
              if r.Failed? {
                return;
              }
              state, v := Done, r.value;
            } else if c == QUOTE {
              state := InString;
            } else if c == MINUS || IsDigit(c) {
              state, tok := InNumber, [c];
            } else if IsAlpha(c) {
              state, tok := InBareword, [c];
            } else {
              return Parsed(JNull, c, false, []);
            }
          case InBareword =>
            if IsAlpha(c) {
              tok := tok + [c];
            } else {
              var b := BarewordOf(tok);
              if b == None {
                return Failed(Syntax);
              }
              state, v := Done, b.value;
              if !IsSpace(c) {
                return Parsed(v, c, true, []);
              }
            }
          case InNumber =>
            if IsNumberChar(c) {
              tok := tok + [c];
            } else {
              var n := NumberOf(lib, tok);
              if !n.Number? {
                return Failed(if n.Overflow? then NumberOverflow else Syntax);
              }
              state, v := Done, n.value;
              if !IsSpace(c) {
                return Parsed(v, c, true, []);
              }
            }
          case InString =>
            if c == BACKSLASH {
              state := AfterBackslash;
              assert offset < |text| ==> Left()[0] == text[offset] && Left()[1..] == text[offset + 1..];
              assert offset < |text| ==> text[offset - 1..][2..] == text[offset + 1..];
            } else if c == QUOTE {
              var t := ValidString(tok);
              if t == None {
                return Failed(Syntax);
              }
              state, v := Done, JString(t.value);
            } else {
              tok := tok + [c];
            }
          case AfterBackslash =>
            tok := tok + if c == QUOTE then [QUOTE] else [BACKSLASH, c];
            state := InString;
        }
      }
      r := EndOfText(state, tok, v);
    }

    // The end of the text, in each state.
    method EndOfText(state: TokenState, tok: Text, v: Json) returns (r: Parsed)
      ensures r == Continue(lib, state, tok, v, [])
    {
      hide Members, Items, Unescape, NumberOf, BarewordOf;
      match state {
        case Base => r := Failed(Incomplete);
        case InBareword =>
          var b := BarewordOf(tok);
          r := if b == None then Failed(Syntax) else Parsed(b.value, 0, true, []);
        case InNumber =>
          var n := NumberOf(lib, tok);
          r := if n.Number? then Parsed(n.value, 0, true, [])
               else Failed(if n.Overflow? then NumberOverflow else Syntax);
        case InString => r := Failed(Incomplete);
        case AfterBackslash => r := Failed(Incomplete);
        case Done => r := Parsed(v, 0, true, []);
      }
    }

    // The loop for an object, up to its closing brace; nothing after the brace is read.
    method ParseMembers() returns (r: Parsed)
      requires offset <= |text|
      modifies this
      ensures old(offset) <= offset <= |text|
      ensures var spec := Members(lib, old(Left()), []);
              if r.Failed? then spec == r else spec == Terminal(r.value, Left()) && offset > old(offset)
      decreases |text| - offset, 1
    {
      var acc: seq<Member> := [];
      ghost var spec := Members(lib, Left(), []);
      while true
        invariant old(offset) <= offset <= |text|
        invariant spec == Members(lib, Left(), acc)
        decreases |text| - offset
      {
        r := ParseInternal();
        if r.Failed? {
          return;
        }
        if !r.any && r.stop == RBRACE {
          return Parsed(JObject(acc), 0, true, []);
        }
        if r.stop != COLON {
          return Unexpected(r.stop);
        }
        if !r.value.JString? {
          return Failed(Syntax);
        }
        var key := r.value.text;
        r := ParseInternal();
        if r.Failed? {
          return;
        }
        if r.stop != COMMA && r.stop != RBRACE {
          return Unexpected(r.stop);
        }
        if !r.any {
          return Failed(Syntax);
        }
        acc := acc + [Member(key, r.value)];
        if r.stop != COMMA {
          return Parsed(JObject(acc), 0, true, []);
        }
      }
    }

    // The loop for an array, up to its closing bracket; nothing after the bracket is read.
    method ParseItems() returns (r: Parsed)
      requires offset <= |text|
      modifies this
      ensures old(offset) <= offset <= |text|
      ensures var spec := Items(lib, old(Left()), []);
              if r.Failed? then spec == r else spec == Terminal(r.value, Left()) && offset > old(offset)
      decreases |text| - offset, 1
    {
      var acc: seq<Json> := [];
      ghost var spec := Items(lib, Left(), []);
      while true
        invariant old(offset) <= offset <= |text|
        invariant spec == Items(lib, Left(), acc)
        decreases |text| - offset
      {
        r := ParseInternal();
        if r.Failed? {
          return;
        }
        if r.any {
          acc := acc + [r.value];
        }
        if r.stop != COMMA {
          break;
        }
      }
      if r.stop != RBRACKET {
        return Unexpected(r.stop);
      }
      return Parsed(JArray(acc), 0, true, []);
    }
  }

  // json_parse
  method JsonParse(lib: Libc, s: seq<byte>) returns (r: Result)
    ensures r == Parse(lib, s)
  {
    var p := new Parser(lib, DecodeText(s));
    var e := p.ParseInternal();
    match e {
      case Failed(err) => r := Err(err);
      case Parsed(v, stop, any, _) =>
        r := if stop == 0 then Ok(v) else Err(if any then Extra else Syntax);
    }
  }
}
