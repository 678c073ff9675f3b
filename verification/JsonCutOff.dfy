/**
 Text that is cut off is not accepted: an element depends only on the text up to the token that stops
 it, and text that ends early is reported as incomplete (Common/json.c:377-820).
 */
module JsonCutOff {
  import opened Bytes
  import opened Utf8
  import opened JsonText
  import opened JsonParse
  import opened JsonPrint
  import opened JsonRoundTrip

  // --- Where a text ends --------------------------------------------------------------------------

  // Outside strings, inside one, or behind a backslash inside one.
  datatype Place = Outside | Inside | Behind

  function Step(st: Place, c: int): Place
  {
    match st
    case Outside => if c == QUOTE then Inside else Outside
    case Inside => if c == QUOTE then Outside else if c == BACKSLASH then Behind else Inside
    case Behind => Inside
  }

  function Scan(st: Place, s: Input): Place
    decreases |s|
  {
    if s == [] then st else Scan(Step(st, s[0]), s[1..])
  }

  // Letters, digits and signs, which make up numbers and barewords.
  predicate TokenChar(c: int) { IsAlpha(c) || IsNumberChar(c) }

  /** The text does not end in a number or bareword, which more text might continue. */
  predicate Solid(st: Place, s: Input)
  {
    !(s != [] && Scan(st, s) == Outside && TokenChar(s[|s| - 1]))
  }

  lemma SolidNext(st: Place, s: Input)
    requires s != [] && Solid(st, s)
    ensures Solid(Step(st, s[0]), s[1..])
  {
  }

  // No NUL, which the parser takes for the end of the text.
  predicate NoNul(s: Input) { forall i :: 0 <= i < |s| ==> s[i] != 0 }

  // --- Cutting an element off ---------------------------------------------------------------------

  /** What is read of a text, and of the text with `q` behind it: a stop token or an error other than the end of the
      text is met in both, and an element that the end of the text stops goes on with `q`. */
  predicate Extends(a: Parsed, b: Parsed, q: Input)
  {
    match a
    case Failed(e) => e == Incomplete || b == a
    case Parsed(v, stop, any, rest) =>
      if stop == 0 then any && rest == [] && b == Terminal(v, q)
      else b == Parsed(v, stop, any, rest + q) && NoNul(rest) && (stop != QUOTE ==> Solid(Outside, rest))
  }

  lemma Onward(p: Input, q: Input)
    requires p != []
    ensures (p + q)[0] == p[0] && (p + q)[1..] == p[1..] + q
    ensures NoNul(p) ==> NoNul(p[1..])
  {
  }

  lemma {:induction false} TerminalExtends(v: Json, s: Input, q: Input)
    requires NoNul(s) && Solid(Outside, s)
    ensures Extends(Terminal(v, s), Terminal(v, s + q), q)
    decreases |s|
  {
    hide Solid, NoNul;
    if s == [] {
      assert s + q == q;
    } else {
      Onward(s, q);
      FirstNotNul(s);
      SolidNext(Outside, s);
      if IsSpace(s[0]) {
        TerminalExtends(v, s[1..], q);
      }
    }
  }

  lemma FirstNotNul(s: Input)
    requires s != [] && NoNul(s)
    ensures s[0] != 0
  {
  }

  // A token character at the very end leaves the text open.
  lemma NotAlone(s: Input)
    requires s != [] && Solid(Outside, s) && TokenChar(s[0])
    ensures |s| > 1
  {
    assert Scan(Outside, s) == Scan(Step(Outside, s[0]), s[1..]);
  }

  lemma {:induction false} BarewordExtends(s: Input, tok: Text, q: Input)
    requires s != [] && NoNul(s) && Solid(Outside, s)
    ensures Extends(Bareword(s, tok), Bareword(s + q, tok), q)
    decreases |s|
  {
    hide Solid, NoNul, BarewordOf, Terminal;
    Onward(s, q);
    SolidNext(Outside, s);
    if s[0] >= 0 && IsAlpha(s[0]) {
      NotAlone(s);
      BarewordExtends(s[1..], tok + [s[0]], q);
    } else if BarewordOf(tok).Some? {
      TerminalExtends(BarewordOf(tok).value, s, q);
    }
  }

  lemma {:induction false} NumericExtends(lib: Libc, s: Input, tok: Text, q: Input)
    requires s != [] && NoNul(s) && Solid(Outside, s)
    ensures Extends(Numeric(lib, s, tok), Numeric(lib, s + q, tok), q)
    decreases |s|
  {
    hide Solid, NoNul, NumberOf, Terminal;
    Onward(s, q);
    SolidNext(Outside, s);
    if s[0] >= 0 && IsNumberChar(s[0]) {
      NotAlone(s);
      NumericExtends(lib, s[1..], tok + [s[0]], q);
    } else if NumberOf(lib, tok).Number? {
      TerminalExtends(NumberOf(lib, tok).value, s, q);
    }
  }

  lemma FailedExtends(e: Error, b: Parsed, q: Input)
    requires e == Incomplete || b == Failed(e)
    ensures Extends(Failed(e), b, q)
  {
  }

  // A backslash in a string, and the character behind it.
  lemma PairRead(s: Input, q: Input, tok: Text)
    requires |s| > 1 && s[0] == BACKSLASH && s[1] >= 0 && NoNul(s) && Solid(Inside, s)
    ensures var tok1 := tok + if s[1] == QUOTE then [QUOTE] else [BACKSLASH, s[1]];
            && NoNul(s[2..]) && Solid(Inside, s[2..])
            && Quoted(s, tok) == Quoted(s[2..], tok1) && Quoted(s + q, tok) == Quoted(s[2..] + q, tok1)
  {
    hide Unescape, Terminal, Solid;
    SolidNext(Inside, s);
    SolidNext(Behind, s[1..]);
    assert s[1..][1..] == s[2..] && (s + q)[2..] == s[2..] + q;
  }

  lemma {:induction false} QuotedExtends(s: Input, tok: Text, q: Input)
    requires NoNul(s) && Solid(Inside, s)
    ensures Extends(Quoted(s, tok), Quoted(s + q, tok), q)
    decreases |s|
  {
    hide Solid, NoNul, Unescape, Terminal, Extends;
    if s == [] || (|s| == 1 && s[0] == BACKSLASH) {
      FailedExtends(Incomplete, Quoted(s + q, tok), q);
    } else {
      Onward(s, q);
      SolidNext(Inside, s);
      if s[0] < 0 || (s[0] == BACKSLASH && s[1] < 0) {
        FailedExtends(BadUtf8, Failed(BadUtf8), q);
        assert s[0] == BACKSLASH ==> (s + q)[1] == s[1];
      } else if s[0] == BACKSLASH {
        PairRead(s, q, tok);
        QuotedExtends(s[2..], tok + if s[1] == QUOTE then [QUOTE] else [BACKSLASH, s[1]], q);
      } else if s[0] == QUOTE {
        FailedExtends(Syntax, Failed(Syntax), q);
        if Unescape(tok, 0).Some? {
          TerminalExtends(JString(Unescape(tok, 0).value), s[1..], q);
        }
      } else {
        QuotedExtends(s[1..], tok + [s[0]], q);
      }
    }
  }

  lemma {:induction false} ElementExtends(lib: Libc, p: Input, q: Input)
    requires NoNul(p) && Solid(Outside, p)
    ensures Extends(Element(lib, p), Element(lib, p + q), q)
    decreases |p|, 0
  {
    hide Solid, NoNul, Members, Items, Quoted, Numeric, Bareword;
    if p != [] {
      var c := p[0];
      Onward(p, q);
      FirstNotNul(p);
      SolidNext(Outside, p);
      if c < 0 {
      } else if IsSpace(c) {
        ElementExtends(lib, p[1..], q);
      } else if c == LBRACE {
        MembersExtend(lib, p[1..], [], q);
      } else if c == LBRACKET {
        ItemsExtend(lib, p[1..], [], q);
      } else if c == QUOTE {
        QuotedExtends(p[1..], [], q);
      } else if c == MINUS || IsDigit(c) {
        NotAlone(p);
        NumericExtends(lib, p[1..], [c], q);
      } else if IsAlpha(c) {
        NotAlone(p);
        BarewordExtends(p[1..], [c], q);
      }
    }
  }

  lemma {:induction false} MembersExtend(lib: Libc, p: Input, acc: seq<Member>, q: Input)
    requires NoNul(p) && Solid(Outside, p)
    ensures Extends(Members(lib, p, acc), Members(lib, p + q, acc), q)
    decreases |p|, 1
  {
    hide Solid, NoNul, Element, Terminal;
    ElementExtends(lib, p, q);
    match Element(lib, p) {
      case Failed(_) =>
      case Parsed(key, stop, any, rest) =>
        if !any && stop == RBRACE {
          TerminalExtends(JObject(acc), rest, q);
        } else if stop == COLON && key.JString? {
          ElementExtends(lib, rest, q);
          match Element(lib, rest) {
            case Failed(_) =>
            case Parsed(v, stop1, any1, rest1) =>
              var acc1 := acc + [Member(key.text, v)];
              if stop1 == COMMA && any1 {
                MembersExtend(lib, rest1, acc1, q);
              } else if stop1 == RBRACE && any1 {
                TerminalExtends(JObject(acc1), rest1, q);
              }
          }
        }
    }
  }

  lemma {:induction false} ItemsExtend(lib: Libc, p: Input, acc: seq<Json>, q: Input)
    requires NoNul(p) && Solid(Outside, p)
    ensures Extends(Items(lib, p, acc), Items(lib, p + q, acc), q)
    decreases |p|, 1
  {
    hide Solid, NoNul, Element, Terminal;
    ElementExtends(lib, p, q);
    match Element(lib, p) {
      case Failed(_) =>
      case Parsed(v, stop, any, rest) =>
        var acc1 := if any then acc + [v] else acc;
        if stop == COMMA {
          ItemsExtend(lib, rest, acc1, q);
        } else if stop == RBRACKET {
          TerminalExtends(JArray(acc1), rest, q);
        }
    }
  }

  // --- What an accepted text ends with ------------------------------------------------------------

  // The last character is a closing delimiter or white space.
  predicate Closed(s: Input)
  {
    s != [] && (IsSpace(s[|s| - 1]) || s[|s| - 1] in {RBRACKET, RBRACE, QUOTE})
  }

  // The text after an element is a tail of the text, behind the stop token.
  predicate IsTail(s: Input, stop: int, rest: Input)
  {
    |rest| < |s| && rest == s[|s| - |rest|..] && s[|s| - |rest| - 1] == stop
  }

  // A result leaves a tail, or nothing at all.
  predicate LeavesTail(s: Input, a: Parsed)
  {
    match a
    case Failed(_) => true
    case Parsed(v, stop, any, rest) => if stop == 0 then rest == [] else IsTail(s, stop, rest)
  }

  lemma TailOfTail(s: Input, k: nat, a: Parsed)
    requires k <= |s| && LeavesTail(s[k..], a)
    ensures LeavesTail(s, a)
  {
  }

  lemma {:induction false} TerminalTail(v: Json, s: Input)
    requires NoNul(s)
    ensures LeavesTail(s, Terminal(v, s))
    ensures var a := Terminal(v, s); a.Parsed? && a.stop == 0 ==> AllSpace(s)
    decreases |s|
  {
    hide LeavesTail, NoNul;
    if s != [] {
      Onward(s, []);
      FirstNotNul(s);
      if IsSpace(s[0]) {
        TerminalTail(v, s[1..]);
        TailOfTail(s, 1, Terminal(v, s[1..]));
        assert s == [s[0]] + s[1..];
      } else if s[0] >= 0 {
        StopTail(v, s);
      }
    } else {
      EndTail(v);
    }
    if s != [] && s[0] < 0 {
      FailedTail(s, BadUtf8);
    }
  }

  lemma EndTail(v: Json)
    ensures LeavesTail([], Parsed(v, 0, true, []))
  {
  }

  lemma StopTail(v: Json, s: Input)
    requires s != [] && s[0] > 0
    ensures LeavesTail(s, Parsed(v, s[0], true, s[1..])) && LeavesTail(s, Parsed(v, s[0], false, s[1..]))
  {
  }

  lemma FailedTail(s: Input, e: Error)
    ensures LeavesTail(s, Failed(e))
  {
  }

  // The text up to an element that leaves a tail, and what comes behind its stop token.
  lemma BehindStop(s: Input, stop: int, rest: Input) returns (k: nat)
    requires IsTail(s, stop, rest)
    ensures 0 < k <= |s| && s[k..] == rest && s[k - 1] == stop
    ensures NoNul(s) ==> NoNul(rest)
  {
    k := |s| - |rest|;
  }

  // White space behind a closing delimiter.
  lemma ClosedBehind(v: Json, s: Input, k: nat)
    requires 0 < k <= |s| && NoNul(s) && s[k - 1] in {RBRACKET, RBRACE, QUOTE}
    ensures var a := Terminal(v, s[k..]);
            LeavesTail(s, a) && (a.Parsed? && a.stop == 0 ==> Closed(s))
  {
    hide LeavesTail, Terminal;
    var rest := s[k..];
    assert NoNul(rest);
    TerminalTail(v, rest);
    TailOfTail(s, k, Terminal(v, rest));
    assert rest != [] ==> s[|s| - 1] == rest[|rest| - 1];
  }

  predicate StopsClosed(s: Input, a: Parsed)
  {
    a.Parsed? && a.stop == 0 ==> Closed(s)
  }

  lemma ClosedTail(s: Input, k: nat, a: Parsed)
    requires k <= |s| && StopsClosed(s[k..], a)
    ensures StopsClosed(s, a)
  {
    if a.Parsed? && a.stop == 0 {
      assert s[|s| - 1] == s[k..][|s[k..]| - 1];
    }
  }

  lemma {:induction false} BarewordLeaves(s: Input, tok: Text)
    requires NoNul(s)
    ensures LeavesTail(s, Bareword(s, tok))
    decreases |s|
  {
    hide LeavesTail, NoNul, BarewordOf, Terminal;
    if s != [] && s[0] >= 0 && IsAlpha(s[0]) {
      Onward(s, []);
      BarewordLeaves(s[1..], tok + [s[0]]);
      TailOfTail(s, 1, Bareword(s[1..], tok + [s[0]]));
    } else {
      FailedTail(s, BadUtf8);
      FailedTail(s, Syntax);
      if BarewordOf(tok).Some? {
        TerminalTail(BarewordOf(tok).value, s);
      }
    }
  }

  lemma {:induction false} NumericLeaves(lib: Libc, s: Input, tok: Text)
    requires NoNul(s)
    ensures LeavesTail(s, Numeric(lib, s, tok))
    decreases |s|
  {
    hide LeavesTail, NoNul, NumberOf, Terminal;
    if s != [] && s[0] >= 0 && IsNumberChar(s[0]) {
      Onward(s, []);
      NumericLeaves(lib, s[1..], tok + [s[0]]);
      TailOfTail(s, 1, Numeric(lib, s[1..], tok + [s[0]]));
    } else {
      FailedTail(s, BadUtf8);
      FailedTail(s, Syntax);
      FailedTail(s, NumberOverflow);
      if NumberOf(lib, tok).Number? {
        TerminalTail(NumberOf(lib, tok).value, s);
      }
    }
  }

  lemma {:induction false} QuotedLeaves(s: Input, tok: Text)
    requires NoNul(s)
    ensures LeavesTail(s, Quoted(s, tok)) && StopsClosed(s, Quoted(s, tok))
    decreases |s|
  {
    hide LeavesTail, NoNul, Unescape, Terminal, Closed;
    FailedTail(s, BadUtf8);
    FailedTail(s, Syntax);
    FailedTail(s, Incomplete);
    if s != [] {
      Onward(s, []);
      if s[0] == BACKSLASH {
        if |s| > 1 && s[1] >= 0 {
          Onward(s[1..], []);
          assert s[1..][1..] == s[2..];
          var tok1 := tok + if s[1] == QUOTE then [QUOTE] else [BACKSLASH, s[1]];
          QuotedLeaves(s[2..], tok1);
          TailOfTail(s, 2, Quoted(s[2..], tok1));
          ClosedTail(s, 2, Quoted(s[2..], tok1));
        }
      } else if s[0] == QUOTE {
        if Unescape(tok, 0).Some? {
          ClosedBehind(JString(Unescape(tok, 0).value), s, 1);
        }
      } else if s[0] >= 0 {
        QuotedLeaves(s[1..], tok + [s[0]]);
        TailOfTail(s, 1, Quoted(s[1..], tok + [s[0]]));
        ClosedTail(s, 1, Quoted(s[1..], tok + [s[0]]));
      }
    }
  }

  predicate Delimited(j: Json) { j.JString? || j.JArray? || j.JObject? }

  lemma {:induction false} ElementLeaves(lib: Libc, s: Input)
    requires NoNul(s)
    ensures var a := Element(lib, s);
            LeavesTail(s, a) && (a.Parsed? && Delimited(a.value) ==> StopsClosed(s, a))
    decreases |s|, 0
  {
    hide LeavesTail, NoNul, Members, Items, Quoted, Numeric, Bareword, Closed, StopsClosed;
    FailedTail(s, BadUtf8);
    FailedTail(s, Incomplete);
    if s != [] {
      var c := s[0];
      Onward(s, []);
      FirstNotNul(s);
      if c < 0 {
      } else if IsSpace(c) {
        ElementLeaves(lib, s[1..]);
        TailOfTail(s, 1, Element(lib, s[1..]));
        if Element(lib, s[1..]).Parsed? && Delimited(Element(lib, s[1..]).value) {
          ClosedTail(s, 1, Element(lib, s[1..]));
        }
      } else if c == LBRACE {
        MembersLeave(lib, s[1..], []);
        TailOfTail(s, 1, Members(lib, s[1..], []));
        ClosedTail(s, 1, Members(lib, s[1..], []));
      } else if c == LBRACKET {
        ItemsLeave(lib, s[1..], []);
        TailOfTail(s, 1, Items(lib, s[1..], []));
        ClosedTail(s, 1, Items(lib, s[1..], []));
      } else if c == QUOTE {
        QuotedLeaves(s[1..], []);
        TailOfTail(s, 1, Quoted(s[1..], []));
        ClosedTail(s, 1, Quoted(s[1..], []));
      } else if c == MINUS || IsDigit(c) {
        NumericLeaves(lib, s[1..], [c]);
        TailOfTail(s, 1, Numeric(lib, s[1..], [c]));
        NumericKind(lib, s[1..], [c]);
      } else if IsAlpha(c) {
        BarewordLeaves(s[1..], [c]);
        TailOfTail(s, 1, Bareword(s[1..], [c]));
        BarewordKind(s[1..], [c]);
      } else {
        StopTail(JNull, s);
      }
    }
  }

  lemma {:induction false} NumericKind(lib: Libc, s: Input, tok: Text)
    ensures var a := Numeric(lib, s, tok); a.Parsed? ==> !Delimited(a.value)
    decreases |s|
  {
    if s != [] && s[0] >= 0 && IsNumberChar(s[0]) {
      NumericKind(lib, s[1..], tok + [s[0]]);
    }
  }

  lemma {:induction false} BarewordKind(s: Input, tok: Text)
    ensures var a := Bareword(s, tok); a.Parsed? ==> !Delimited(a.value)
    decreases |s|
  {
    if s != [] && s[0] >= 0 && IsAlpha(s[0]) {
      BarewordKind(s[1..], tok + [s[0]]);
    }
  }

  lemma {:induction false} MembersLeave(lib: Libc, s: Input, acc: seq<Member>)
    requires NoNul(s)
    ensures LeavesTail(s, Members(lib, s, acc)) && StopsClosed(s, Members(lib, s, acc))
    decreases |s|, 1
  {
    hide NoNul, Element, Terminal, Closed, IsTail;
    ElementLeaves(lib, s);
    match Element(lib, s) {
      case Failed(_) =>
      case Parsed(key, stop, any, rest) =>
        if !any && stop == RBRACE {
          var k := BehindStop(s, stop, rest);
          ClosedBehind(JObject(acc), s, k);
        } else if stop == COLON && key.JString? {
          var k := BehindStop(s, stop, rest);
          ElementLeaves(lib, rest);
          match Element(lib, rest) {
            case Failed(_) =>
            case Parsed(v, stop1, any1, rest1) =>
              var acc1 := acc + [Member(key.text, v)];
              if stop1 == COMMA && any1 {
                var l := BehindStop(rest, stop1, rest1);
                assert s[k + l..] == rest1;
                MembersLeave(lib, rest1, acc1);
                TailOfTail(s, k + l, Members(lib, rest1, acc1));
                ClosedTail(s, k + l, Members(lib, rest1, acc1));
              } else if stop1 == RBRACE && any1 {
                var l := BehindStop(rest, stop1, rest1);
                assert s[k + l..] == rest1 && s[k + l - 1] == rest[l - 1];
                ClosedBehind(JObject(acc1), s, k + l);
              }
          }
        }
    }
  }

  lemma {:induction false} ItemsLeave(lib: Libc, s: Input, acc: seq<Json>)
    requires NoNul(s)
    ensures LeavesTail(s, Items(lib, s, acc)) && StopsClosed(s, Items(lib, s, acc))
    decreases |s|, 1
  {
    hide NoNul, Element, Terminal, Closed, IsTail;
    ElementLeaves(lib, s);
    match Element(lib, s) {
      case Failed(_) =>
      case Parsed(v, stop, any, rest) =>
        var acc1 := if any then acc + [v] else acc;
        if stop == COMMA {
          var k := BehindStop(s, stop, rest);
          ItemsLeave(lib, rest, acc1);
          TailOfTail(s, k, Items(lib, rest, acc1));
          ClosedTail(s, k, Items(lib, rest, acc1));
        } else if stop == RBRACKET {
          var k := BehindStop(s, stop, rest);
          ClosedBehind(JArray(acc1), s, k);
        }
    }
  }

  // --- Whole texts --------------------------------------------------------------------------------

  // A closing delimiter or white space ends no number or bareword.
  lemma ClosedIsSolid(s: Input)
    requires Closed(s)
    ensures Solid(Outside, s)
  {
  }

  lemma SpaceOnly(v: Json, q: Input)
    requires NoNul(q) && Terminal(v, q).Parsed? && Terminal(v, q).stop == 0
    ensures AllSpace(q)
  {
    TerminalTail(v, q);
  }

  /** If a text is accepted, then what is left of it when it is cut off is reported as incomplete, unless only white
      space is missing, or the cut leaves a number or bareword at the end. */
  lemma CutOffIncomplete(lib: Libc, p: Input, q: Input)
    requires NoNul(p) && NoNul(q) && Solid(Outside, p) && ParseText(lib, p + q).Ok?
    ensures ParseText(lib, p) == Err(Incomplete) || (AllSpace(q) && ParseText(lib, p) == ParseText(lib, p + q))
  {
    hide Element, NoNul, Solid, AllSpace, Terminal;
    ElementExtends(lib, p, q);
    ElementLeaves(lib, p);
    if Element(lib, p).Parsed? && Element(lib, p).stop == 0 {
      SpaceOnly(Element(lib, p).value, q);
      TerminalValue(Element(lib, p).value, q);
    }
  }

  lemma TerminalValue(v: Json, q: Input)
    requires Terminal(v, q).Parsed?
    ensures Terminal(v, q).value == v && Terminal(v, q).any
  {
  }

  /** An array, object or string is accepted only when it is closed: of two texts that begin alike, both accepted and
      the shorter one such a value, the longer one has more white space. */
  lemma ClosedOnce(lib: Libc, p: Input, q: Input)
    requires NoNul(p) && NoNul(q) && ParseText(lib, p + q).Ok?
    requires ParseText(lib, p).Ok? && Delimited(ParseText(lib, p).value)
    ensures AllSpace(q)
  {
    hide Element, NoNul, Solid, AllSpace, Closed;
    ElementLeaves(lib, p);
    ClosedIsSolid(p);
    CutOffIncomplete(lib, p, q);
  }

  /** Behind an accepted array, object or string, anything but white space is extra text. */
  lemma ExtraText(lib: Libc, p: Input, c: int, q: Input)
    requires NoNul(p) && 0 < c < 0x8000_0000 && !IsSpace(c)
    requires ParseText(lib, p).Ok? && Delimited(ParseText(lib, p).value)
    ensures ParseText(lib, p + ([c] + q)) == Err(Extra)
  {
    hide Element, NoNul, Solid, Closed;
    ElementLeaves(lib, p);
    ClosedIsSolid(p);
    ElementExtends(lib, p, [c] + q);
    StopsAt(Element(lib, p).value, c, q);
  }

  // --- Printed text -------------------------------------------------------------------------------

  lemma {:induction false} QuotedKind(s: Input, tok: Text)
    ensures Quoted(s, tok).Parsed? ==> Quoted(s, tok).value.JString?
    decreases |s|
  {
    hide Unescape;
    if |s| > 1 && s[0] == BACKSLASH && s[1] >= 0 {
      QuotedKind(s[2..], tok + if s[1] == QUOTE then [QUOTE] else [BACKSLASH, s[1]]);
    } else if s != [] && s[0] >= 0 && s[0] != BACKSLASH && s[0] != QUOTE {
      QuotedKind(s[1..], tok + [s[0]]);
    }
  }

  lemma {:induction false} MembersKind(lib: Libc, s: Input, acc: seq<Member>)
    ensures Members(lib, s, acc).Parsed? ==> Members(lib, s, acc).value.JObject?
    decreases |s|
  {
    hide Element, Terminal;
    var k := Element(lib, s);
    if k.Parsed? && k.stop == COLON && k.value.JString? {
      var e := Element(lib, k.rest);
      if e.Parsed? && e.stop == COMMA {
        MembersKind(lib, e.rest, acc + [Member(k.value.text, e.value)]);
      }
    }
  }

  lemma {:induction false} ItemsKind(lib: Libc, s: Input, acc: seq<Json>)
    ensures Items(lib, s, acc).Parsed? ==> Items(lib, s, acc).value.JArray?
    decreases |s|
  {
    hide Element, Terminal;
    var e := Element(lib, s);
    if e.Parsed? && e.stop == COMMA {
      ItemsKind(lib, e.rest, if e.any then acc + [e.value] else acc);
    }
  }

  lemma OpenedKind(lib: Libc, s: Input)
    requires s != [] && s[0] in {LBRACKET, LBRACE, QUOTE}
    ensures ParseText(lib, s).Ok? ==> Delimited(ParseText(lib, s).value)
  {
    hide Members, Items, Quoted;
    QuotedKind(s[1..], []);
    MembersKind(lib, s[1..], []);
    ItemsKind(lib, s[1..], []);
  }

  lemma {:induction false} ExpandedNoNul(t: Text, expand: bool)
    requires JsonPrint.Printable(t, expand)
    ensures NoNul(Expanded(t, expand))
  {
    hide Hex4;
    if t != [] {
      ExpandedNoNul(t[1..], expand);
      EscapedNoNul(t[0], expand);
    }
  }

  lemma EscapedNoNul(c: Ucs4, expand: bool)
    requires expand ==> c < 0x11_0000
    ensures NoNul(Escaped(c, expand))
  {
    hide Hex4, LeadOf, TrailOf;
    if expand && c >= 0x1_0000 {
      SurrogateWords(c);
    }
  }

  lemma IntTextNoNul(i: int)
    ensures NoNul(IntText(i))
  {
    hide Digits;
  }

  lemma LayoutNoNul(o: Options, n: nat, last: bool)
    ensures NoNul(Newline(o)) && NoNul(Pad(n)) && NoNul(Separator(last))
  {
  }

  lemma JoinNoNul(a: Input, b: Input)
    requires NoNul(a) && NoNul(b)
    ensures NoNul(a + b)
  {
  }

  // Printed text holds no NUL.
  lemma {:induction false} PrintNoNul(lib: Libc, j: Json, o: Options, double: real -> Text, indent: nat)
    requires Exact(lib, j) && AllPrintable(j, o.expand)
    ensures NoNul(Print(j, o, double, indent))
    decreases j, 1
  {
    hide NoNul, Pad, Newline, PrintItems, PrintMembers, IntText, Expanded;
    match j {
      case JInt(i) => IntTextNoNul(i);
      case JString(t) =>
        ExpandedNoNul(t, o.expand);
        Single(QUOTE);
        JoinNoNul(Expanded(t, o.expand), [QUOTE]);
        JoinNoNul([QUOTE], Expanded(t, o.expand) + [QUOTE]);
      case JArray(items) =>
        ItemsNoNul(lib, items, o, double, Inner(o, indent));
        BracketsNoNul(o, PrintItems(items, o, double, Inner(o, indent)), 2 * Outer(o, indent), LBRACKET, RBRACKET);
      case JObject(members) =>
        MembersNoNul(lib, members, o, double, Inner(o, indent));
        BracketsNoNul(o, PrintMembers(members, o, double, Inner(o, indent)), 2 * Outer(o, indent), LBRACE, RBRACE);
      case _ => WordsNoNul();
    }
  }

  lemma Single(c: Ucs4)
    requires c != 0
    ensures NoNul([c])
  {
  }

  lemma WordsNoNul()
    ensures NoNul(U_NULL) && NoNul(U_TRUE) && NoNul(U_FALSE)
  {
  }

  lemma BracketsNoNul(o: Options, body: Text, pad: nat, open_: Ucs4, close: Ucs4)
    requires NoNul(body) && open_ != 0 && close != 0
    ensures NoNul([open_] + (Newline(o) + (body + (Pad(pad) + [close]))))
  {
    hide NoNul, Pad, Newline;
    LayoutNoNul(o, pad, true);
    Single(open_);
    Single(close);
    JoinNoNul(Pad(pad), [close]);
    JoinNoNul(body, Pad(pad) + [close]);
    JoinNoNul(Newline(o), body + (Pad(pad) + [close]));
    JoinNoNul([open_], Newline(o) + (body + (Pad(pad) + [close])));
  }

  lemma LineNoNul(o: Options, pad: nat, x: Text, last: bool, rest: Text)
    requires NoNul(x) && NoNul(rest)
    ensures NoNul(Pad(pad) + (x + (Separator(last) + (Newline(o) + rest))))
  {
    hide NoNul, Pad, Newline, Separator;
    LayoutNoNul(o, pad, last);
    JoinNoNul(Newline(o), rest);
    JoinNoNul(Separator(last), Newline(o) + rest);
    JoinNoNul(x, Separator(last) + (Newline(o) + rest));
    JoinNoNul(Pad(pad), x + (Separator(last) + (Newline(o) + rest)));
  }

  lemma {:induction false} ItemsNoNul(lib: Libc, items: seq<Json>, o: Options, double: real -> Text, indent: nat)
    requires forall i :: 0 <= i < |items| ==> Exact(lib, items[i]) && AllPrintable(items[i], o.expand)
    ensures NoNul(PrintItems(items, o, double, indent))
    decreases items, 0
  {
    hide NoNul, Print, Exact, AllPrintable, Pad, Newline, Separator;
    if items == [] {
      EmptyNoNul();
    } else {
      PrintNoNul(lib, items[0], o, double, indent);
      ItemsNoNul(lib, items[1..], o, double, indent);
      LineNoNul(o, 2 * indent, Print(items[0], o, double, indent), |items| == 1,
                PrintItems(items[1..], o, double, indent));
    }
  }

  lemma EmptyNoNul()
    ensures NoNul([])
  {
  }

  lemma NameNoNul(t: Text, o: Options)
    requires JsonPrint.Printable(t, o.expand)
    ensures NoNul(Name(t, o))
  {
    hide Expanded;
    ExpandedNoNul(t, o.expand);
  }

  lemma {:induction false} MembersNoNul(lib: Libc, members: seq<Member>, o: Options, double: real -> Text, indent: nat)
    requires forall i :: 0 <= i < |members| ==>
               && Exact(lib, members[i].value) && JsonPrint.Printable(members[i].key, o.expand)
               && AllPrintable(members[i].value, o.expand)
    ensures NoNul(PrintMembers(members, o, double, indent))
    decreases members, 0
  {
    hide NoNul, Print, Exact, AllPrintable, JsonPrint.Printable, Pad, Newline, Separator, Name;
    if members == [] {
      EmptyNoNul();
    } else {
      var m := members[0];
      NameNoNul(m.key, o);
      PrintNoNul(lib, m.value, o, double, indent);
      MembersNoNul(lib, members[1..], o, double, indent);
      var value, rest := Print(m.value, o, double, indent), PrintMembers(members[1..], o, double, indent);
      JoinNoNul(Name(m.key, o), value);
      LineNoNul(o, 2 * indent, Name(m.key, o) + value, |members| == 1, rest);
      Assoc(Name(m.key, o), value, Separator(|members| == 1) + (Newline(o) + rest));
    }
  }

  // Printed arrays, objects and strings begin and end with their delimiters.
  lemma PrintedDelimiters(lib: Libc, j: Json, o: Options, double: real -> Text)
    requires Delimited(j) && Exact(lib, j) && AllPrintable(j, o.expand)
    ensures var t := Print(j, o, double, 0);
            |t| > 1 && t[0] in {LBRACKET, LBRACE, QUOTE} && t[|t| - 1] in {RBRACKET, RBRACE, QUOTE}
  {
    hide PrintItems, PrintMembers, Expanded, Pad, Newline, Exact;
  }

  /** The bytes printed for an array, object or string, in either layout, are not accepted when they are cut off
      anywhere; and the error is that they are incomplete, unless the cut leaves a number or bareword at the
      end. */
  lemma PrintedCutOff(lib: Libc, j: Json, o: Options, double: real -> Text, k: nat)
    requires Delimited(j) && Exact(lib, j) && AllPrintable(j, o.expand)
    requires k < |Print(j, o, double, 0)|
    ensures var p, r := Print(j, o, double, 0)[..k], Parse(lib, EncodeText(Print(j, o, double, 0)[..k]));
            r.Err? && (Solid(Outside, p) ==> r == Err(Incomplete))
  {
    hide Print, Element, NoNul, Solid, AllSpace, Exact, AllPrintable, Delimited, EncodeText, DecodeText, Terminal;
    var t := Print(j, o, double, 0);
    var p, q := t[..k], t[k..];
    assert t == p + q;
    TextRoundTrip(p);
    TextRoundTrip(t);
    ParsePrinted(lib, j, o, double);
    PrintNoNul(lib, j, o, double, 0);
    PrintedDelimiters(lib, j, o, double);
    PartsNoNul(t, k);
    NotAllSpace(t, k);
    if Solid(Outside, p) {
      CutOffIncomplete(lib, p, q);
    }
    if k == 0 {
      EmptyIncomplete(lib);
    } else {
      OpenedKind(lib, p);
      if ParseText(lib, p).Ok? {
        ClosedOnce(lib, p, q);
      }
    }
  }

  lemma EmptyIncomplete(lib: Libc)
    ensures ParseText(lib, []) == Err(Incomplete)
  {
  }

  lemma PartsNoNul(t: Text, k: nat)
    requires k <= |t| && NoNul(t)
    ensures NoNul(t[..k]) && NoNul(t[k..])
  {
  }

  lemma NotAllSpace(t: Text, k: nat)
    requires k < |t| && t[|t| - 1] in {RBRACKET, RBRACE, QUOTE}
    ensures !AllSpace(t[k..])
  {
    var q := t[k..];
    assert q[|q| - 1] == t[|t| - 1];
  }

  // Inside a string every cut is of that kind.
  lemma InsideIsSolid(s: Input)
    requires Scan(Outside, s) != Outside
    ensures Solid(Outside, s)
  {
  }

  /** A NUL ends the text: whatever is behind it is not looked at. */
  lemma NulEndsText(lib: Libc, j: Json, p: Input, q: Input)
    requires NoNul(p) && ParseText(lib, p) == Ok(j) && Delimited(j)
    ensures ParseText(lib, p + ([0] + q)) == Ok(j)
  {
    hide Element, NoNul, Solid, Closed;
    ElementLeaves(lib, p);
    ClosedIsSolid(p);
    ElementExtends(lib, p, [0] + q);
    assert ([0] + q)[0] == 0 && !IsSpace(0);
  }
}
