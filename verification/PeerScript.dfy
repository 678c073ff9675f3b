/**
 The command framing of a script socket (do_push, run_next, peer_input, peer_done, Common/peerscript.c:209-383,
 474-506): lines become commands one at a time, and a JSON text may extend over several lines.
 */
module PeerScript {
  import opened Bytes

  const NL: byte := 0x0A
  const CR: byte := 0x0D

  predicate IsSpace(c: byte) { c == 0x20 || 0x09 <= c <= 0x0D }

  /** How commands are told: whether the peer is interactive, and which JSON texts are incomplete. */
  datatype Rule = Rule(interactive: bool, incomplete: seq<byte> -> bool)

  function SkipSpace(s: seq<byte>): seq<byte>
  {
    if s != [] && IsSpace(s[0]) then SkipSpace(s[1..]) else s
  }

  // do_push: whether the text is a command, or the beginning of a JSON text.
  predicate Complete(rule: Rule, text: seq<byte>)
  {
    var s := SkipSpace(text);
    rule.interactive || s == [] || s[0] !in {0x7B, 0x5B, 0x22} || !rule.incomplete(s)
  }

  // The end of the first command in the buffer that ends at or after a position.
  function FirstCommand(rule: Rule, buf: seq<byte>, from: nat): (r: Option<nat>)
    ensures r.Some? ==> from <= r.value < |buf| && buf[r.value] == NL && Complete(rule, buf[..r.value])
    decreases |buf| - from
  {
    if from >= |buf| then None
    else if buf[from] == NL && Complete(rule, buf[..from]) then Some(from)
    else FirstCommand(rule, buf, from + 1)
  }

  /** The commands in a stream of bytes. */
  function Commands(rule: Rule, s: seq<byte>): seq<seq<byte>>
    decreases |s|
  {
    match FirstCommand(rule, s, 0)
    case None => []
    case Some(i) => [s[..i]] + Commands(rule, s[i + 1..])
  }

  // Commands with their newlines.
  function Lines(commands: seq<seq<byte>>): seq<byte>
  {
    if commands == [] then [] else commands[0] + ([NL] + Lines(commands[1..]))
  }

  function WithoutCrs(s: seq<byte>): seq<byte>
  {
    if s == [] then [] else (if s[0] == CR then [] else [s[0]]) + WithoutCrs(s[1..])
  }

  // --- What these functions mean ----------------------------------------------------------------------

  // What is left holds no CR, and without CRs everything is left.
  lemma {:induction false} WithoutCrsMeans(s: seq<byte>)
    ensures forall i :: 0 <= i < |WithoutCrs(s)| ==> WithoutCrs(s)[i] != 0x0D
    ensures (forall i :: 0 <= i < |s| ==> s[i] != 0x0D) ==> WithoutCrs(s) == s
  {
    if s != [] {
      WithoutCrsMeans(s[1..]);
    }
  }

  /** A CR is dropped wherever it is, and the bytes around it stay as they are. */
  lemma CrDropped(s: seq<byte>, t: seq<byte>)
    ensures WithoutCrs(s + ([0x0D] + t)) == WithoutCrs(s) + WithoutCrs(t)
    ensures forall c: byte :: c != 0x0D ==> WithoutCrs(s + ([c] + t)) == WithoutCrs(s) + ([c] + WithoutCrs(t))
  {
    WithoutCrsAppend(s, [0x0D] + t);
    assert ([0x0D] + t)[1..] == t && [] + WithoutCrs(t) == WithoutCrs(t);
    forall c: byte | c != 0x0D
      ensures WithoutCrs(s + ([c] + t)) == WithoutCrs(s) + ([c] + WithoutCrs(t))
    {
      WithoutCrsAppend(s, [c] + t);
      assert ([c] + t)[1..] == t;
    }
  }

  lemma {:induction false} SkipSpaceMeans(s: seq<byte>) returns (i: nat)
    ensures i <= |s| && SkipSpace(s) == s[i..] && (forall j :: 0 <= j < i ==> IsSpace(s[j]))
    ensures i < |s| ==> !IsSpace(s[i])
  {
    i := 0;
    if s != [] && IsSpace(s[0]) {
      var k := SkipSpaceMeans(s[1..]);
      i := k + 1;
      assert s[1..][k..] == s[i..];
      assert i < |s| ==> s[1..][k] == s[i];
      assert forall j :: 0 < j < i ==> s[j] == s[1..][j - 1];
    }
  }

  /** A text is held back just when the peer is not interactive and its first character that is no white space, a
      blank or one of 09 to 0D, is a brace, bracket or quote that begins an incomplete JSON text. */
  lemma HeldBack(rule: Rule, text: seq<byte>)
    ensures !Complete(rule, text) <==>
            !rule.interactive && exists i :: 0 <= i < |text| && BeginsIncomplete(rule, text, i)
  {
    var k := SkipSpaceMeans(text);
    forall i | 0 <= i < |text| && BeginsIncomplete(rule, text, i) ensures i == k {
    }
    if !Complete(rule, text) {
      assert BeginsIncomplete(rule, text, k);
    }
  }

  predicate BeginsIncomplete(rule: Rule, text: seq<byte>, i: nat)
    requires i < |text|
  {
    && (forall j :: 0 <= j < i ==> text[j] == 0x20 || 0x09 <= text[j] <= 0x0D)
    && text[i] in {0x7B, 0x5B, 0x22} && rule.incomplete(text[i..])
  }

  /** The first command ends at the first newline in front of which nothing is held back. */
  lemma {:induction false} FirstCommandMeans(rule: Rule, buf: seq<byte>, from: nat)
    ensures match FirstCommand(rule, buf, from)
            case None => forall i :: from <= i < |buf| && buf[i] == 0x0A ==> !Complete(rule, buf[..i])
            case Some(k) =>
              && from <= k < |buf| && buf[k] == 0x0A && Complete(rule, buf[..k])
              && forall i :: from <= i < k && buf[i] == 0x0A ==> !Complete(rule, buf[..i])
    decreases |buf| - from
  {
    hide Complete;
    if from < |buf| && !(buf[from] == NL && Complete(rule, buf[..from])) {
      FirstCommandMeans(rule, buf, from + 1);
    }
  }

  // --- Facts about commands ---------------------------------------------------------------------------

  lemma {:induction false} FirstCommandExtends(rule: Rule, buf: seq<byte>, more: seq<byte>, from: nat)
    requires from <= |buf|
    ensures FirstCommand(rule, buf + more, from)
            == (match FirstCommand(rule, buf, from)
                case Some(i) => Some(i)
                case None => FirstCommand(rule, buf + more, |buf|))
    decreases |buf| - from
  {
    hide Complete;
    if from < |buf| {
      assert (buf + more)[from] == buf[from] && (buf + more)[..from] == buf[..from];
      FirstCommandExtends(rule, buf, more, from + 1);
    }
  }

  // A text that is a command whenever its newline has arrived.
  predicate IsCommand(rule: Rule, c: seq<byte>)
  {
    FirstCommand(rule, c + [NL], 0) == Some(|c|)
  }

  lemma CommandFirst(rule: Rule, c: seq<byte>, rest: seq<byte>)
    requires IsCommand(rule, c)
    ensures Commands(rule, c + ([NL] + rest)) == [c] + Commands(rule, rest)
  {
    hide Complete;
    var s := c + ([NL] + rest);
    assert s == (c + [NL]) + rest;
    FirstCommandExtends(rule, c + [NL], rest, 0);
    assert s[..|c|] == c && s[|c| + 1..] == rest;
  }

  lemma FirstIsCommand(rule: Rule, buf: seq<byte>)
    requires FirstCommand(rule, buf, 0).Some?
    ensures IsCommand(rule, buf[..FirstCommand(rule, buf, 0).value])
  {
    hide Complete;
    var i := FirstCommand(rule, buf, 0).value;
    assert buf == (buf[..i] + [NL]) + buf[i + 1..];
    FirstCommandExtends(rule, buf[..i] + [NL], buf[i + 1..], 0);
  }

  /** The commands of a stream that begins with commands. */
  lemma {:induction false} CommandsOfLines(rule: Rule, done: seq<seq<byte>>, rest: seq<byte>)
    requires forall k :: 0 <= k < |done| ==> IsCommand(rule, done[k])
    ensures Commands(rule, Lines(done) + rest) == done + Commands(rule, rest)
  {
    hide IsCommand, Commands;
    if done == [] {
      assert [] + rest == rest && [] + Commands(rule, rest) == Commands(rule, rest);
    } else {
      var more := Lines(done[1..]) + rest;
      assert Lines(done) + rest == done[0] + ([NL] + more);
      CommandFirst(rule, done[0], more);
      CommandsOfLines(rule, done[1..], rest);
      assert [done[0]] + (done[1..] + Commands(rule, rest)) == done + Commands(rule, rest);
    }
  }

  lemma {:induction false} LinesAppend(done: seq<seq<byte>>, command: seq<byte>, rest: seq<byte>)
    ensures Lines(done + [command]) + rest == Lines(done) + (command + ([NL] + rest))
  {
    if done == [] {
      assert [] + [command] == [command] && [command][1..] == [];
      assert Lines([command]) == command + ([NL] + []);
    } else {
      LinesAppend(done[1..], command, rest);
      assert (done + [command])[1..] == done[1..] + [command];
      assert Lines(done + [command]) + rest
          == done[0] + ([NL] + (Lines(done[1..] + [command]) + rest));
    }
  }

  // --- The state machine --------------------------------------------------------------------------------

  /** A peer: the buffered bytes, the position up to which they hold no command, whether a command is running,
      and the history: the commands handed out and the bytes received, without CRs. */
  datatype State = State(buf: seq<byte>, pjOffset: nat, busy: bool, handed: seq<seq<byte>>, received: seq<byte>)

  const START := State([], 0, false, [], [])

  datatype Event = Input(data: seq<byte>) | CommandDone

  // Input is enabled just when no command is running.
  predicate Allowed(st: State, e: Event) { e.CommandDone? == st.busy }

  // The end of the last JSON text that was found incomplete.
  function LastLine(buf: seq<byte>, from: nat): (r: nat)
    requires from <= |buf|
    ensures from <= r <= |buf|
    decreases |buf| - from
  {
    if from == |buf| then from
    else
      var r := LastLine(buf, from + 1);
      if r == from + 1 && buf[from] != NL then from else r
  }

  // run_next
  function RunNext(rule: Rule, st: State): State
    requires st.pjOffset <= |st.buf|
  {
    match FirstCommand(rule, st.buf, st.pjOffset)
    case None => st.(pjOffset := LastLine(st.buf, st.pjOffset), busy := false)
    case Some(i) =>
      st.(buf := st.buf[i + 1..], pjOffset := 0, busy := true, handed := st.handed + [st.buf[..i]])
  }

  // peer_input and peer_done
  function Next(rule: Rule, st: State, e: Event): State
    requires st.pjOffset <= |st.buf| && Allowed(st, e)
  {
    match e
    case Input(data) =>
      RunNext(rule, st.(buf := st.buf + WithoutCrs(data), received := st.received + WithoutCrs(data)))
    case CommandDone => RunNext(rule, st)
  }

  /** What every step keeps: bytes handed out, their newlines and bytes still buffered add up to the bytes
      received; and when no command is running, the buffer holds none. */
  predicate Inv(rule: Rule, st: State)
  {
    && st.pjOffset <= |st.buf|
    && st.received == Lines(st.handed) + st.buf
    && (forall k :: 0 <= k < |st.handed| ==> IsCommand(rule, st.handed[k]))
    && FirstCommand(rule, st.buf, 0) == FirstCommand(rule, st.buf, st.pjOffset)
    && (!st.busy ==> FirstCommand(rule, st.buf, 0) == None)
  }

  lemma {:induction false} LastLineSkips(rule: Rule, buf: seq<byte>, from: nat)
    requires from <= |buf| && FirstCommand(rule, buf, from) == None
    ensures FirstCommand(rule, buf, LastLine(buf, from)) == None
    decreases |buf| - from
  {
    if from < |buf| {
      LastLineSkips(rule, buf, from + 1);
    }
  }

  lemma RunNextKeeps(rule: Rule, st: State)
    requires Inv(rule, st.(busy := true))
    ensures Inv(rule, RunNext(rule, st))
  {
    hide Complete, IsCommand;
    match FirstCommand(rule, st.buf, st.pjOffset) {
      case None => LastLineSkips(rule, st.buf, st.pjOffset);
      case Some(i) =>
        var rest := st.buf[i + 1..];
        FirstIsCommand(rule, st.buf);
        LinesAppend(st.handed, st.buf[..i], rest);
        assert st.buf == st.buf[..i] + ([NL] + rest);
    }
  }

  lemma NextKeeps(rule: Rule, st: State, e: Event)
    requires Inv(rule, st) && Allowed(st, e)
    ensures Inv(rule, Next(rule, st, e))
  {
    hide Complete, Lines, FirstCommand, IsCommand;
    if e.Input? {
      var more := WithoutCrs(e.data);
      assert Lines(st.handed) + (st.buf + more) == st.received + more;
      FirstCommandExtends(rule, st.buf, more, 0);
      FirstCommandExtends(rule, st.buf, more, st.pjOffset);
      RunNextKeeps(rule, st.(buf := st.buf + more, received := st.received + more));
    } else {
      RunNextKeeps(rule, st);
    }
  }

  // --- Runs ---------------------------------------------------------------------------------------------

  // A run of allowed events.
  predicate IsRun(rule: Rule, st: State, es: seq<Event>)
    requires Inv(rule, st)
    decreases |es|
  {
    es == []
    || (Allowed(st, es[0])
        && (NextKeeps(rule, st, es[0]); IsRun(rule, Next(rule, st, es[0]), es[1..])))
  }

  function Run(rule: Rule, st: State, es: seq<Event>): State
    requires Inv(rule, st) && IsRun(rule, st, es)
    decreases |es|
  {
    if es == [] then st
    else NextKeeps(rule, st, es[0]); Run(rule, Next(rule, st, es[0]), es[1..])
  }

  // All bytes of a run.
  function BytesOf(es: seq<Event>): seq<byte>
  {
    if es == [] then []
    else (if es[0].Input? then es[0].data else []) + BytesOf(es[1..])
  }

  lemma {:induction false} WithoutCrsAppend(s: seq<byte>, t: seq<byte>)
    ensures WithoutCrs(s + t) == WithoutCrs(s) + WithoutCrs(t)
  {
    if s == [] {
      assert s + t == t && [] + WithoutCrs(t) == WithoutCrs(t);
    } else {
      WithoutCrsAppend(s[1..], t);
      assert (s + t)[1..] == s[1..] + t;
      var h := if s[0] == CR then [] else [s[0]];
      Assoc(h, WithoutCrs(s[1..]), WithoutCrs(t));
    }
  }

  lemma {:induction false} RunKeeps(rule: Rule, st: State, es: seq<Event>)
    requires Inv(rule, st) && IsRun(rule, st, es)
    ensures Inv(rule, Run(rule, st, es))
    ensures Run(rule, st, es).received == st.received + WithoutCrs(BytesOf(es))
    decreases |es|
  {
    hide RunNext, Commands, Lines, FirstCommand, IsCommand;
    if es == [] {
      assert st.received + [] == st.received;
    } else {
      NextKeeps(rule, st, es[0]);
      var st1 := Next(rule, st, es[0]);
      RunKeeps(rule, st1, es[1..]);
      ReceivedStep(rule, st, es[0]);
      var data := if es[0].Input? then es[0].data else [];
      WithoutCrsAppend(data, BytesOf(es[1..]));
      assert st.received + (WithoutCrs(data) + WithoutCrs(BytesOf(es[1..])))
          == (st.received + WithoutCrs(data)) + WithoutCrs(BytesOf(es[1..]));
    }
  }

  lemma ReceivedStep(rule: Rule, st: State, e: Event)
    requires st.pjOffset <= |st.buf| && Allowed(st, e)
    ensures Next(rule, st, e).received == st.received + WithoutCrs(if e.Input? then e.data else [])
  {
    assert st.received + [] == st.received;
  }

  lemma StartInv(rule: Rule)
    ensures Inv(rule, START)
  {
    var none: seq<byte> := [];
    assert none + none == none;
  }

  /** The commands handed out depend on the bytes received without CRs alone, however they came in pieces: they
      are the commands of that stream, all of them once no command is running. */
  lemma CommandsHandedOut(rule: Rule, es: seq<Event>)
    requires Inv(rule, START) && IsRun(rule, START, es)
    ensures var st := Run(rule, START, es);
            var all := Commands(rule, WithoutCrs(BytesOf(es)));
            && st.handed <= all
            && (!st.busy ==> st.handed == all)
            && WithoutCrs(BytesOf(es)) == Lines(st.handed) + st.buf
  {
    hide Lines, IsRun, Run, IsCommand, FirstCommand;
    RunKeeps(rule, START, es);
    assert [] + WithoutCrs(BytesOf(es)) == WithoutCrs(BytesOf(es));
    var st := Run(rule, START, es);
    CommandsOfLines(rule, st.handed, st.buf);
    assert st.handed + [] == st.handed;
  }

  /** Two runs over the same bytes, in whatever pieces and whenever the commands end, hand out the same commands
      and buffer the same bytes as soon as neither has a command running. */
  lemma ChunkingIrrelevant(rule: Rule, es1: seq<Event>, es2: seq<Event>)
    requires Inv(rule, START) && IsRun(rule, START, es1) && IsRun(rule, START, es2)
    requires WithoutCrs(BytesOf(es1)) == WithoutCrs(BytesOf(es2))
    requires !Run(rule, START, es1).busy && !Run(rule, START, es2).busy
    ensures Run(rule, START, es1).handed == Run(rule, START, es2).handed
    ensures Run(rule, START, es1).buf == Run(rule, START, es2).buf
  {
    hide Run, IsRun, Commands, Lines;
    CommandsHandedOut(rule, es1);
    CommandsHandedOut(rule, es2);
    var s1, s2 := Run(rule, START, es1), Run(rule, START, es2);
    assert s1.buf == (Lines(s1.handed) + s1.buf)[|Lines(s1.handed)|..];
    assert s2.buf == (Lines(s2.handed) + s2.buf)[|Lines(s2.handed)|..];
  }

  // --- The peer -----------------------------------------------------------------------------------------

  class Peer {
    const rule: Rule
    var buf: seq<byte>
    var pjOffset: nat
    // Whether the socket is listened to.
    var listening: bool
    ghost var st: State

    constructor (rule: Rule)
      ensures Valid() && this.rule == rule && st == START
    {
      this.rule, buf, pjOffset, listening, st := rule, [], 0, true, START;
      new;
      StartInv(rule);
    }

    /** At most one command is outstanding: the socket is listened to just when none is. */
    ghost predicate Valid()
      reads this
    {
      st.buf == buf && st.pjOffset == pjOffset && st.busy != listening && Inv(rule, st)
    }

    // do_push; true if the text is handed out as a command
    method DoPush(text: seq<byte>) returns (ok: bool)
      ensures ok <==> Complete(rule, text)
    {
      var i := 0;
      while i < |text| && IsSpace(text[i])
        invariant i <= |text| && SkipSpace(text[i..]) == SkipSpace(text)
      {
        assert text[i..][1..] == text[i + 1..];
        i := i + 1;
      }
      var s := text[i..];
      if !rule.interactive && s != [] && (s[0] == 0x7B || s[0] == 0x5B || s[0] == 0x22) {
        ok := !rule.incomplete(s);
      } else {
        ok := true;
      }
    }

    // run_next
    method Take() returns (ok: bool)
      requires pjOffset <= |buf| && st.buf == buf && st.pjOffset == pjOffset
      modifies this`buf, this`pjOffset, this`st
      ensures st == RunNext(rule, old(st)) && buf == st.buf && pjOffset == st.pjOffset
      ensures ok == st.busy
    {
      hide Complete;
      ghost var spec := FirstCommand(rule, buf, pjOffset);
      ghost var last := LastLine(buf, pjOffset);
      var cmdlen: nat := 0;
      while true
        invariant pjOffset <= |buf| && buf == old(buf) && st == old(st)
        invariant spec == FirstCommand(rule, buf, pjOffset) && last == LastLine(buf, pjOffset)
        decreases |buf| - pjOffset
      {
        cmdlen := pjOffset;
        while cmdlen < |buf| && buf[cmdlen] != NL
          invariant pjOffset <= cmdlen <= |buf|
          invariant forall k :: pjOffset <= k < cmdlen ==> buf[k] != NL
          invariant spec == FirstCommand(rule, buf, cmdlen)
        {
          cmdlen := cmdlen + 1;
        }
        if cmdlen >= |buf| {
          NoMoreLines(buf, pjOffset);
          st := RunNext(rule, st);
          return false;
        }
        LineEnds(buf, pjOffset, cmdlen);
        var pushed := DoPush(buf[..cmdlen]);
        if pushed {
          break;
        }
        pjOffset := cmdlen + 1;
      }
      pjOffset := 0;
      st := RunNext(rule, st);
      cmdlen := cmdlen + 1;
      buf := if |buf| > cmdlen then buf[cmdlen..] else [];
      return true;
    }

    // peer_input, for data that was received
    method PeerInput(data: seq<byte>)
      requires Valid() && listening
      modifies this
      ensures Valid() && st == Next(rule, old(st), Input(data))
    {
      hide Inv, Complete, Commands, FirstCommand, LastLine;
      NextKeeps(rule, st, Input(data));
      InvOffset(rule, st);
      ghost var buf0 := buf;
      assert buf0 + [] == buf0 && data[0..] == data;
      for i := 0 to |data|
        invariant buf + WithoutCrs(data[i..]) == buf0 + WithoutCrs(data)
        invariant |buf| >= |buf0| && pjOffset == old(pjOffset) && st == old(st)
      {
        assert data[i..][0] == data[i] && data[i..][1..] == data[i + 1..];
        var c := data[i];
        ghost var rest := WithoutCrs(data[i + 1..]);
        if c != CR {
          assert buf + ([c] + rest) == (buf + [c]) + rest;
          buf := buf + [c];
        } else {
          assert [] + rest == rest;
        }
      }
      assert buf + [] == buf;
      listening := false;
      st := st.(buf := buf, received := st.received + WithoutCrs(data));
      var ok := Take();
      if !ok {
        listening := true;
      }
    }

    // peer_done, for a peer that stays open
    method PeerDone() returns (finished: bool)
      requires Valid() && !listening
      modifies this
      ensures Valid() && st == Next(rule, old(st), CommandDone)
      ensures finished == listening
    {
      hide Inv, Complete, Commands, FirstCommand, LastLine;
      NextKeeps(rule, st, CommandDone);
      InvOffset(rule, st);
      var newChild := Take();
      if !newChild {
        listening := true;
      }
      finished := !newChild;
    }
  }

  lemma InvOffset(rule: Rule, st: State)
    requires Inv(rule, st)
    ensures st.pjOffset <= |st.buf|
  {
  }

  lemma {:induction false} NoMoreLines(buf: seq<byte>, from: nat)
    requires from <= |buf| && forall k :: from <= k < |buf| ==> buf[k] != NL
    ensures LastLine(buf, from) == from
    decreases |buf| - from
  {
    if from < |buf| {
      NoMoreLines(buf, from + 1);
    }
  }

  lemma {:induction false} LineEnds(buf: seq<byte>, from: nat, at: nat)
    requires from <= at < |buf| && buf[at] == NL && forall k :: from <= k < at ==> buf[k] != NL
    ensures LastLine(buf, from) == LastLine(buf, at + 1)
    decreases at - from
  {
    if from < at {
      LineEnds(buf, from + 1, at);
    }
  }
}
