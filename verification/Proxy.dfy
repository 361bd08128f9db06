/** The replay proxy: answers one command from the recorded dependencies, and serves a whole
    connection one reply per command. */
module Proxy {
  import opened Bytes
  import opened Sequences
  import opened Resp
  import opened RespLaws
  import opened RespReader
  import opened RedisCalls
  import opened Recorder

  /** The command text that requests are matched by. */
  function Folded(cmd: Command): bytes {
    Lower(Join(cmd, " "))
  }

  /** Position of the first dependency for `want`, or the number of dependencies. */
  function FirstMatch(deps: seq<Dependency>, want: bytes): (i: nat)
    ensures i <= |deps|
    ensures i < |deps| ==> Lower(deps[i].request) == want
    ensures forall j :: 0 <= j < i ==> Lower(deps[j].request) != want
  {
    if deps == [] || Lower(deps[0].request) == want then 0 else 1 + FirstMatch(deps[1..], want)
  }

  /** The bytes that answer a command. */
  function ReplyTo(deps: seq<Dependency>, cmd: Command): bytes {
    if cmd == [] then EncodeError("ERR empty command")
    else if IsAdminCommand(cmd[0]) then EncodeError("ERR unknown command '" + cmd[0] + "'")
    else
      var want := Folded(cmd);
      var i := FirstMatch(deps, want);
      if i < |deps| then EncodeReply(deps[i].response)
      else EncodeError("ERR no recorded reply for '" + want + "'")
  }

  function RepliesTo(deps: seq<Dependency>, cmds: seq<Command>): bytes {
    if cmds == [] then [] else ReplyTo(deps, cmds[0]) + RepliesTo(deps, cmds[1..])
  }

  lemma {:induction false} RepliesToSnoc(deps: seq<Dependency>, cmds: seq<Command>, cmd: Command)
    ensures RepliesTo(deps, cmds + [cmd]) == RepliesTo(deps, cmds) + ReplyTo(deps, cmd)
  {
    hide ReplyTo;
    if cmds == [] {
      assert cmds + [cmd] == [cmd];
      assert [cmd][1..] == [];
    } else {
      RepliesToSnoc(deps, cmds[1..], cmd);
      assert (cmds + [cmd])[1..] == cmds[1..] + [cmd];
    }
  }

  class Server {
    const deps: seq<Dependency>

    constructor (deps: seq<Dependency>)
      ensures this.deps == deps
    {
      this.deps := deps;
    }

    /** `reply`. */
    method Reply(cmd: Command) returns (out: bytes)
      ensures out == ReplyTo(deps, cmd)
    {
      if |cmd| == 0 {
        return EncodeError("ERR empty command");
      }
      if IsAdminCommand(cmd[0]) {
        return EncodeError("ERR unknown command '" + cmd[0] + "'");
      }
      var want := Lower(Join(cmd, " "));
      for i := 0 to |deps|
        invariant forall j :: 0 <= j < i ==> Lower(deps[j].request) != want
      {
        if Lower(deps[i].request) == want {
          return EncodeReply(deps[i].response);
        }
      }
      return EncodeError("ERR no recorded reply for '" + want + "'");
    }

    /** `handleConn` on a connection that receives `input` and accepts `writes` writes before one
        fails with only its first `part` bytes sent: one reply per command, until a read or a write
        fails. */
    method HandleConn(input: bytes, writes: nat, part: nat) returns (output: bytes)
      ensures output == Served(deps, ReadAll(input), writes, part)
    {
      hide NextCommand;
      hide ReadAll;
      hide ReplyTo;
      hide RepliesTo;
      hide Served;
      hide FirstOf;
      var r := new Reader(input);
      output := [];
      var accepted := 0;
      ghost var served: seq<Command> := [];
      NothingServed(deps, ReadAll(input));
      while true
        invariant r.Valid() && accepted == |served| <= writes
        invariant ReadAll(input) == served + ReadAll(r.Remaining())
        invariant output == RepliesTo(deps, served)
        decreases |r.Remaining()|
      {
        ReadAllStep(r.Remaining());
        var cmd := ReadCommand(r);
        if cmd.Failure? {
          ServedAll(deps, served, writes, part);
          return;
        }
        ghost var more := ReadAll(r.Remaining());
        var reply := Reply(cmd.value);
        if accepted == writes {
          ServedPartly(deps, served, cmd.value, more, part);
          return output + FirstOf(reply, part);
        }
        output := output + reply;
        accepted := accepted + 1;
        RepliesToSnoc(deps, served, cmd.value);
        Associative(served, [cmd.value], more);
        served := served + [cmd.value];
      }
    }
  }

  lemma ReadAllStep(s: bytes)
    ensures match NextCommand(s)
      case Failed(_, _) => ReadAll(s) == []
      case Got(cmd, rest) => |rest| < |s| && ReadAll(s) == [cmd] + ReadAll(rest)
  {
    hide ParseValue;
  }

  lemma NothingServed(deps: seq<Dependency>, cmds: seq<Command>)
    ensures RepliesTo(deps, []) == [] && [] + cmds == cmds
  {
  }

  lemma ServedAll(deps: seq<Dependency>, served: seq<Command>, writes: nat, part: nat)
    requires |served| <= writes
    ensures Served(deps, served + [], writes, part) == RepliesTo(deps, served)
  {
    assert served + [] == served;
  }

  /** The first `n` bytes, or all of them. */
  function FirstOf(s: bytes, n: nat): bytes {
    if n < |s| then s[..n] else s
  }

  /** What a client receives over a connection on which write number `writes` fails after `part`
      bytes: the replies in order, the last one possibly in part. */
  function Served(deps: seq<Dependency>, cmds: seq<Command>, writes: nat, part: nat): bytes {
    if writes < |cmds| then RepliesTo(deps, cmds[..writes]) + FirstOf(ReplyTo(deps, cmds[writes]), part)
    else RepliesTo(deps, cmds)
  }

  lemma ServedPartly(deps: seq<Dependency>, served: seq<Command>, cmd: Command, more: seq<Command>, part: nat)
    ensures Served(deps, served + ([cmd] + more), |served|, part) ==
      RepliesTo(deps, served) + FirstOf(ReplyTo(deps, cmd), part)
  {
    var cmds := served + ([cmd] + more);
    assert cmds[..|served|] == served && cmds[|served|] == cmd;
  }

  /** Whatever happens on the connection, the client receives a prefix of the replies. */
  lemma ServedIsAPrefix(deps: seq<Dependency>, cmds: seq<Command>, writes: nat, part: nat)
    ensures Served(deps, cmds, writes, part) <= RepliesTo(deps, cmds)
  {
    hide ReplyTo;
    if writes < |cmds| {
      RepliesToSplit(deps, cmds, writes);
    }
  }

  // ---- which recorded response answers ----

  /** The first dependency whose request equals the joined command text up to case answers a data
      command. */
  lemma FirstRecordedAnswers(deps: seq<Dependency>, cmd: Command, i: nat)
    requires IsData(cmd) && i < |deps| && EqualFold(deps[i].request, Join(cmd, " "))
    requires forall j :: 0 <= j < i ==> !EqualFold(deps[j].request, Join(cmd, " "))
    ensures ReplyTo(deps, cmd) == EncodeReply(deps[i].response)
  {
    hide EncodeReply;
    hide IsAdminCommand;
    hide EqualFold;
    FoldedMatches(deps, cmd);
    hide Lower;
    assert FirstMatch(deps, Folded(cmd)) == i;
  }

  lemma FoldedMatches(deps: seq<Dependency>, cmd: Command)
    ensures forall j :: 0 <= j < |deps| ==>
      (Lower(deps[j].request) == Folded(cmd) <==> EqualFold(deps[j].request, Join(cmd, " ")))
  {
    hide Lower;
    hide EqualFold;
    forall j | 0 <= j < |deps|
      ensures Lower(deps[j].request) == Folded(cmd) <==> EqualFold(deps[j].request, Join(cmd, " "))
    {
      FoldingExactly(deps[j].request, Join(cmd, " "));
    }
  }

  /** Every other command is refused: an empty one, a setup command, and one that was not recorded. */
  lemma OthersAreRefused(deps: seq<Dependency>, cmd: Command)
    ensures cmd == [] ==> ReplyTo(deps, cmd) == "-ERR empty command\r\n"
    ensures cmd != [] && IsAdminCommand(cmd[0]) ==>
      ReplyTo(deps, cmd) == "-ERR unknown command '" + cmd[0] + "'\r\n"
    ensures IsData(cmd) && (forall j :: 0 <= j < |deps| ==> !EqualFold(deps[j].request, Join(cmd, " "))) ==>
      ReplyTo(deps, cmd) == "-ERR no recorded reply for '" + Lower(Join(cmd, " ")) + "'\r\n"
  {
    hide *;
    if cmd == [] {
      EmptyIsRefused(deps);
    } else if IsAdminCommand(cmd[0]) {
      SetupIsRefused(deps, cmd);
    }
    if IsData(cmd) && forall j :: 0 <= j < |deps| ==> !EqualFold(deps[j].request, Join(cmd, " ")) {
      UnrecordedIsRefused(deps, cmd);
    }
  }

  lemma EmptyIsRefused(deps: seq<Dependency>)
    ensures ReplyTo(deps, []) == "-ERR empty command\r\n"
  {
  }

  lemma SetupIsRefused(deps: seq<Dependency>, cmd: Command)
    requires cmd != [] && IsAdminCommand(cmd[0])
    ensures ReplyTo(deps, cmd) == "-ERR unknown command '" + cmd[0] + "'\r\n"
  {
    hide IsAdminCommand;
    hide EncodeError;
    RefusalText("-ERR unknown command '", "ERR unknown command '", cmd[0]);
  }

  lemma UnrecordedIsRefused(deps: seq<Dependency>, cmd: Command)
    requires IsData(cmd) && forall j :: 0 <= j < |deps| ==> !EqualFold(deps[j].request, Join(cmd, " "))
    ensures ReplyTo(deps, cmd) == "-ERR no recorded reply for '" + Lower(Join(cmd, " ")) + "'\r\n"
  {
    hide IsAdminCommand;
    hide EncodeError;
    hide EncodeReply;
    hide EqualFold;
    hide Lower;
    FoldedMatches(deps, cmd);
    RefusalText("-ERR no recorded reply for '", "ERR no recorded reply for '", Folded(cmd));
  }

  lemma RefusalText(full: bytes, head: bytes, text: bytes)
    requires full == "-" + head
    ensures EncodeError(head + text + "'") == full + text + "'\r\n"
  {
    assert "'" + CRLF == "'\r\n";
    assert "-" + (head + text + "'") + CRLF == "-" + head + text + ("'" + CRLF);
  }

  // ---- every reply is an encoded display ----

  /** The display a client is meant to see for a command. */
  function DisplayFor(deps: seq<Dependency>, cmd: Command): bytes {
    if cmd == [] then ERROR_PREFIX + "ERR empty command"
    else if IsAdminCommand(cmd[0]) then ERROR_PREFIX + "ERR unknown command '" + cmd[0] + "'"
    else
      var i := FirstMatch(deps, Folded(cmd));
      if i < |deps| then deps[i].response
      else ERROR_PREFIX + "ERR no recorded reply for '" + Folded(cmd) + "'"
  }

  lemma ErrorIsADisplay(message: bytes)
    ensures EncodeError(message) == EncodeReply(ERROR_PREFIX + message)
  {
    assert (ERROR_PREFIX + message)[|ERROR_PREFIX|..] == message;
    assert (ERROR_PREFIX + message)[1] == 'e' && NIL[1] == 'n';
  }

  lemma ReplyIsADisplay(deps: seq<Dependency>, cmd: Command)
    ensures ReplyTo(deps, cmd) == EncodeReply(DisplayFor(deps, cmd))
  {
    hide EncodeReply;
    hide EncodeError;
    hide IsAdminCommand;
    hide FirstMatch;
    hide Folded;
    if cmd == [] {
      ErrorIsADisplay("ERR empty command");
    } else if IsAdminCommand(cmd[0]) {
      ErrorIsADisplay("ERR unknown command '" + cmd[0] + "'");
      PrefixQuoted("ERR unknown command '", cmd[0]);
    } else if FirstMatch(deps, Folded(cmd)) == |deps| {
      ErrorIsADisplay("ERR no recorded reply for '" + Folded(cmd) + "'");
      PrefixQuoted("ERR no recorded reply for '", Folded(cmd));
    }
  }

  lemma PrefixQuoted(head: bytes, text: bytes)
    ensures ERROR_PREFIX + (head + text + "'") == ERROR_PREFIX + head + text + "'"
  {
  }

  /** Quoting a text at the end of a message. */
  lemma QuotedNoLF(head: bytes, text: bytes)
    requires NoLF(head)
    ensures NoLF(head + text + "'") <==> NoLF(text)
    ensures NoLF(text) ==> LineSafe(head + text + "'")
  {
    if !NoLF(text) {
      var i :| 0 <= i < |text| && text[i] == '\n';
      assert (head + text + "'")[|head| + i] == '\n';
    }
  }

  /** Setup commands and empty commands always get a display that is safe on a line. */
  lemma SetupDisplaySafe(deps: seq<Dependency>, cmd: Command)
    requires !IsData(cmd)
    ensures LineSafe(DisplayFor(deps, cmd))
  {
    if cmd != [] {
      AdminNamesNoLF(cmd[0]);
      QuotedNoLF(ERROR_PREFIX + "ERR unknown command '", cmd[0]);
    }
  }

  /** When the display has no LF, in terms of the command and the recording. */
  lemma DisplayNoLF(deps: seq<Dependency>, cmd: Command)
    ensures NoLF(DisplayFor(deps, cmd)) <==>
      || !IsData(cmd)
      || (var i := FirstMatch(deps, Folded(cmd));
          if i < |deps| then NoLF(deps[i].response) else forall k :: 0 <= k < |cmd| ==> NoLF(cmd[k]))
  {
    hide IsAdminCommand;
    hide FirstMatch;
    hide Folded;
    if IsData(cmd) {
      FoldedNoLF(cmd);
      QuotedNoLF(ERROR_PREFIX + "ERR no recorded reply for '", Folded(cmd));
    } else {
      SetupDisplaySafe(deps, cmd);
    }
  }

  lemma FoldedNoLF(cmd: Command)
    ensures NoLF(Folded(cmd)) <==> forall k :: 0 <= k < |cmd| ==> NoLF(cmd[k])
  {
    CaseKeepsLF(Join(cmd, " "));
    JoinNoLF(cmd, " ");
  }

  /** A reply is exactly one RESP value if and only if no LF gets into it: from the matching
      recorded response, or from an unrecorded command that is echoed back. */
  lemma OneValuePerReplyExactly(deps: seq<Dependency>, cmd: Command)
    ensures (ParseValue(ReplyTo(deps, cmd)).Got? && ParseValue(ReplyTo(deps, cmd)).rest == []) <==>
      || !IsData(cmd)
      || (var i := FirstMatch(deps, Folded(cmd));
          if i < |deps| then NoLF(deps[i].response) else forall k :: 0 <= k < |cmd| ==> NoLF(cmd[k]))
  {
    hide ParseValue;
    hide EncodeReply;
    var d := DisplayFor(deps, cmd);
    ReplyIsADisplay(deps, cmd);
    DisplayNoLF(deps, cmd);
    assert EncodeReply(d) + [] == EncodeReply(d);
    if NoLF(d) {
      ReplyReads(d, []);
    } else {
      ReplyWithLFLeavesBytes(d, []);
    }
  }

  // ---- a whole connection stays in step ----

  /** What a client displays for everything it received. */
  function Transcript(output: bytes): seq<bytes> {
    RenderAll(ParseStream(output).values)
  }

  function DisplaysFor(deps: seq<Dependency>, cmds: seq<Command>): seq<bytes> {
    seq(|cmds|, i requires 0 <= i < |cmds| => DisplayFor(deps, cmds[i]))
  }

  lemma TranscriptStep(display: bytes, more: bytes)
    requires NoLF(display)
    ensures Transcript(EncodeReply(display) + more) == [TrimEol(display)] + Transcript(more)
    ensures ParseStream(EncodeReply(display) + more).rest == ParseStream(more).rest
  {
    hide ParseValue;
    hide EncodeReply;
    ReplyReads(display, more);
    var v := ParseValue(EncodeReply(display) + more).value;
    assert ([v] + ParseStream(more).values)[1..] == ParseStream(more).values;
  }

  /** As long as no reply carries an LF, the output is one value per command, in order, each
      showing its display less trailing CRs. */
  lemma {:induction false} ConnectionStaysInStep(deps: seq<Dependency>, cmds: seq<Command>, more: bytes)
    requires forall i :: 0 <= i < |cmds| ==> NoLF(DisplayFor(deps, cmds[i]))
    ensures var shown := seq(|cmds|, i requires 0 <= i < |cmds| => TrimEol(DisplayFor(deps, cmds[i])));
      Transcript(RepliesTo(deps, cmds) + more) == shown + Transcript(more)
    ensures ParseStream(RepliesTo(deps, cmds) + more).rest == ParseStream(more).rest
    decreases |cmds|
  {
    hide Transcript;
    hide ParseStream;
    hide ReplyTo;
    hide EncodeReply;
    hide DisplayFor;
    if cmds == [] {
      assert RepliesTo(deps, cmds) + more == more;
    } else {
      var first, left := ReplyTo(deps, cmds[0]), RepliesTo(deps, cmds[1..]) + more;
      Associative(first, RepliesTo(deps, cmds[1..]), more);
      ReplyIsADisplay(deps, cmds[0]);
      TranscriptStep(DisplayFor(deps, cmds[0]), left);
      ConnectionStaysInStep(deps, cmds[1..], more);
    }
  }

  /** The client sees exactly the intended displays, with nothing left over, if and only if every
      one of them is safe on a line. */
  lemma ConnectionIsFaithfulExactly(deps: seq<Dependency>, cmds: seq<Command>)
    ensures var output := RepliesTo(deps, cmds);
      Transcript(output) == DisplaysFor(deps, cmds) && ParseStream(output).rest == [] <==>
      forall i :: 0 <= i < |cmds| ==> LineSafe(DisplayFor(deps, cmds[i]))
  {
    hide DisplayFor;
    hide RepliesTo;
    hide ParseStream;
    hide Transcript;
    var output := RepliesTo(deps, cmds);
    if i :| 0 <= i < |cmds| && !LineSafe(DisplayFor(deps, cmds[i])) {
      var k := FirstUnsafe(DisplaysFor(deps, cmds));
      assert DisplaysFor(deps, cmds)[i] == DisplayFor(deps, cmds[i]);
      forall j | 0 <= j < k ensures LineSafe(DisplayFor(deps, cmds[j])) {
        assert DisplaysFor(deps, cmds)[j] == DisplayFor(deps, cmds[j]);
      }
      UnsafeDisplayIsNotShown(deps, cmds, k);
    } else {
      assert output + [] == output;
      ConnectionStaysInStep(deps, cmds, []);
      NothingShown();
      forall i | 0 <= i < |cmds| ensures TrimEol(DisplayFor(deps, cmds[i])) == DisplayFor(deps, cmds[i]) {
        TrimEolLineSafe(DisplayFor(deps, cmds[i]));
      }
    }
  }

  lemma NothingShown()
    ensures Transcript([]) == [] && ParseStream([]) == Decoded([], [])
  {
    EmptyIsEof();
    hide ParseValue;
  }

  /** Position of the first display that is not safe on a line, or their number. */
  function FirstUnsafe(displays: seq<bytes>): (k: nat)
    ensures k <= |displays|
    ensures k < |displays| ==> !LineSafe(displays[k])
    ensures forall i :: 0 <= i < k ==> LineSafe(displays[i])
  {
    if displays == [] || !LineSafe(displays[0]) then 0 else 1 + FirstUnsafe(displays[1..])
  }

  /** The first unsafe display is not what the client sees at its position. */
  lemma UnsafeDisplayIsNotShown(deps: seq<Dependency>, cmds: seq<Command>, k: nat)
    requires k < |cmds| && !LineSafe(DisplayFor(deps, cmds[k]))
    requires forall i :: 0 <= i < k ==> NoLF(DisplayFor(deps, cmds[i]))
    ensures var shown := Transcript(RepliesTo(deps, cmds));
      k < |shown| && shown[k] != DisplayFor(deps, cmds[k])
  {
    hide DisplayFor;
    hide RepliesTo;
    hide ParseStream;
    hide Transcript;
    hide EncodeReply;
    var d := DisplayFor(deps, cmds[k]);
    RepliesToSplit(deps, cmds, k);
    ReplyIsADisplay(deps, cmds[k]);
    var more := RepliesTo(deps, cmds[k + 1..]);
    ConnectionStaysInStep(deps, cmds[..k], EncodeReply(d) + more);
    if NoLF(d) {
      TranscriptStep(d, more);
      TrimEolLineSafe(d);
    } else {
      CutDisplayShown(d, more);
    }
  }

  lemma CutDisplayShown(d: bytes, more: bytes)
    requires !NoLF(d)
    ensures var shown := Transcript(EncodeReply(d) + more); shown != [] && NoLF(shown[0])
  {
    hide ParseValue;
    hide EncodeReply;
    ReplyWithLFLeavesBytes(d, more);
  }

  lemma {:induction false} RepliesToSplit(deps: seq<Dependency>, cmds: seq<Command>, k: nat)
    requires k < |cmds|
    ensures RepliesTo(deps, cmds) ==
      RepliesTo(deps, cmds[..k]) + (ReplyTo(deps, cmds[k]) + RepliesTo(deps, cmds[k + 1..]))
  {
    hide ReplyTo;
    if k > 0 {
      RepliesToSplit(deps, cmds[1..], k - 1);
      assert cmds[1..][..k - 1] == cmds[..k][1..];
      assert cmds[1..][k..] == cmds[k + 1..];
      Associative(ReplyTo(deps, cmds[0]), RepliesTo(deps, cmds[..k][1..]),
                  ReplyTo(deps, cmds[k]) + RepliesTo(deps, cmds[k + 1..]));
    }
  }

  lemma {:induction false} RenderAllIs(vs: seq<Value>, i: nat)
    requires i < |vs|
    ensures RenderAll(vs)[i] == Render(vs[i])
    decreases |vs|
  {
    hide Render;
    if i > 0 {
      RenderAllIs(vs[1..], i - 1);
    }
  }

  /** A client sends k commands and part of another. As long as nothing with an LF can be echoed or
      replayed, it receives exactly k values, the ith of which answers the ith command, and nothing
      for the part. */
  lemma ProxyStaysInStep(deps: seq<Dependency>, cmds: seq<Command>, last: Command, cut: bytes)
    requires forall i :: 0 <= i < |cmds| ==> FitsWire(cmds[i])
    requires FitsWire(last) && cut < EncodeCommand(last)
    requires forall i, j :: 0 <= i < |cmds| && 0 <= j < |cmds[i]| ==> NoLF(cmds[i][j])
    requires forall i :: 0 <= i < |deps| ==> NoLF(deps[i].response)
    ensures ReadAll(EncodeCommands(cmds) + cut) == cmds
    ensures var seen := ParseStream(RepliesTo(deps, cmds));
      && |seen.values| == |cmds| && seen.rest == []
      && forall i :: 0 <= i < |cmds| ==> Render(seen.values[i]) == TrimEol(DisplayFor(deps, cmds[i]))
  {
    hide DisplayFor;
    hide RepliesTo;
    hide ParseStream;
    hide Render;
    hide Folded;
    hide IsAdminCommand;
    CommandsReadBack(cmds, last, cut);
    forall i | 0 <= i < |cmds| ensures NoLF(DisplayFor(deps, cmds[i])) {
      DisplayNoLF(deps, cmds[i]);
    }
    ConnectionStaysInStep(deps, cmds, []);
    NothingShown();
    assert RepliesTo(deps, cmds) + [] == RepliesTo(deps, cmds);
    var values := ParseStream(RepliesTo(deps, cmds)).values;
    var shown := RenderAll(values);
    assert |shown| == |values| == |cmds|;
    forall i | 0 <= i < |cmds| ensures Render(values[i]) == TrimEol(DisplayFor(deps, cmds[i])) {
      RenderAllIs(values, i);
    }
  }
}
