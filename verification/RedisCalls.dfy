/** Client commands: reading them one at a time from a connection, and pairing a captured
    command stream with its captured replies. */
module RedisCalls {
  import opened Bytes
  import opened Sequences
  import opened Resp
  import opened RespLaws
  import opened RespReader

  type Command = seq<bytes>

  datatype RedisCall = RedisCall(command: Command, reply: bytes)

  /** The `Str` of each element; a null array is the empty command. */
  function CommandOf(v: Value): Command {
    if v.Array? then seq(|v.items|, i requires 0 <= i < |v.items| => Str(v.items[i])) else []
  }

  function CommandsOf(vs: seq<Value>): seq<Command> {
    seq(|vs|, i requires 0 <= i < |vs| => CommandOf(vs[i]))
  }

  predicate AllArrays(vs: seq<Value>) {
    forall i :: 0 <= i < |vs| ==> IsArray(vs[i])
  }

  /** `ReadCommand`: one value, which must be an array. */
  function NextCommand(s: bytes): Read<Command> {
    match ParseValue(s)
    case Failed(e, rest) => Failed(e, rest)
    case Got(v, rest) => if IsArray(v) then Got(CommandOf(v), rest) else Failed(Malformed, rest)
  }

  /** The commands a connection handler reads before its first error. */
  function ReadAll(s: bytes): seq<Command>
    decreases |s|
  {
    match NextCommand(s)
    case Failed(_, _) => []
    case Got(cmd, rest) => [cmd] + ReadAll(rest)
  }

  method ReadCommand(r: Reader) returns (result: Result<Command>)
    requires r.Valid()
    modifies r`pos
    ensures r.Valid()
    ensures AsRead(result, r.Remaining()) == NextCommand(old(r.Remaining()))
  {
    hide ParseValue;
    var read := ReadValue(r);
    if read.Failure? {
      return Failure(read.error);
    }
    var v := read.value;
    if !IsArray(v) {
      return Failure(Malformed);
    }
    var cmd := CollectStrings(v);
    return Success(cmd);
  }

  method CollectStrings(v: Value) returns (cmd: Command)
    requires IsArray(v)
    ensures cmd == CommandOf(v)
  {
    var items := if v.Array? then v.items else [];
    cmd := [];
    for i := 0 to |items|
      invariant |cmd| == i && forall j :: 0 <= j < i ==> cmd[j] == Str(items[j])
    {
      cmd := cmd + [Str(items[i])];
    }
  }

  /** The longest prefix of arrays. */
  function ArraysFirst(vs: seq<Value>): (r: seq<Value>)
    ensures r <= vs && AllArrays(r)
    ensures r == vs || !IsArray(vs[|r|])
  {
    if vs != [] && IsArray(vs[0]) then [vs[0]] + ArraysFirst(vs[1..]) else []
  }

  lemma AllArraysFirst(vs: seq<Value>)
    ensures AllArrays(vs) <==> ArraysFirst(vs) == vs
  {
  }

  lemma ArraysFirstCons(v: Value, vs: seq<Value>)
    ensures ArraysFirst([v] + vs) == if IsArray(v) then [v] + ArraysFirst(vs) else []
  {
    assert ([v] + vs)[1..] == vs;
  }

  lemma CommandsOfCons(v: Value, vs: seq<Value>)
    ensures CommandsOf([v] + vs) == [CommandOf(v)] + CommandsOf(vs)
  {
  }

  /** Reading commands off a connection agrees with decoding the same bytes as one capture. */
  lemma {:induction false} StreamingAgreesWithBatch(s: bytes)
    ensures ReadAll(s) == CommandsOf(ArraysFirst(ParseStream(s).values))
    decreases |s|
  {
    hide ParseValue;
    hide CommandsOf;
    hide ArraysFirst;
    var r := ParseValue(s);
    if r.Got? {
      var vs := ParseStream(r.rest).values;
      assert ParseStream(s).values == [r.value] + vs;
      ArraysFirstCons(r.value, vs);
      StreamingAgreesWithBatch(r.rest);
      CommandsOfCons(r.value, ArraysFirst(vs));
    }
    assert CommandsOf([]) == [] by { NoCommands(); }
    assert ArraysFirst([]) == [];
  }

  lemma NoCommands()
    ensures CommandsOf([]) == []
  {
  }

  /** On a stream of arrays the two readings are the same list of commands. */
  lemma StreamOfArraysReadsAll(s: bytes)
    requires AllArrays(ParseStream(s).values)
    ensures ReadAll(s) == CommandsOf(ParseStream(s).values)
  {
    StreamingAgreesWithBatch(s);
    AllArraysFirst(ParseStream(s).values);
  }

  // ---- what is recorded ----

  /** Connection and protocol setup, not data. */
  const ADMIN: set<bytes> := {"HELLO", "CLIENT", "AUTH", "SELECT", "PING"}

  predicate IsAdminCommand(name: bytes) {
    Upper(name) in ADMIN
  }

  predicate IsData(cmd: Command) {
    cmd != [] && !IsAdminCommand(cmd[0])
  }

  lemma AdminIgnoresCase(name: bytes, other: bytes)
    requires Lower(name) == Lower(other)
    ensures IsAdminCommand(name) <==> IsAdminCommand(other)
  {
    assert |Lower(name)| == |name| && |Lower(other)| == |other|;
    forall i | 0 <= i < |name| ensures UpperChar(name[i]) == UpperChar(other[i]) {
      assert Lower(name)[i] == LowerChar(name[i]) && Lower(other)[i] == LowerChar(other[i]);
    }
    assert Upper(name) == Upper(other);
  }

  lemma AdminNamesNoLF(name: bytes)
    requires IsAdminCommand(name)
    ensures NoLF(name)
  {
    CaseKeepsLF(name);
  }

  /** Exactly the five setup commands are administrative, in any mixture of cases. */
  lemma AdminExactly(name: bytes)
    ensures IsAdminCommand(name) <==>
      || EqualFold(name, "HELLO") || EqualFold(name, "CLIENT") || EqualFold(name, "AUTH")
      || EqualFold(name, "SELECT") || EqualFold(name, "PING")
  {
    hide EqualFold;
    UpperNames();
    forall s | s in ADMIN ensures Upper(name) == s <==> EqualFold(name, s) {
      FoldingExactly(name, s);
    }
    assert ADMIN == {"HELLO", "CLIENT", "AUTH", "SELECT", "PING"};
  }

  lemma UpperNames()
    ensures forall s :: s in ADMIN ==> Upper(s) == s
  {
  }

  /** The positions of the data commands, in order. */
  function DataIndices(cmds: seq<Command>): (r: seq<nat>)
    ensures forall j :: 0 <= j < |r| ==> r[j] < |cmds|
  {
    if cmds == [] then []
    else
      var n := |cmds| - 1;
      var before := DataIndices(cmds[..n]);
      if IsData(cmds[n]) then before + [n] else before
  }

  /** They are increasing, and they are all of them. */
  lemma {:induction false} DataIndicesExactly(cmds: seq<Command>)
    ensures var at := DataIndices(cmds);
      && (forall i, j :: 0 <= i < j < |at| ==> at[i] < at[j])
      && (forall i :: 0 <= i < |cmds| ==> (i in at <==> IsData(cmds[i])))
  {
    if cmds != [] {
      var before := cmds[..|cmds| - 1];
      DataIndicesExactly(before);
      hide IsData;
      assert forall i :: 0 <= i < |before| ==> cmds[i] == before[i];
    }
  }

  lemma {:induction false} DataIndicesPrefix(cmds: seq<Command>, n: nat)
    requires n <= |cmds|
    ensures DataIndices(cmds[..n]) <= DataIndices(cmds)
    decreases |cmds|
  {
    hide IsData;
    if n == |cmds| {
      assert cmds[..n] == cmds;
    } else {
      var before := cmds[..|cmds| - 1];
      DataIndicesPrefix(before, n);
      assert before[..n] == cmds[..n];
    }
  }

  const NO_REPLY: bytes := "?"

  function ReplyAt(replies: seq<Value>, i: nat): bytes {
    if i < |replies| then Render(replies[i]) else NO_REPLY
  }

  /** Each data command with the reply at its own position. */
  function Paired(cmds: seq<Command>, replies: seq<Value>): seq<RedisCall> {
    var at := DataIndices(cmds);
    seq(|at|, j requires 0 <= j < |at| => RedisCall(cmds[at[j]], ReplyAt(replies, at[j])))
  }

  /** The recorded calls are exactly the data commands, in order, each with the reply at the
      command's own position among all commands. */
  lemma PairedExactly(cmds: seq<Command>, replies: seq<Value>)
    ensures var calls, at := Paired(cmds, replies), DataIndices(cmds);
      && |calls| == |at|
      && (forall i, j :: 0 <= i < j < |at| ==> at[i] < at[j])
      && (forall i :: 0 <= i < |cmds| ==> (i in at <==> cmds[i] != [] && !IsAdminCommand(cmds[i][0])))
      && (forall j :: 0 <= j < |at| ==>
            && calls[j].command == cmds[at[j]] && IsData(cmds[at[j]])
            && calls[j].reply == if at[j] < |replies| then Render(replies[at[j]]) else "?")
  {
    hide IsAdminCommand;
    DataIndicesExactly(cmds);
    var at := DataIndices(cmds);
    assert forall j :: 0 <= j < |at| ==> at[j] in at;
  }

  lemma PairedStep(cmds: seq<Command>, replies: seq<Value>, i: nat)
    requires i < |cmds|
    ensures Paired(cmds[..i + 1], replies) ==
      Paired(cmds[..i], replies) +
      if IsData(cmds[i]) then [RedisCall(cmds[i], ReplyAt(replies, i))] else []
  {
    assert cmds[..i + 1][..i] == cmds[..i];
  }

  /** The calls `TryRESP` finds in a pair of capture buffers. */
  function TryCalls(cmdBuf: bytes, replyBuf: bytes): seq<RedisCall> {
    var values := ParseStream(cmdBuf).values;
    if AllArrays(values) then Paired(CommandsOf(values), ParseStream(replyBuf).values) else []
  }

  /** `TryRESP`. */
  method TryRESP(cmdBuf: bytes, replyBuf: bytes) returns (calls: seq<RedisCall>, ok: bool)
    ensures calls == TryCalls(cmdBuf, replyBuf)
    ensures ok <==> calls != []
  {
    hide ParseStream;
    var cmdValues, parsedAny := ParseRESPStream(cmdBuf);
    if !parsedAny {
      return [], false;
    }
    var replyValues, _ := ParseRESPStream(replyBuf);

    var commands: seq<Command> := [];
    for i := 0 to |cmdValues|
      invariant forall j :: 0 <= j < i ==> IsArray(cmdValues[j])
      invariant commands == CommandsOf(cmdValues[..i])
    {
      if !IsArray(cmdValues[i]) {
        return [], false;
      }
      var cmd := CollectStrings(cmdValues[i]);
      commands := commands + [cmd];
    }
    assert cmdValues[..|cmdValues|] == cmdValues;

    calls := [];
    for i := 0 to |commands|
      invariant calls == Paired(commands[..i], replyValues)
    {
      PairedStep(commands, replyValues, i);
      if |commands[i]| == 0 || IsAdminCommand(commands[i][0]) {
        continue;
      }
      var reply := NO_REPLY;
      if i < |replyValues| {
        reply := Render(replyValues[i]);
      }
      calls := calls + [RedisCall(commands[i], reply)];
    }
    assert commands[..|commands|] == commands;
    ok := |calls| > 0;
  }

  // ---- truncated captures ----

  /** Losing the end of the reply capture turns exactly the replies into "?" that are not complete
      in what is left. */
  lemma CutReplies(cmdBuf: bytes, p: bytes, q: bytes)
    ensures var cut, full := TryCalls(cmdBuf, p), TryCalls(cmdBuf, p + q);
      var at := DataIndices(CommandsOf(ParseStream(cmdBuf).values));
      && |cut| == |full| <= |at|
      && forall j :: 0 <= j < |cut| ==>
           cut[j] == if at[j] < |ParseStream(p).values| then full[j] else RedisCall(full[j].command, "?")
  {
    hide ParseStream;
    StreamPrefix(p, q);
  }

  /** Losing commands and replies from the ends of both lists. */
  lemma PairedCut(cmds: seq<Command>, replies: seq<Value>, n: nat, m: nat)
    requires n <= |cmds| && m <= |replies|
    ensures var cut, full, at := Paired(cmds[..n], replies[..m]), Paired(cmds, replies), DataIndices(cmds);
      && |cut| <= |full| == |at|
      && (forall j :: 0 <= j < |full| ==> (j < |cut| <==> at[j] < n))
      && forall j :: 0 <= j < |cut| ==>
           cut[j] == if at[j] < m then full[j] else RedisCall(full[j].command, NO_REPLY)
  {
    hide IsData;
    hide DataIndices;
    hide Render;
    DataIndicesPrefix(cmds, n);
    DataIndicesExactly(cmds);
    DataIndicesExactly(cmds[..n]);
    var at, kept := DataIndices(cmds), DataIndices(cmds[..n]);
    assert forall j :: 0 <= j < |kept| ==> kept[j] == at[j];
    if |kept| < |at| && at[|kept|] < n {
      assert at[|kept|] in at && cmds[..n][at[|kept|]] == cmds[at[|kept|]];
      var h :| 0 <= h < |kept| && kept[h] == at[|kept|];
      assert false;
    }
  }

  lemma {:induction false} PairedPrefix(cmds: seq<Command>, more: seq<Command>, replies: seq<Value>)
    ensures Paired(cmds, replies) <= Paired(cmds + more, replies)
    decreases |more|
  {
    hide Paired;
    hide DataIndices;
    hide IsData;
    if more == [] {
      assert cmds + more == cmds;
    } else {
      var n := |more| - 1;
      PairedPrefix(cmds, more[..n], replies);
      PairedStep(cmds + more, replies, |cmds| + n);
      assert (cmds + more)[..|cmds| + n] == cmds + more[..n];
      assert (cmds + more)[..|cmds| + n + 1] == cmds + more;
    }
  }

  /** No call is recorded exactly when no command is a data command. */
  lemma NoCallsExactly(values: seq<Value>, replies: seq<Value>)
    ensures Paired(CommandsOf(values), replies) == [] <==>
      forall i :: 0 <= i < |values| ==> !IsData(CommandOf(values[i]))
  {
    hide IsData;
    hide CommandOf;
    var cmds := CommandsOf(values);
    var at := DataIndices(cmds);
    DataIndicesExactly(cmds);
    assert |Paired(cmds, replies)| == |at|;
    assert forall i :: 0 <= i < |values| ==> cmds[i] == CommandOf(values[i]);
    if at != [] {
      assert at[0] in at;
    }
  }

  /** Losing the end of the command capture loses calls from the end only, if and only if the
      complete capture held nothing but arrays, or what is left holds a value that is not one, or
      what is left holds no data command. */
  lemma CutCommandsExactly(p: bytes, q: bytes, replyBuf: bytes)
    ensures var cut, full := ParseStream(p).values, ParseStream(p + q).values;
      TryCalls(p, replyBuf) <= TryCalls(p + q, replyBuf) <==>
      || AllArrays(full)
      || !AllArrays(cut)
      || forall i :: 0 <= i < |cut| ==> !IsData(CommandOf(cut[i]))
  {
    hide ParseStream;
    hide IsData;
    hide CommandOf;
    hide CommandsOf;
    hide Paired;
    StreamPrefix(p, q);
    var cut, full := ParseStream(p).values, ParseStream(p + q).values;
    var replies := ParseStream(replyBuf).values;
    if AllArrays(full) {
      ArraysCut(cut, full, replies);
    } else {
      NoCallsExactly(cut, replies);
    }
  }

  lemma ArraysCut(cut: seq<Value>, full: seq<Value>, replies: seq<Value>)
    requires cut <= full && AllArrays(full)
    ensures AllArrays(cut) && Paired(CommandsOf(cut), replies) <= Paired(CommandsOf(full), replies)
  {
    hide CommandOf;
    hide Paired;
    assert full == cut + full[|cut|..];
    assert forall i :: 0 <= i < |cut| ==> cut[i] == full[i];
    assert CommandsOf(full) == CommandsOf(cut) + CommandsOf(full[|cut|..]);
    PairedPrefix(CommandsOf(cut), CommandsOf(full[|cut|..]), replies);
  }

  /** The wire form in which a client sends a command. */
  function EncodeCommand(cmd: Command): bytes {
    Encode(CommandValue(cmd))
  }

  function CommandValue(cmd: Command): Value {
    Array(seq(|cmd|, i requires 0 <= i < |cmd| => Bulk(cmd[i])))
  }

  predicate FitsWire(cmd: Command) {
    |cmd| <= MAX_INT && forall i :: 0 <= i < |cmd| ==> |cmd[i]| <= MAX_INT
  }

  function EncodeCommands(cmds: seq<Command>): bytes {
    if cmds == [] then [] else EncodeCommand(cmds[0]) + EncodeCommands(cmds[1..])
  }

  /** Any value read as a command: an array gives the texts of its elements, with an empty text for a
      null or a nested array; a null array gives the empty command; anything else is malformed, with
      the value consumed. */
  lemma AnyValueAsCommand(v: Value, q: bytes)
    requires WellFormed(v)
    ensures v.NullArray? ==> NextCommand(Encode(v) + q) == Got([], q)
    ensures v.Array? ==>
      var read := NextCommand(Encode(v) + q);
      && read.Got? && read.rest == q && |read.value| == |v.items|
      && forall i :: 0 <= i < |v.items| ==>
           read.value[i] == match v.items[i]
                            case Simple(s) => s
                            case Error(s) => s
                            case Integer(s) => s
                            case Bulk(s) => s
                            case _ => ""
    ensures !v.Array? && !v.NullArray? ==> NextCommand(Encode(v) + q) == Failed(Malformed, q)
  {
    DecodeEncode(v, q);
    hide ParseValue;
    hide Encode;
  }

  lemma CommandReadsBack(cmd: Command, q: bytes)
    requires FitsWire(cmd)
    ensures NextCommand(EncodeCommand(cmd) + q) == Got(cmd, q)
  {
    var v := CommandValue(cmd);
    DecodeEncode(v, q);
    hide ParseValue;
    assert CommandOf(v) == cmd;
  }

  /** What a client sent is what is read, and a command cut short at the end is not read at all. */
  lemma {:induction false} CommandsReadBack(cmds: seq<Command>, last: Command, cut: bytes)
    requires forall i :: 0 <= i < |cmds| ==> FitsWire(cmds[i])
    requires FitsWire(last) && cut < EncodeCommand(last)
    ensures ReadAll(EncodeCommands(cmds) + cut) == cmds
    decreases |cmds|
  {
    hide ParseValue;
    if cmds == [] {
      assert EncodeCommands(cmds) + cut == cut;
      CutEncodingFails(CommandValue(last), cut);
    } else {
      var left := EncodeCommands(cmds[1..]) + cut;
      CommandReadsBack(cmds[0], left);
      Associative(EncodeCommand(cmds[0]), EncodeCommands(cmds[1..]), cut);
      CommandsReadBack(cmds[1..], last, cut);
      hide NextCommand;
      hide EncodeCommand;
      assert ReadAll(EncodeCommand(cmds[0]) + left) == [cmds[0]] + ReadAll(left);
      assert cmds == [cmds[0]] + cmds[1..];
    }
  }

  /** A command cut short reads as an unexpected end of file exactly when it is cut inside the body
      of one of its strings, and as a plain end of file everywhere else. */
  lemma CutCommandError(cmd: Command, cut: bytes)
    requires FitsWire(cmd) && cut < EncodeCommand(cmd)
    ensures NextCommand(cut) == Failed(CutError(CutInBody(CommandValue(cmd), cut)), [])
  {
    CutErrorExactly(CommandValue(cmd), cut);
    hide ParseValue;
    hide CutInBody;
  }

  /** The error that ends the reading of commands from a connection. */
  function EndError(s: bytes): ReadError
    decreases |s|
  {
    match NextCommand(s)
    case Failed(e, _) => e
    case Got(_, rest) => EndError(rest)
  }

  lemma {:induction false} EndErrorAfter(cmds: seq<Command>, more: bytes)
    requires forall i :: 0 <= i < |cmds| ==> FitsWire(cmds[i])
    ensures EndError(EncodeCommands(cmds) + more) == EndError(more)
    decreases |cmds|
  {
    hide NextCommand;
    hide EncodeCommand;
    if cmds == [] {
      assert EncodeCommands(cmds) + more == more;
    } else {
      Associative(EncodeCommand(cmds[0]), EncodeCommands(cmds[1..]), more);
      CommandReadsBack(cmds[0], EncodeCommands(cmds[1..]) + more);
      EndErrorAfter(cmds[1..], more);
    }
  }

  /** A peer that sends whole commands and closes, or closes inside one more of them. Closing between
      commands always ends the reading with `io.EOF`; that error means "between commands" if and
      only if the peer did close there or closed inside the body of a string. */
  lemma EofMeansBetweenCommandsExactly(cmds: seq<Command>, last: Command, cut: bytes)
    requires forall i :: 0 <= i < |cmds| ==> FitsWire(cmds[i])
    requires FitsWire(last) && cut < EncodeCommand(last)
    ensures var end, inBody := EndError(EncodeCommands(cmds) + cut), CutInBody(CommandValue(last), cut);
      && end == CutError(inBody)
      && (cut == [] ==> end == Eof)
      && ((end == Eof <==> cut == []) <==> cut == [] || inBody)
  {
    EndErrorAfter(cmds, cut);
    CutCommandError(last, cut);
    hide NextCommand;
    if cut == [] {
      NotInBody(last);
    }
  }

  lemma NotInBody(cmd: Command)
    ensures !CutInBody(CommandValue(cmd), [])
  {
  }

  /** `ReadCommand` reports `io.EOF` on a connection closed between commands, but also on one
      closed inside a command, here after the array header. */
  lemma EofDoesNotMeanBetweenCommands()
    ensures NextCommand("") == Failed(Eof, "")
    ensures NextCommand("*1\r\n") == Failed(Eof, "")
    ensures "*1\r\n" < EncodeCommand(["PING"])
  {
    LengthReadsBack("*", 1, "");
    assert Decimal(1) == "1";
    var line := "*" + Decimal(1);
    assert line + CRLF + "" == "*1\r\n";
    ParseArray(line + CRLF + "", line, "", 1);
    hide ParseValue;
    assert ParseItems("", 1) == Failed(Eof, "") by { EmptyIsEof(); }
    var v := CommandValue(["PING"]);
    assert |v.items| == 1;
    assert Encode(v) == "*" + Decimal(1) + CRLF + EncodeAll(v.items);
    assert EncodeAll(v.items)[0] == '$';
  }

  /** Losing the end of a capture can also gain calls: one data command followed by a reply-like
      value is recorded only while that value is missing. */
  lemma LosingTheEndCanGainACall(cmd: Command, replyBuf: bytes)
    requires FitsWire(cmd) && IsData(cmd)
    ensures TryCalls(EncodeCommand(cmd) + "+OK\r\n", replyBuf) == []
    ensures |TryCalls(EncodeCommand(cmd), replyBuf)| == 1
  {
    hide Encode;
    hide IsData;
    hide ParseStream;
    hide CommandValue;
    hide Paired;
    hide CommandsOf;
    var v, ok := CommandValue(cmd), Simple("OK");
    assert Encode(ok) == EncodeSimpleString("OK") == "+OK\r\n" by { OkOnTheWire(); }
    ACommandIsAnArray(cmd);
    StreamOfTwo(v, ok);
    OneCommandOneCall(cmd, ParseStream(replyBuf).values);
    assert !IsArray([v, ok][1]);
    assert AllArrays([v]);
  }

  lemma OkOnTheWire()
    ensures Encode(Simple("OK")) == EncodeSimpleString("OK")
  {
  }

  lemma ACommandIsAnArray(cmd: Command)
    ensures FitsWire(cmd) ==> WellFormed(CommandValue(cmd))
    ensures IsArray(CommandValue(cmd)) && CommandOf(CommandValue(cmd)) == cmd
  {
  }

  lemma OneCommandOneCall(cmd: Command, replies: seq<Value>)
    requires IsData(cmd)
    ensures |Paired(CommandsOf([CommandValue(cmd)]), replies)| == 1
  {
    hide IsData;
    ACommandIsAnArray(cmd);
    hide CommandOf;
    hide CommandValue;
    var cmds := CommandsOf([CommandValue(cmd)]);
    assert cmds == [cmd];
    PairedStep(cmds, replies, 0);
    assert cmds[..1] == cmds && Paired(cmds[..0], replies) == [];
  }

  lemma StreamOfTwo(v: Value, w: Value)
    requires WellFormed(v) && WellFormed(w)
    ensures ParseStream(Encode(v)).values == [v]
    ensures ParseStream(Encode(v) + Encode(w)).values == [v, w]
  {
    StreamOfOne(w);
    StreamOfOne(v);
    DecodeEncode(v, Encode(w));
    hide ParseValue;
  }

  lemma StreamOfOne(v: Value)
    requires WellFormed(v)
    ensures ParseStream(Encode(v)) == Decoded([v], [])
  {
    EmptyIsEof();
    hide ParseValue;
    hide Encode;
    DecodeEncode(v, []);
    assert Encode(v) + [] == Encode(v);
    assert ParseStream([]) == Decoded([], []);
  }

  lemma EmptyIsEof()
    ensures ParseValue("") == Failed(Eof, "")
  {
  }
}
