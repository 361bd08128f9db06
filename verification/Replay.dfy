/** Record, then replay: what a client sees from the proxy against what was captured. */
module Replay {
  import opened Bytes
  import opened Sequences
  import opened Resp
  import opened RespLaws
  import opened RedisCalls
  import opened Exchanges
  import opened Recorder
  import opened Proxy

  /** Setup commands and empty commands are never recorded. */
  lemma CallsAreData(cmdBuf: bytes, replyBuf: bytes)
    ensures forall j :: 0 <= j < |TryCalls(cmdBuf, replyBuf)| ==> IsData(TryCalls(cmdBuf, replyBuf)[j].command)
  {
    hide ParseStream;
    hide Paired;
    PairedExactly(CommandsOf(ParseStream(cmdBuf).values), ParseStream(replyBuf).values);
  }

  /** Replaying any recorded call, from any of the recorded connections: it is matched, the first
      recorded call with the same folded text answers it, and the client sees the recorded reply if
      and only if that answer has no LF and equals the recorded reply once trailing CRs are gone. */
  lemma RecordedCallReplaysExactly(
      exchanges: seq<Exchange>, ex: Exchange, call: RedisCall, cmdBuf: bytes, replyBuf: bytes)
    requires ex in exchanges && ex.protocol == ProtocolRedis
    requires ex.redis == TryCalls(cmdBuf, replyBuf) && call in ex.redis
    ensures var deps := Dependencies(exchanges);
      var m := FirstMatch(deps, Folded(call.command));
      && m < |deps|
      && ReplyTo(deps, call.command) == EncodeReply(deps[m].response)
      && (ShowsAs(ReplyTo(deps, call.command), call.reply) <==>
          NoLF(deps[m].response) && TrimEol(deps[m].response) == call.reply)
  {
    hide ParseStream;
    hide ParseValue;
    hide EncodeReply;
    var deps := Dependencies(exchanges);
    CallsAreData(cmdBuf, replyBuf);
    RecordedCallsAreDependencies(exchanges, DependencyOf(call));
    var i :| 0 <= i < |deps| && deps[i] == DependencyOf(call);
    assert Lower(deps[i].request) == Folded(call.command);
    var m := FirstMatch(deps, Folded(call.command));
    var d := deps[m].response;
    assert IsData(call.command);
    assert EncodeReply(d) + [] == EncodeReply(d);
    if NoLF(d) {
      ReplyReads(d, []);
    } else {
      ReplyWithLFLeavesBytes(d, []);
    }
  }

  /** Requests that differ at most in case have one response. */
  predicate Consistent(deps: seq<Dependency>) {
    forall i, j :: 0 <= i < |deps| && 0 <= j < |deps| && Lower(deps[i].request) == Lower(deps[j].request) ==>
      deps[i].response == deps[j].response
  }

  /** With a consistent recording, a call replays as recorded if and only if its reply is safe on
      a line. */
  lemma ConsistentRecordingReplays(
      exchanges: seq<Exchange>, ex: Exchange, call: RedisCall, cmdBuf: bytes, replyBuf: bytes)
    requires ex in exchanges && ex.protocol == ProtocolRedis
    requires ex.redis == TryCalls(cmdBuf, replyBuf) && call in ex.redis
    requires Consistent(Dependencies(exchanges))
    ensures ShowsAs(ReplyTo(Dependencies(exchanges), call.command), call.reply) <==> LineSafe(call.reply)
  {
    var deps := Dependencies(exchanges);
    RecordedCallReplaysExactly(exchanges, ex, call, cmdBuf, replyBuf);
    RecordedCallsAreDependencies(exchanges, DependencyOf(call));
    var i :| 0 <= i < |deps| && deps[i] == DependencyOf(call);
    var m := FirstMatch(deps, Folded(call.command));
    assert deps[m].response == call.reply;
    hide ShowsAs;
    hide ReplyTo;
    if NoLF(call.reply) {
      TrimEolLineSafe(call.reply);
    }
  }

  // ---- the order of the recording ----

  predicate Matches(dep: Dependency, cmd: Command) {
    Lower(dep.request) == Folded(cmd)
  }

  /** All recorded requests that match a command have one response. */
  predicate Unambiguous(deps: seq<Dependency>, cmd: Command) {
    forall i, j ::
      (0 <= i < |deps| && 0 <= j < |deps| && Matches(deps[i], cmd) && Matches(deps[j], cmd)) ==>
        deps[i].response == deps[j].response
  }

  /** `dep` is matched by the command and `deps` has it. */
  lemma MatchIn(deps: seq<Dependency>, cmd: Command, dep: Dependency)
    requires dep in multiset(deps) && Matches(dep, cmd)
    ensures var m := FirstMatch(deps, Folded(cmd));
      m < |deps| && deps[m] in multiset(deps) && (Unambiguous(deps, cmd) ==> deps[m].response == dep.response)
  {
    hide Folded;
    var i :| 0 <= i < |deps| && deps[i] == dep;
  }

  lemma ReorderedAnswersAlike(xs: seq<Dependency>, ys: seq<Dependency>, cmd: Command)
    requires multiset(xs) == multiset(ys)
    requires !IsData(cmd) || Unambiguous(xs, cmd)
    ensures ReplyTo(xs, cmd) == ReplyTo(ys, cmd)
  {
    hide Folded;
    hide Unambiguous;
    hide EncodeReply;
    hide IsAdminCommand;
    var m, n := FirstMatch(xs, Folded(cmd)), FirstMatch(ys, Folded(cmd));
    if m < |xs| {
      assert xs[m] in multiset(xs);
      MatchIn(ys, cmd, xs[m]);
    }
    if n < |ys| {
      assert ys[n] in multiset(ys);
      MatchIn(xs, cmd, ys[n]);
    }
  }

  function MovedToFront(deps: seq<Dependency>, i: nat): seq<Dependency>
    requires i < |deps|
  {
    [deps[i]] + (deps[..i] + deps[i + 1..])
  }

  lemma MovedToFrontPermutes(deps: seq<Dependency>, i: nat)
    requires i < |deps|
    ensures multiset(MovedToFront(deps, i)) == multiset(deps)
  {
    RemoveAt(deps, i);
    assert deps[i] in multiset(deps);
  }

  /** A response that is not the one served is served once it comes first. */
  lemma FrontAnswers(deps: seq<Dependency>, i: nat, cmd: Command)
    requires i < |deps| && Matches(deps[i], cmd) && IsData(cmd)
    ensures ReplyTo(MovedToFront(deps, i), cmd) == EncodeReply(deps[i].response)
  {
    hide Folded;
    hide EncodeReply;
    hide IsAdminCommand;
    assert MovedToFront(deps, i)[0] == deps[i];
  }

  /** The order in which calls were recorded does not matter for a command, if and only if it is
      never looked up or the requests that match it agree on the response. */
  lemma OrderIrrelevantExactly(deps: seq<Dependency>, cmd: Command)
    ensures (forall other: seq<Dependency> :: multiset(other) == multiset(deps) ==>
               ReplyTo(other, cmd) == ReplyTo(deps, cmd)) <==>
      !IsData(cmd) || Unambiguous(deps, cmd)
  {
    hide ReplyTo;
    hide IsData;
    hide Folded;
    hide EncodeReply;
    if !IsData(cmd) || Unambiguous(deps, cmd) {
      forall other: seq<Dependency> | multiset(other) == multiset(deps)
        ensures ReplyTo(other, cmd) == ReplyTo(deps, cmd)
      {
        ReorderedAnswersAlike(deps, other, cmd);
      }
    } else {
      var i, j :| 0 <= i < |deps| && 0 <= j < |deps|
        && Matches(deps[i], cmd) && Matches(deps[j], cmd)
        && deps[i].response != deps[j].response;
      MovedToFrontPermutes(deps, i);
      MovedToFrontPermutes(deps, j);
      FrontAnswers(deps, i, cmd);
      FrontAnswers(deps, j, cmd);
      if EncodeReply(deps[i].response) == EncodeReply(deps[j].response) {
        EncodeReplyInjective(deps[i].response, deps[j].response);
      }
      assert ReplyTo(MovedToFront(deps, i), cmd) != ReplyTo(MovedToFront(deps, j), cmd);
    }
  }

  // ---- recording the replayed connection again ----

  /** A call that replay can reproduce: its reply fits on a line, and no earlier call with the same
      folded text was answered differently. */
  predicate Reproducible(calls: seq<RedisCall>, j: nat)
    requires j < |calls|
  {
    && LineSafe(calls[j].reply)
    && forall i :: 0 <= i < j && Folded(calls[i].command) == Folded(calls[j].command) ==>
         calls[i].reply == calls[j].reply
  }

  function RecordedAs(calls: seq<RedisCall>): seq<Dependency> {
    seq(|calls|, i requires 0 <= i < |calls| => DependencyOf(calls[i]))
  }

  lemma RecordedAlone(ex: Exchange)
    requires ex.protocol == ProtocolRedis
    ensures Dependencies([ex]) == RecordedAs(ex.redis)
  {
    var f := DependenciesOf;
    assert FlatMap(f, [ex]) == f(ex) + FlatMap(f, [ex][1..]);
    assert f(ex) + [] == RecordedAs(ex.redis);
  }

  /** The call that answers call `j` is not later than it. */
  lemma AnsweringCall(calls: seq<RedisCall>, j: nat)
    requires j < |calls| && IsData(calls[j].command)
    ensures var m := FirstMatch(RecordedAs(calls), Folded(calls[j].command));
      && m <= j
      && Folded(calls[m].command) == Folded(calls[j].command)
      && DisplayFor(RecordedAs(calls), calls[j].command) == calls[m].reply
  {
    var deps := RecordedAs(calls);
    assert Lower(deps[j].request) == Folded(calls[j].command);
    var m := FirstMatch(deps, Folded(calls[j].command));
    assert m <= j;
    assert Lower(deps[m].request) == Folded(calls[m].command);
  }

  lemma ReproducibleDisplay(calls: seq<RedisCall>, j: nat)
    requires j < |calls| && IsData(calls[j].command) && Reproducible(calls, j)
    ensures DisplayFor(RecordedAs(calls), calls[j].command) == calls[j].reply
  {
    AnsweringCall(calls, j);
  }

  lemma IncreasingReflects(at: seq<nat>, h: nat, j: nat)
    requires h < |at| && j < |at| && at[h] < at[j]
    requires forall a, b :: 0 <= a < b < |at| ==> at[a] < at[b]
    ensures h < j
  {
  }

  /** Before position `k`, every command is a setup command or one of the first `j` calls. */
  lemma EarlierDisplaysSafe(cmds: seq<Command>, replies: seq<Value>, j: nat, k: nat)
    requires var calls := Paired(cmds, replies);
      && j <= |calls| && k <= |cmds|
      && (if j < |calls| then k == DataIndices(cmds)[j] else k == |cmds|)
      && forall i :: 0 <= i < j ==> Reproducible(calls, i)
    ensures var deps := RecordedAs(Paired(cmds, replies));
      forall i :: 0 <= i < k ==> LineSafe(DisplayFor(deps, cmds[i]))
  {
    hide DisplayFor;
    hide IsAdminCommand;
    hide Render;
    hide Folded;
    PairedExactly(cmds, replies);
    var calls, at := Paired(cmds, replies), DataIndices(cmds);
    var deps := RecordedAs(calls);
    forall i | 0 <= i < k
      ensures LineSafe(DisplayFor(deps, cmds[i]))
    {
      if IsData(cmds[i]) {
        var h :| 0 <= h < |at| && at[h] == i;
        if j < |at| {
          IncreasingReflects(at, h, j);
        }
        ReproducibleDisplay(calls, h);
      } else {
        SetupDisplaySafe(deps, cmds[i]);
      }
    }
  }

  /** The commands of a capture, replayed over one connection against the recording of that very
      capture. */
  function Replayed(calls: seq<RedisCall>, cmds: seq<Command>): bytes {
    RepliesTo(RecordedAs(calls), cmds)
  }

  lemma ReproducibleCallsComeBack(cmds: seq<Command>, replies: seq<Value>)
    requires var calls := Paired(cmds, replies); forall j :: 0 <= j < |calls| ==> Reproducible(calls, j)
    ensures var calls := Paired(cmds, replies);
      Paired(cmds, ParseStream(Replayed(calls, cmds)).values) == calls
  {
    hide ParseStream;
    hide Render;
    hide RepliesTo;
    hide DisplayFor;
    PairedExactly(cmds, replies);
    var calls, at := Paired(cmds, replies), DataIndices(cmds);
    var deps := RecordedAs(calls);
    var values := ParseStream(Replayed(calls, cmds)).values;
    EarlierDisplaysSafe(cmds, replies, |calls|, |cmds|);
    ConnectionIsFaithfulExactly(deps, cmds);
    assert RenderAll(values) == DisplaysFor(deps, cmds);
    assert |values| == |cmds| by { assert |RenderAll(values)| == |values|; }
    forall j | 0 <= j < |calls|
      ensures Paired(cmds, values)[j] == calls[j]
    {
      RenderAllIs(values, at[j]);
      ReproducibleDisplay(calls, j);
    }
  }

  /** Among reproducible calls, all with one folded text have the reply of the first. */
  lemma SameFoldSameReply(calls: seq<RedisCall>, j: nat)
    requires j < |calls| && IsData(calls[j].command)
    requires forall i :: 0 <= i < j ==> Reproducible(calls, i)
    ensures var m := FirstMatch(RecordedAs(calls), Folded(calls[j].command));
      m < |calls| && forall i :: 0 <= i < j && Folded(calls[i].command) == Folded(calls[j].command) ==>
        calls[i].reply == calls[m].reply
  {
    AnsweringCall(calls, j);
    var deps := RecordedAs(calls);
    forall i | 0 <= i < j && Folded(calls[i].command) == Folded(calls[j].command)
      ensures calls[i].reply == calls[FirstMatch(deps, Folded(calls[j].command))].reply
    {
      assert Lower(deps[i].request) == Folded(calls[i].command);
      assert Reproducible(calls, i);
    }
  }

  lemma ComingBackNeedsReproducible(cmds: seq<Command>, replies: seq<Value>, j: nat)
    requires var calls := Paired(cmds, replies);
      && j < |calls|
      && (forall i :: 0 <= i < j ==> Reproducible(calls, i))
      && Paired(cmds, ParseStream(Replayed(calls, cmds)).values) == calls
    ensures Reproducible(Paired(cmds, replies), j)
  {
    hide ParseStream;
    hide Render;
    hide RepliesTo;
    hide DisplayFor;
    hide Folded;
    hide FirstMatch;
    hide RecordedAs;
    PairedExactly(cmds, replies);
    var calls, k := Paired(cmds, replies), DataIndices(cmds)[j];
    var deps := RecordedAs(calls);
    var values := ParseStream(Replayed(calls, cmds)).values;
    EarlierDisplaysSafe(cmds, replies, j, k);
    AnsweringCall(calls, j);
    var m := FirstMatch(deps, Folded(calls[j].command));
    var d := DisplayFor(deps, cmds[k]);
    assert m < j ==> Reproducible(calls, m);
    if LineSafe(d) {
      SafeDisplayIsShown(deps, cmds, k);
      RenderAllIs(values, k);
      assert Paired(cmds, values)[j].reply == d;
      SameFoldSameReply(calls, j);
    } else {
      UnsafeCallDoesNotComeBack(deps, cmds, values, j);
      assert false;
    }
  }

  lemma UnsafeCallDoesNotComeBack(deps: seq<Dependency>, cmds: seq<Command>, values: seq<Value>, j: nat)
    requires j < |DataIndices(cmds)| && values == ParseStream(RepliesTo(deps, cmds)).values
    requires var k := DataIndices(cmds)[j];
      && !LineSafe(DisplayFor(deps, cmds[k]))
      && forall i :: 0 <= i < k ==> LineSafe(DisplayFor(deps, cmds[i]))
    ensures Paired(cmds, values)[j].reply != DisplayFor(deps, cmds[DataIndices(cmds)[j]])
  {
    hide ParseStream;
    hide Render;
    hide RepliesTo;
    hide DisplayFor;
    var k := DataIndices(cmds)[j];
    UnsafeDisplayIsNotShown(deps, cmds, k);
    RenderAllIs(values, k);
  }

  lemma SafeDisplayIsShown(deps: seq<Dependency>, cmds: seq<Command>, k: nat)
    requires k < |cmds| && forall i :: 0 <= i <= k ==> LineSafe(DisplayFor(deps, cmds[i]))
    ensures var shown := Transcript(RepliesTo(deps, cmds));
      k < |shown| && shown[k] == DisplayFor(deps, cmds[k])
  {
    hide DisplayFor;
    hide RepliesTo;
    hide ParseStream;
    hide Transcript;
    hide EncodeReply;
    var d := DisplayFor(deps, cmds[k]);
    RepliesToSplit(deps, cmds, k);
    ReplyIsADisplay(deps, cmds[k]);
    var more := RepliesTo(deps, cmds[k + 1..]);
    ConnectionStaysInStep(deps, cmds[..k], EncodeReply(d) + more);
    TranscriptStep(d, more);
    TrimEolLineSafe(d);
  }

  lemma {:induction false} AllReproducible(cmds: seq<Command>, replies: seq<Value>, n: nat)
    requires var calls := Paired(cmds, replies);
      n <= |calls| && Paired(cmds, ParseStream(Replayed(calls, cmds)).values) == calls
    ensures forall j :: 0 <= j < n ==> Reproducible(Paired(cmds, replies), j)
  {
    hide ParseStream;
    hide Paired;
    hide Reproducible;
    if n > 0 {
      AllReproducible(cmds, replies, n - 1);
      ComingBackNeedsReproducible(cmds, replies, n - 1);
    }
  }

  /** Record a connection, replay its commands against the recording, record that: the calls are
      the same again if and only if every one of them is reproducible. */
  lemma RecordReplayRecordExactly(cmdBuf: bytes, replyBuf: bytes, ex: Exchange)
    requires ex.protocol == ProtocolRedis && ex.redis == TryCalls(cmdBuf, replyBuf)
    ensures var output := RepliesTo(Dependencies([ex]), ReadAll(cmdBuf));
      TryCalls(cmdBuf, output) == ex.redis <==>
      forall j :: 0 <= j < |ex.redis| ==> Reproducible(ex.redis, j)
  {
    RecordedAlone(ex);
    var values, replies := ParseStream(cmdBuf).values, ParseStream(replyBuf).values;
    if AllArrays(values) {
      var cmds := CommandsOf(values);
      StreamOfArraysReadsAll(cmdBuf);
      hide ParseStream;
      hide Paired;
      hide Reproducible;
      if TryCalls(cmdBuf, Replayed(ex.redis, cmds)) == ex.redis {
        AllReproducible(cmds, replies, |ex.redis|);
      }
      if forall j :: 0 <= j < |ex.redis| ==> Reproducible(ex.redis, j) {
        ReproducibleCallsComeBack(cmds, replies);
      }
    }
  }

  /** Two data commands with one folded text share the reply of the one recorded first. */
  lemma SameTextSharesReply(c: RedisCall, d: RedisCall)
    requires Folded(c.command) == Folded(d.command) && IsData(d.command)
    ensures DisplayFor(RecordedAs([c, d]), d.command) == c.reply
    ensures LineSafe(d.reply) ==> (Reproducible([c, d], 1) <==> c.reply == d.reply)
  {
    hide Folded;
    hide IsAdminCommand;
    hide LineSafe;
    var calls := [c, d];
    assert Lower(RecordedAs(calls)[0].request) == Folded(c.command) by { DependencyText(c); }
    assert calls[0] == c && calls[1] == d;
  }

  lemma DependencyText(call: RedisCall)
    ensures Lower(DependencyOf(call).request) == Folded(call.command)
  {
  }

  lemma GetIsData(keys: seq<bytes>)
    ensures IsData(["GET"] + keys)
  {
    assert Upper("GET")[0] == 'G';
  }

  /** Matching ignores case in keys and values too: two keys that differ only in case replay as
      one, so the second of these calls comes back with the first one's reply. */
  lemma KeysThatDifferInCaseCollide()
    ensures var calls := [RedisCall(["GET", "a"], "1"), RedisCall(["GET", "A"], "2")];
      && !Reproducible(calls, 1)
      && DisplayFor(RecordedAs(calls), ["GET", "A"]) == "1"
  {
    GetIsData(["A"]);
    assert ["GET"] + ["A"] == ["GET", "A"];
    JoinTwo("GET", "a");
    JoinTwo("GET", "A");
    assert Lower("GET a") == "get a" && Lower("GET A") == "get a";
    SameTextSharesReply(RedisCall(["GET", "a"], "1"), RedisCall(["GET", "A"], "2"));
  }

  lemma JoinTwo(a: bytes, b: bytes)
    ensures Join([a, b], " ") == a + " " + b
  {
    assert [a, b][1..] == [b];
  }

  /** Matching is by joined text: one key with a space in it replays as two keys. */
  lemma KeysThatJoinAlikeCollide()
    ensures var calls := [RedisCall(["GET", "a b"], "1"), RedisCall(["GET", "a", "b"], "2")];
      && !Reproducible(calls, 1)
      && DisplayFor(RecordedAs(calls), ["GET", "a", "b"]) == "1"
  {
    GetIsData(["a", "b"]);
    assert ["GET"] + ["a", "b"] == ["GET", "a", "b"];
    JoinTwo("GET", "a b");
    JoinTwo("a", "b");
    assert ["GET", "a", "b"][1..] == ["a", "b"];
    assert Join(["GET", "a", "b"], " ") == "GET" + " " + Join(["a", "b"], " ");
    SameTextSharesReply(RedisCall(["GET", "a b"], "1"), RedisCall(["GET", "a", "b"], "2"));
  }
}
