/** From the events of a Redis connection to what a client sees when the recording is replayed. */
module EndToEnd {
  import opened Bytes
  import opened Sequences
  import opened Events
  import opened Resp
  import opened RespLaws
  import opened RedisCalls
  import opened Exchanges
  import opened Recorder
  import opened Proxy
  import opened Replay
  import opened Streamer
  import opened StreamerLaws

  function CommandValues(cmds: seq<Command>): seq<Value> {
    seq(|cmds|, i requires 0 <= i < |cmds| => CommandValue(cmds[i]))
  }

  lemma {:induction false} EncodeCommandsIs(cmds: seq<Command>)
    ensures EncodeCommands(cmds) == EncodeAll(CommandValues(cmds))
  {
    hide Encode;
    if cmds != [] {
      EncodeCommandsIs(cmds[1..]);
      assert CommandValues(cmds)[1..] == CommandValues(cmds[1..]);
    }
  }

  /** A whole session's captured bytes decode into exactly its data commands and their replies, also
      when the capture ends inside a further reply. */
  lemma SessionDecodes(cmds: seq<Command>, replies: seq<Value>, last: Value, cut: bytes)
    requires forall i :: 0 <= i < |cmds| ==> FitsWire(cmds[i])
    requires AllWellFormed(replies) && WellFormed(last) && cut < Encode(last)
    ensures TryCalls(EncodeCommands(cmds), EncodeAll(replies) + cut) == Paired(cmds, replies)
  {
    hide Encode;
    hide EncodeAll;
    hide Paired;
    hide ParseValue;
    var vs := CommandValues(cmds);
    EncodeCommandsIs(cmds);
    hide EncodeCommands;
    forall i | 0 <= i < |vs| ensures WellFormed(vs[i]) {
      assert FitsWire(cmds[i]);
    }
    StreamOfEncodings(vs, []);
    assert EncodeAll(vs) + [] == EncodeAll(vs);
    NothingShown();
    assert vs + [] == vs;
    TruncatedCapture(replies, last, cut);
    hide ParseStream;
    forall i | 0 <= i < |vs| ensures CommandOf(vs[i]) == cmds[i] {
    }
    assert CommandsOf(vs) == cmds;
  }

  lemma {:induction false} FilterKeeps<T>(p: T -> bool, xs: seq<T>, x: T)
    requires x in Filter(p, xs)
    ensures x in xs
  {
    if x in Filter(p, xs[1..]) {
      FilterKeeps(p, xs[1..], x);
    }
  }

  /** Every non-empty stretch of a connection's traffic is decoded in the course of the trace. */
  lemma StretchIsDecoded(sniff: Sniffer, events: seq<Event>, order: seq<Key>, k: Key, run: seq<Event>, ex: Exchange)
    requires VisitsOnce(order, BufsAfter(map[], events).Keys)
    requires run in Runs(ForKey(events, k)) && run != []
    requires var b := Assemble(run); ex in Decode(sniff, k.pid, FdOf(k), b.read, b.write, b.truncated)
    ensures ex in ExchangesOf(sniff, events, order)
  {
    hide Decode;
    hide Assemble;
    hide FdOf;
    hide BufsAfter;
    hide ClosedSegments;
    hide FlushedSegments;
    var s := Segment(k, FdOf(k), Assemble(run));
    DecodedExactlyOnce(events, order, k);
    FlatMapContains(FinishRun(k), Runs(ForKey(events, k)), run, s);
    FilterKeeps(OfSegmentKey(k), AllSegments(events, order), s);
    FlatMapContains(Decoder(sniff), AllSegments(events, order), s, ex);
    FlatMapAppend(Decoder(sniff), ClosedSegments(map[], events), FlushedSegments(BufsAfter(map[], events), order));
  }

  // ---- what a stretch of traffic becomes ----

  /** `ex` is what `decode` makes of a stretch of traffic: HTTP if the sniffer takes it for that,
      otherwise the Redis calls if there are any. */
  predicate MadeOf(sniff: Sniffer, k: Key, run: seq<Event>, ex: Exchange) {
    var read, written := First64K(ReadBytes(run)), First64K(WriteBytes(run));
    && ex.pid == k.pid && ex.fd == FdOf(k) && (ex.truncated <==> AnyTruncated(run))
    && (sniff(read, written).Some? ==>
          ex.protocol == ProtocolHTTP && ex.http == sniff(read, written) && ex.redis == [])
    && (sniff(read, written).None? ==>
          && ex.protocol == ProtocolRedis && ex.http == None
          && ex.redis == TryCalls(written, read) && ex.redis != [])
  }

  lemma DecodeExactly(sniff: Sniffer, k: Key, run: seq<Event>, ex: Exchange)
    ensures ex in Decoder(sniff)(Segment(k, FdOf(k), Assemble(run))) <==> MadeOf(sniff, k, run, ex)
  {
    hide TryCalls;
    hide FdOf;
    hide First64K;
    hide AnyTruncated;
  }

  lemma {:induction false} ComesFrom<T, U>(f: T -> seq<U>, xs: seq<T>, y: U) returns (x: T)
    requires y in FlatMap(f, xs)
    ensures x in xs && y in f(x)
  {
    if y in f(xs[0]) {
      x := xs[0];
    } else {
      x := ComesFrom(f, xs[1..], y);
    }
  }

  lemma DecodedFromAStretch(sniff: Sniffer, events: seq<Event>, order: seq<Key>, ex: Exchange)
    returns (k: Key, run: seq<Event>)
    requires VisitsOnce(order, BufsAfter(map[], events).Keys)
    requires ex in ExchangesOf(sniff, events, order)
    ensures run in Runs(ForKey(events, k)) && run != [] && MadeOf(sniff, k, run, ex)
  {
    hide Decode;
    hide MadeOf;
    hide Assemble;
    hide FdOf;
    hide BufsAfter;
    hide ClosedSegments;
    hide FlushedSegments;
    hide Runs;
    hide ForKey;
    FlatMapAppend(Decoder(sniff), ClosedSegments(map[], events), FlushedSegments(BufsAfter(map[], events), order));
    var s := ComesFrom(Decoder(sniff), AllSegments(events, order), ex);
    k := s.key;
    FilterHas(OfSegmentKey(k), AllSegments(events, order), s);
    DecodedExactlyOnce(events, order, k);
    run := ComesFrom(FinishRun(k), Runs(ForKey(events, k)), s);
    DecodeExactly(sniff, k, run, ex);
  }

  lemma {:induction false} FilterHas<T>(p: T -> bool, xs: seq<T>, x: T)
    requires x in xs && p(x)
    ensures x in Filter(p, xs)
  {
    if x != xs[0] {
      FilterHas(p, xs[1..], x);
    }
  }

  /** The exchanges of a whole trace are exactly what the non-empty stretches of its connections'
      traffic make. */
  lemma ExchangesExactly(sniff: Sniffer, events: seq<Event>, order: seq<Key>, ex: Exchange)
    requires VisitsOnce(order, BufsAfter(map[], events).Keys)
    ensures ex in ExchangesOf(sniff, events, order) <==>
      exists k, run :: run in Runs(ForKey(events, k)) && run != [] && MadeOf(sniff, k, run, ex)
  {
    hide MadeOf;
    hide BufsAfter;
    hide ExchangesOf;
    hide Runs;
    hide ForKey;
    hide Decode;
    if ex in ExchangesOf(sniff, events, order) {
      var k, run := DecodedFromAStretch(sniff, events, order, ex);
    }
    if k, run :| run in Runs(ForKey(events, k)) && run != [] && MadeOf(sniff, k, run, ex) {
      DecodeExactly(sniff, k, run, ex);
      StretchIsDecoded(sniff, events, order, k, run, ex);
    }
  }

  /** A recording has a request under test if and only if some stretch of traffic is taken for HTTP:
      otherwise building it fails. */
  lemma RequestUnderTestExactly(sniff: Sniffer, events: seq<Event>, order: seq<Key>)
    requires VisitsOnce(order, BufsAfter(map[], events).Keys)
    ensures FirstHTTP(ExchangesOf(sniff, events, order)) < |ExchangesOf(sniff, events, order)| <==>
      exists k, run ::
        && run in Runs(ForKey(events, k)) && run != []
        && sniff(First64K(ReadBytes(run)), First64K(WriteBytes(run))).Some?
  {
    hide BufsAfter;
    hide ExchangesOf;
    hide Runs;
    hide ForKey;
    hide FdOf;
    hide First64K;
    hide TryCalls;
    hide AnyTruncated;
    hide FirstHTTP;
    var all := ExchangesOf(sniff, events, order);
    var i := FirstHTTP(all);
    if i < |all| {
      ExchangesExactly(sniff, events, order, all[i]);
    }
    if k, run :|
      && run in Runs(ForKey(events, k)) && run != []
      && sniff(First64K(ReadBytes(run)), First64K(WriteBytes(run))).Some?
    {
      var http := sniff(First64K(ReadBytes(run)), First64K(WriteBytes(run)));
      var ex := Exchange(k.pid, FdOf(k), ProtocolHTTP, http, [], AnyTruncated(run));
      assert MadeOf(sniff, k, run, ex);
      ExchangesExactly(sniff, events, order, ex);
      var j :| 0 <= j < |all| && all[j] == ex;
      assert IsHTTP(all[j]);
    }
  }

  /** What is recorded of a session whose captured bytes stop anywhere: the commands that are
      complete, with the replies that are. */
  function RecordedOf(cmds: seq<Command>, replies: seq<Value>, written: bytes, read: bytes): seq<RedisCall> {
    Paired(cmds[..Complete(CommandValues(cmds), written)], replies[..Complete(replies, read)])
  }

  lemma CutSessionDecodes(cmds: seq<Command>, replies: seq<Value>, written: bytes, read: bytes)
    requires forall i :: 0 <= i < |cmds| ==> FitsWire(cmds[i])
    requires AllWellFormed(replies)
    requires written <= EncodeCommands(cmds) && read <= EncodeAll(replies)
    ensures TryCalls(written, read) == RecordedOf(cmds, replies, written, read)
  {
    hide Encode;
    hide EncodeAll;
    hide Paired;
    hide ParseStream;
    hide Complete;
    var vs, n := CommandValues(cmds), Complete(CommandValues(cmds), written);
    EncodeCommandsIs(cmds);
    hide EncodeCommands;
    forall i | 0 <= i < |vs| ensures WellFormed(vs[i]) && CommandOf(vs[i]) == cmds[i] {
      assert FitsWire(cmds[i]);
    }
    CutCaptureDecodes(vs, written);
    CutCaptureDecodes(replies, read);
    assert CommandsOf(vs[..n]) == cmds[..n];
  }

  /** Against the whole session: the calls of the complete commands, in order, each with its own
      reply if that is complete and with "?" if it is not. */
  lemma CutSessionExactly(cmds: seq<Command>, replies: seq<Value>, written: bytes, read: bytes)
    requires forall i :: 0 <= i < |cmds| ==> FitsWire(cmds[i])
    requires AllWellFormed(replies)
    requires written <= EncodeCommands(cmds) && read <= EncodeAll(replies)
    ensures var cut, full, at := TryCalls(written, read), Paired(cmds, replies), DataIndices(cmds);
      && |cut| <= |full| == |at|
      && (forall j :: 0 <= j < |full| ==> (j < |cut| <==> at[j] < Complete(CommandValues(cmds), written)))
      && forall j :: 0 <= j < |cut| ==>
           cut[j] == if at[j] < Complete(replies, read) then full[j] else RedisCall(full[j].command, NO_REPLY)
  {
    hide TryCalls;
    hide Paired;
    hide Complete;
    CutSessionDecodes(cmds, replies, written, read);
    PairedCut(cmds, replies, Complete(CommandValues(cmds), written), Complete(replies, read));
  }

  /** A stretch of a connection's traffic on which commands and replies went by, cut anywhere by its
      end, and not taken for HTTP once cut to the buffer cap; in a trace flushed in some order. */
  ghost predicate Captured(
      sniff: Sniffer, events: seq<Event>, order: seq<Key>, k: Key, run: seq<Event>,
      cmds: seq<Command>, replies: seq<Value>)
  {
    && VisitsOnce(order, BufsAfter(map[], events).Keys)
    && run in Runs(ForKey(events, k)) && run != []
    && (forall i :: 0 <= i < |cmds| ==> FitsWire(cmds[i]))
    && AllWellFormed(replies)
    && WriteBytes(run) <= EncodeCommands(cmds) && ReadBytes(run) <= EncodeAll(replies)
    && sniff(First64K(ReadBytes(run)), First64K(WriteBytes(run))).None?
  }

  /** What is recorded of such a stretch. */
  function CallsOf(run: seq<Event>, cmds: seq<Command>, replies: seq<Value>): seq<RedisCall> {
    RecordedOf(cmds, replies, First64K(WriteBytes(run)), First64K(ReadBytes(run)))
  }

  lemma CapturedDecodes(
      sniff: Sniffer, events: seq<Event>, order: seq<Key>, k: Key, run: seq<Event>,
      cmds: seq<Command>, replies: seq<Value>)
    requires Captured(sniff, events, order, k, run, cmds, replies)
    ensures TryCalls(First64K(WriteBytes(run)), First64K(ReadBytes(run))) == CallsOf(run, cmds, replies)
    ensures First64K(WriteBytes(run)) <= EncodeCommands(cmds) && First64K(ReadBytes(run)) <= EncodeAll(replies)
  {
    hide TryCalls;
    hide RecordedOf;
    hide Encode;
    hide Runs;
    CutSessionDecodes(cmds, replies, First64K(WriteBytes(run)), First64K(ReadBytes(run)));
  }

  /** A captured session is recorded as its complete commands with their complete replies. */
  lemma CapturedSessionIsRecorded(
      sniff: Sniffer, events: seq<Event>, order: seq<Key>, k: Key, run: seq<Event>,
      cmds: seq<Command>, replies: seq<Value>)
    requires Captured(sniff, events, order, k, run, cmds, replies)
    requires CallsOf(run, cmds, replies) != []
    ensures Exchange(k.pid, FdOf(k), ProtocolRedis, None, CallsOf(run, cmds, replies), AnyTruncated(run))
      in ExchangesOf(sniff, events, order)
  {
    hide CallsOf;
    hide FdOf;
    hide Runs;
    hide ForKey;
    hide BufsAfter;
    hide TryCalls;
    hide ExchangesOf;
    CapturedDecodes(sniff, events, order, k, run, cmds, replies);
    var ex := Exchange(k.pid, FdOf(k), ProtocolRedis, None, CallsOf(run, cmds, replies), AnyTruncated(run));
    StretchIsDecoded(sniff, events, order, k, run, ex);
  }

  /** A captured session, replayed call by call from the recording of the whole trace: the client
      sees the recorded reply if and only if the first recorded call with the same folded text was
      answered by a text without LF that equals it once trailing CRs are gone. */
  lemma CapturedCallReplaysExactly(
      sniff: Sniffer, events: seq<Event>, order: seq<Key>, k: Key, run: seq<Event>,
      cmds: seq<Command>, replies: seq<Value>, call: RedisCall)
    requires Captured(sniff, events, order, k, run, cmds, replies)
    requires call in CallsOf(run, cmds, replies)
    ensures var deps := Dependencies(ExchangesOf(sniff, events, order));
      var m := FirstMatch(deps, Folded(call.command));
      && m < |deps|
      && ReplyTo(deps, call.command) == EncodeReply(deps[m].response)
      && (ShowsAs(ReplyTo(deps, call.command), call.reply) <==>
          NoLF(deps[m].response) && TrimEol(deps[m].response) == call.reply)
  {
    hide CallsOf;
    hide FdOf;
    hide Captured;
    hide TryCalls;
    hide ExchangesOf;
    hide ShowsAs;
    hide ReplyTo;
    CapturedSessionIsRecorded(sniff, events, order, k, run, cmds, replies);
    CapturedDecodes(sniff, events, order, k, run, cmds, replies);
    var ex := Exchange(k.pid, FdOf(k), ProtocolRedis, None, CallsOf(run, cmds, replies), AnyTruncated(run));
    RecordedCallReplaysExactly(
      ExchangesOf(sniff, events, order), ex, call, First64K(WriteBytes(run)), First64K(ReadBytes(run)));
  }

  /** The same on the wire, for the jth recorded call of the session, whose reply was captured in
      full: the proxy sends the very bytes that the server sent, if and only if the first recorded
      call with the same folded text has the same display, and the captured value is of a kind that
      its display determines. A bulk string, an array or a null array never comes back as it was. */
  lemma CapturedReplyComesBackExactly(
      sniff: Sniffer, events: seq<Event>, order: seq<Key>, k: Key, run: seq<Event>,
      cmds: seq<Command>, replies: seq<Value>, j: nat)
    requires Captured(sniff, events, order, k, run, cmds, replies)
    requires j < |DataIndices(cmds)|
    requires DataIndices(cmds)[j] < Complete(CommandValues(cmds), First64K(WriteBytes(run)))
    requires DataIndices(cmds)[j] < Complete(replies, First64K(ReadBytes(run)))
    ensures var deps := Dependencies(ExchangesOf(sniff, events, order));
      var call, v := Paired(cmds, replies)[j], replies[DataIndices(cmds)[j]];
      var m := FirstMatch(deps, Folded(call.command));
      && m < |deps|
      && (ReplyTo(deps, call.command) == Encode(v) <==> deps[m].response == Render(v) && KeepsWireForm(v))
  {
    hide ExchangesOf;
    hide ShowsAs;
    hide ReplyTo;
    hide Encode;
    hide EncodeReply;
    hide Render;
    hide KeepsWireForm;
    hide Folded;
    hide Complete;
    hide Captured;
    var deps := Dependencies(ExchangesOf(sniff, events, order));
    var call, v := Paired(cmds, replies)[j], replies[DataIndices(cmds)[j]];
    CompleteCallIsRecorded(run, cmds, replies, j);
    CapturedCallReplaysExactly(sniff, events, order, k, run, cmds, replies, call);
    WireFormExactly(v, deps[FirstMatch(deps, Folded(call.command))].response);
  }

  lemma CompleteCallIsRecorded(run: seq<Event>, cmds: seq<Command>, replies: seq<Value>, j: nat)
    requires j < |DataIndices(cmds)|
    requires DataIndices(cmds)[j] < Complete(CommandValues(cmds), First64K(WriteBytes(run)))
    requires DataIndices(cmds)[j] < Complete(replies, First64K(ReadBytes(run)))
    ensures Paired(cmds, replies)[j] in CallsOf(run, cmds, replies)
  {
    hide Complete;
    hide DataIndices;
    hide First64K;
    var n := Complete(CommandValues(cmds), First64K(WriteBytes(run)));
    var m := Complete(replies, First64K(ReadBytes(run)));
    PairedCut(cmds, replies, n, m);
    assert CallsOf(run, cmds, replies)[j] == Paired(cmds, replies)[j];
  }

  /** One command answered by a bulk string with an LF in it: captured and recorded as it was, and
      replayed as more than one value, so that the client is out of step from then on. */
  lemma CapturedLFBreaksReplay(cmd: Command, text: bytes)
    requires FitsWire(cmd) && IsData(cmd) && |text| <= MAX_INT && !NoLF(text)
    ensures var calls := TryCalls(EncodeCommands([cmd]), EncodeAll([Bulk(text)]));
      && calls == [RedisCall(cmd, text)]
      && var seen := ParseValue(ReplyTo(RecordedAs(calls), cmd));
         seen.Got? && seen.rest != [] && Render(seen.value) != text
  {
    hide TryCalls;
    hide ReplyTo;
    hide ParseValue;
    hide EncodeReply;
    hide RecordedAs;
    hide IsData;
    hide FitsWire;
    hide Encode;
    hide EncodeAll;
    hide EncodeCommands;
    hide TrimEol;
    hide NoLF;
    OneCall(cmd, Bulk(text));
    AloneReplays(RedisCall(cmd, text));
    ReplyWithLFLeavesBytes(text, []);
    assert EncodeReply(text) + [] == EncodeReply(text);
  }

  lemma AloneReplays(call: RedisCall)
    requires IsData(call.command)
    ensures ReplyTo(RecordedAs([call]), call.command) == EncodeReply(call.reply)
  {
    AnsweringCall([call], 0);
    ReplyIsADisplay(RecordedAs([call]), call.command);
  }

  lemma OneCall(cmd: Command, reply: Value)
    requires FitsWire(cmd) && IsData(cmd) && WellFormed(reply)
    ensures TryCalls(EncodeCommands([cmd]), EncodeAll([reply])) == [RedisCall(cmd, Render(reply))]
  {
    hide TryCalls;
    hide Render;
    hide IsData;
    SessionDecodes([cmd], [reply], NullBulk, []);
    assert EncodeAll([reply]) + [] == EncodeAll([reply]);
    PairedStep([cmd], [reply], 0);
    assert [cmd][..1] == [cmd] && Paired([cmd][..0], [reply]) == [];
  }

  /** One command answered by a bulk string that ends in a CR: recorded as it was, and replayed as
      one value that shows without it. */
  lemma CapturedTrailingCRIsLost(cmd: Command, text: bytes)
    requires FitsWire(cmd) && IsData(cmd) && |text| <= MAX_INT && NoLF(text) && !LineSafe(text)
    ensures var calls := TryCalls(EncodeCommands([cmd]), EncodeAll([Bulk(text)]));
      && calls == [RedisCall(cmd, text)]
      && ShowsAs(ReplyTo(RecordedAs(calls), cmd), TrimEol(text))
      && TrimEol(text) != text
  {
    hide TryCalls;
    hide ReplyTo;
    hide ParseValue;
    hide EncodeReply;
    hide RecordedAs;
    hide IsData;
    hide FitsWire;
    hide Encode;
    hide EncodeAll;
    hide EncodeCommands;
    hide TrimEol;
    hide NoLF;
    OneCall(cmd, Bulk(text));
    AloneReplays(RedisCall(cmd, text));
    ReplyReads(text, []);
    TrimEolLineSafe(text);
    assert EncodeReply(text) + [] == EncodeReply(text);
  }

  /** The smallest example: a value of one letter and a CR. */
  lemma TrailingCRIsLost()
    ensures var calls := TryCalls(EncodeCommands([["GET", "k"]]), EncodeAll([Bulk("a\r")]));
      && calls == [RedisCall(["GET", "k"], "a\r")]
      && ShowsAs(ReplyTo(RecordedAs(calls), ["GET", "k"]), "a")
  {
    hide TryCalls;
    hide ReplyTo;
    hide ShowsAs;
    assert Upper("GET")[0] == 'G';
    TrimEolIs("a\r", "a");
    CapturedTrailingCRIsLost(["GET", "k"], "a\r");
  }

  /** The smallest example: a value of two lines. */
  lemma TwoLineValueBreaksReplay()
    ensures var calls := TryCalls(EncodeCommands([["GET", "k"]]), EncodeAll([Bulk("a\nb")]));
      && calls == [RedisCall(["GET", "k"], "a\nb")]
      && ParseValue(ReplyTo(RecordedAs(calls), ["GET", "k"])).rest != []
  {
    hide TryCalls;
    hide ReplyTo;
    assert Upper("GET")[0] == 'G';
    assert "a\nb"[1] == '\n';
    CapturedLFBreaksReplay(["GET", "k"], "a\nb");
  }
}
