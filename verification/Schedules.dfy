/** When the scheduling of a recording shows on replay: the merge of the two event sources never
    does, the order in which the flush visits the connections left open sometimes does. */
module Schedules {
  import opened Bytes
  import opened Sequences
  import opened Events
  import opened Resp
  import opened RespLaws
  import opened RedisCalls
  import opened Exchanges
  import opened Recorder
  import opened Proxy
  import opened Replay
  import opened Streamer
  import opened StreamerLaws
  import EndToEnd
  import Instances

  // ---- which response answers ----

  /** The response that answers a command when it is looked up, if there is one. */
  function Answer(deps: seq<Dependency>, cmd: Command): Option<bytes> {
    var i := FirstMatch(deps, Folded(cmd));
    if i < |deps| then Some(deps[i].response) else None
  }

  lemma AnswerAppend(xs: seq<Dependency>, ys: seq<Dependency>, cmd: Command)
    ensures Answer(xs + ys, cmd) == if Answer(xs, cmd).Some? then Answer(xs, cmd) else Answer(ys, cmd)
  {
    var want := Folded(cmd);
    hide Folded;
    hide Lower;
    var i, j, k := FirstMatch(xs, want), FirstMatch(ys, want), FirstMatch(xs + ys, want);
    hide FirstMatch;
    if i < |xs| {
      assert (xs + ys)[i] == xs[i];
      assert k <= i && (xs + ys)[k] == xs[k];
    } else if j < |ys| {
      assert (xs + ys)[|xs| + j] == ys[j];
      assert k >= |xs| && (xs + ys)[k] == ys[k - |xs|];
    }
  }

  /** Replies are as different as the responses that answer. */
  lemma SameReplyExactly(xs: seq<Dependency>, ys: seq<Dependency>, cmd: Command)
    requires IsData(cmd) && Answer(xs, cmd).Some? == Answer(ys, cmd).Some?
    ensures ReplyTo(xs, cmd) == ReplyTo(ys, cmd) <==> Answer(xs, cmd) == Answer(ys, cmd)
  {
    hide Folded;
    hide FirstMatch;
    hide EncodeReply;
    hide IsAdminCommand;
    if Answer(xs, cmd).Some? && ReplyTo(xs, cmd) == ReplyTo(ys, cmd) {
      EncodeReplyInjective(Answer(xs, cmd).value, Answer(ys, cmd).value);
    }
  }

  // ---- what the flush adds to a recording ----

  /** The dependencies of one connection that is still open at the end. */
  function LeftOver(sniff: Sniffer, bufs: map<Key, Bufs>, k: Key): seq<Dependency> {
    Dependencies(DecodeAll(sniff, Flusher(bufs)(k)))
  }

  function LeftOvers(sniff: Sniffer, bufs: map<Key, Bufs>, order: seq<Key>): seq<Dependency> {
    if order == [] then [] else LeftOver(sniff, bufs, order[0]) + LeftOvers(sniff, bufs, order[1..])
  }

  lemma {:induction false} FlushedDependencies(sniff: Sniffer, bufs: map<Key, Bufs>, order: seq<Key>)
    ensures Dependencies(DecodeAll(sniff, FlushedSegments(bufs, order))) == LeftOvers(sniff, bufs, order)
    decreases |order|
  {
    if order != [] {
      FlushedDependencies(sniff, bufs, order[1..]);
      FlatMapAppend(Decoder(sniff), Flusher(bufs)(order[0]), FlushedSegments(bufs, order[1..]));
      FlatMapAppend(
        DependenciesOf, DecodeAll(sniff, Flusher(bufs)(order[0])),
        DecodeAll(sniff, FlushedSegments(bufs, order[1..])));
    }
  }

  /** The dependencies of the connections closed in the course of a trace. */
  function OfClosed(sniff: Sniffer, events: seq<Event>): seq<Dependency> {
    Dependencies(DecodeAll(sniff, ClosedSegments(map[], events)))
  }

  function Recorded(sniff: Sniffer, events: seq<Event>, order: seq<Key>): seq<Dependency> {
    Dependencies(ExchangesOf(sniff, events, order))
  }

  lemma RecordedSplits(sniff: Sniffer, events: seq<Event>, order: seq<Key>)
    ensures Recorded(sniff, events, order)
         == OfClosed(sniff, events) + LeftOvers(sniff, BufsAfter(map[], events), order)
  {
    hide DecodeAll;
    hide FlushedSegments;
    hide ClosedSegments;
    hide BufsAfter;
    hide LeftOvers;
    var bufs := BufsAfter(map[], events);
    FlatMapAppend(
      DependenciesOf, DecodeAll(sniff, ClosedSegments(map[], events)),
      DecodeAll(sniff, FlushedSegments(bufs, order)));
    FlushedDependencies(sniff, bufs, order);
  }

  /** The connections left open answer a command if and only if one of them does, and then with the
      response of one that does. */
  lemma {:induction false} AnswerOfLeftOvers(sniff: Sniffer, bufs: map<Key, Bufs>, order: seq<Key>, cmd: Command)
    ensures var answer := Answer(LeftOvers(sniff, bufs, order), cmd);
      && (answer.None? <==> forall k :: k in order ==> Answer(LeftOver(sniff, bufs, k), cmd).None?)
      && (answer.Some? ==> exists k :: k in order && Answer(LeftOver(sniff, bufs, k), cmd) == answer)
    decreases |order|
  {
    hide Answer;
    hide LeftOver;
    if order == [] {
      assert Answer([], cmd).None? by { NoAnswer(cmd); }
    } else {
      var k, rest := order[0], order[1..];
      AnswerAppend(LeftOver(sniff, bufs, k), LeftOvers(sniff, bufs, rest), cmd);
      AnswerOfLeftOvers(sniff, bufs, rest, cmd);
      assert forall j :: j in order <==> j == k || j in rest;
    }
  }

  lemma NoAnswer(cmd: Command)
    ensures Answer([], cmd) == None
  {
  }

  // ---- schedules ----

  /** A merge of the two rings and an order of its flush. */
  ghost predicate Schedule(calls: seq<Event>, tls: seq<Event>, merged: seq<Event>, order: seq<Key>) {
    Interleaves(calls, tls, merged) && VisitsOnce(order, BufsAfter(map[], merged).Keys)
  }

  /** A command is answered alike from every recording of the same two rings. */
  ghost predicate RepliesAlike(sniff: Sniffer, calls: seq<Event>, tls: seq<Event>, cmd: Command) {
    forall x, y, xorder, yorder :: Schedule(calls, tls, x, xorder) && Schedule(calls, tls, y, yorder) ==>
      ReplyTo(Recorded(sniff, x, xorder), cmd) == ReplyTo(Recorded(sniff, y, yorder), cmd)
  }

  /** The connections left open that answer a command at all answer it alike. */
  predicate OpenAgree(sniff: Sniffer, bufs: map<Key, Bufs>, cmd: Command) {
    forall j, k ::
      (j in bufs && k in bufs
       && Answer(LeftOver(sniff, bufs, j), cmd).Some? && Answer(LeftOver(sniff, bufs, k), cmd).Some?) ==>
        Answer(LeftOver(sniff, bufs, j), cmd) == Answer(LeftOver(sniff, bufs, k), cmd)
  }

  lemma {:induction false} OneAfterTheOther(calls: seq<Event>, tls: seq<Event>)
    ensures Interleaves(calls, tls, calls + tls)
    decreases |calls| + |tls|
  {
    if calls != [] {
      OneAfterTheOther(calls[1..], tls);
      assert (calls + tls)[1..] == calls[1..] + tls;
    } else if tls != [] {
      OneAfterTheOther(calls, tls[1..]);
      assert (calls + tls)[1..] == calls + tls[1..];
    }
  }

  /** What a schedule contributes to an answer: nothing but the order of the flush. */
  lemma AnswerOfSchedule(
      sniff: Sniffer, calls: seq<Event>, tls: seq<Event>, x: seq<Event>, order: seq<Key>, cmd: Command)
    requires Rings(calls, tls) && Schedule(calls, tls, x, order)
    ensures var bufs := BufsAfter(map[], calls + tls);
      && VisitsOnce(order, bufs.Keys)
      && Answer(Recorded(sniff, x, order), cmd) ==
           var closed := Answer(OfClosed(sniff, calls), cmd);
           if closed.Some? then closed else Answer(LeftOvers(sniff, bufs, order), cmd)
  {
    OneAfterTheOther(calls, tls);
    MergesLeaveSameBuffers(calls, tls, x, calls + tls);
    ClosesIgnoreTls(map[], map[], calls, tls, x);
    RecordedSplits(sniff, x, order);
    hide Answer;
    hide Recorded;
    hide LeftOvers;
    AnswerAppend(OfClosed(sniff, x), LeftOvers(sniff, BufsAfter(map[], x), order), cmd);
  }

  lemma InOrderExactly(order: seq<Key>, keys: set<Key>, k: Key)
    requires VisitsOnce(order, keys)
    ensures k in order <==> k in keys
  {
    assert k in order <==> k in multiset(order);
    assert k in keys <==> k in multiset(keys);
  }

  lemma AgreeingAnswer(sniff: Sniffer, bufs: map<Key, Bufs>, xorder: seq<Key>, yorder: seq<Key>, cmd: Command)
    requires VisitsOnce(xorder, bufs.Keys) && VisitsOnce(yorder, bufs.Keys)
    ensures Answer(LeftOvers(sniff, bufs, xorder), cmd).Some? == Answer(LeftOvers(sniff, bufs, yorder), cmd).Some?
    ensures OpenAgree(sniff, bufs, cmd) ==>
      Answer(LeftOvers(sniff, bufs, xorder), cmd) == Answer(LeftOvers(sniff, bufs, yorder), cmd)
  {
    hide Answer;
    hide LeftOver;
    hide LeftOvers;
    hide VisitsOnce;
    AnswerOfLeftOvers(sniff, bufs, xorder, cmd);
    AnswerOfLeftOvers(sniff, bufs, yorder, cmd);
    forall k ensures k in xorder <==> k in bufs ensures k in yorder <==> k in bufs {
      InOrderExactly(xorder, bufs.Keys, k);
      InOrderExactly(yorder, bufs.Keys, k);
    }
  }

  /** An order in which a given connection comes first; if it answers a command, it does so for all. */
  lemma FirstInOrder(sniff: Sniffer, bufs: map<Key, Bufs>, k: Key, cmd: Command) returns (order: seq<Key>)
    requires k in bufs && Answer(LeftOver(sniff, bufs, k), cmd).Some?
    ensures VisitsOnce(order, bufs.Keys)
    ensures Answer(LeftOvers(sniff, bufs, order), cmd) == Answer(LeftOver(sniff, bufs, k), cmd)
  {
    hide Answer;
    hide LeftOver;
    var rest := Instances.SomeOrder(bufs.Keys - {k});
    order := [k] + rest;
    assert multiset(bufs.Keys) == multiset{k} + multiset(bufs.Keys - {k});
    AnswerAppend(LeftOver(sniff, bufs, k), LeftOvers(sniff, bufs, rest), cmd);
    assert order[1..] == rest;
  }

  /** Exactly when the scheduling of a recording cannot show in the reply to a command: when the
      command is never looked up, or a connection closed during the recording already answers it, or
      the connections still open at its end that answer it agree on how. */
  lemma RepliesAlikeExactly(sniff: Sniffer, calls: seq<Event>, tls: seq<Event>, cmd: Command)
    requires Rings(calls, tls)
    ensures RepliesAlike(sniff, calls, tls, cmd) <==>
      || !IsData(cmd)
      || Answer(OfClosed(sniff, calls), cmd).Some?
      || OpenAgree(sniff, BufsAfter(map[], calls + tls), cmd)
  {
    hide IsAdminCommand;
    hide OpenAgree;
    hide OfClosed;
    hide BufsAfter;
    hide Recorded;
    hide Answer;
    hide Schedule;
    var bufs := BufsAfter(map[], calls + tls);
    if !IsData(cmd) || Answer(OfClosed(sniff, calls), cmd).Some? || OpenAgree(sniff, bufs, cmd) {
      forall x, y, xorder, yorder | Schedule(calls, tls, x, xorder) && Schedule(calls, tls, y, yorder)
        ensures ReplyTo(Recorded(sniff, x, xorder), cmd) == ReplyTo(Recorded(sniff, y, yorder), cmd)
      {
        if IsData(cmd) {
          AnswerOfSchedule(sniff, calls, tls, x, xorder, cmd);
          AnswerOfSchedule(sniff, calls, tls, y, yorder, cmd);
          AgreeingAnswer(sniff, bufs, xorder, yorder, cmd);
          SameReplyExactly(Recorded(sniff, x, xorder), Recorded(sniff, y, yorder), cmd);
        }
      }
    } else {
      OpenDisagreementShows(sniff, calls, tls, cmd);
    }
  }

  lemma OpenDisagreementShows(sniff: Sniffer, calls: seq<Event>, tls: seq<Event>, cmd: Command)
    requires Rings(calls, tls) && IsData(cmd)
    requires Answer(OfClosed(sniff, calls), cmd).None?
    requires !OpenAgree(sniff, BufsAfter(map[], calls + tls), cmd)
    ensures !RepliesAlike(sniff, calls, tls, cmd)
  {
    hide IsData;
    hide OfClosed;
    hide Recorded;
    hide Answer;
    hide LeftOver;
    hide LeftOvers;
    hide ReplyTo;
    hide BufsAfter;
    var x := calls + tls;
    var bufs := BufsAfter(map[], x);
    var j, k :| j in bufs && k in bufs
      && Answer(LeftOver(sniff, bufs, j), cmd).Some? && Answer(LeftOver(sniff, bufs, k), cmd).Some?
      && Answer(LeftOver(sniff, bufs, j), cmd) != Answer(LeftOver(sniff, bufs, k), cmd);
    var jorder := FirstInOrder(sniff, bufs, j, cmd);
    var korder := FirstInOrder(sniff, bufs, k, cmd);
    OneAfterTheOther(calls, tls);
    assert Schedule(calls, tls, x, jorder) && Schedule(calls, tls, x, korder);
    AnswerOfSchedule(sniff, calls, tls, x, jorder, cmd);
    AnswerOfSchedule(sniff, calls, tls, x, korder, cmd);
    SameReplyExactly(Recorded(sniff, x, jorder), Recorded(sniff, x, korder), cmd);
  }

  // ---- the failing case: two connections left open ----

  /** A complete event that carries `payload`. */
  function Carrying(pid: uint32, fd: int32, op: uint32, payload: bytes): (e: Event)
    requires |payload| <= DATA_CAP
    ensures Payload(e) == payload && !Truncated(e) && e.pid == pid && e.fd == fd && e.op == op
  {
    EventRecord(pid, 0, 0, fd, op, 0, 0, 0, 0, |payload|, |payload|, payload + BlankData()[|payload|..])
  }

  /** One command written and its reply read. */
  function Asking(pid: uint32, fd: int32, cmd: Command, v: Value): seq<Event>
    requires |EncodeCommand(cmd)| <= DATA_CAP && |Encode(v)| <= DATA_CAP
  {
    [Carrying(pid, fd, OP_WRITE, EncodeCommand(cmd)), Carrying(pid, fd, OP_READ, Encode(v))]
  }

  function OpenKey(pid: uint32, fd: int32): Key {
    Key(pid, ConnFD, ToUint32(fd))
  }

  lemma AfterAsking(bufs: map<Key, Bufs>, pid: uint32, fd: int32, cmd: Command, v: Value)
    requires |EncodeCommand(cmd)| <= DATA_CAP && |Encode(v)| <= DATA_CAP
    requires OpenKey(pid, fd) !in bufs
    ensures var events := Asking(pid, fd, cmd, v);
      && BufsAfter(bufs, events) == bufs[OpenKey(pid, fd) := Bufs(Encode(v), EncodeCommand(cmd), false)]
      && ClosedSegments(bufs, events) == []
  {
    hide EncodeCommand;
    hide Encode;
    hide Carrying;
    hide BufsAfter;
    hide ClosedSegments;
    var k, c, r := OpenKey(pid, fd), EncodeCommand(cmd), Encode(v);
    var e, f := Carrying(pid, fd, OP_WRITE, c), Carrying(pid, fd, OP_READ, r);
    var asked := BufsStep(bufs, e);
    assert [] + c == c && [] + r == r;
    assert asked == bufs[k := Bufs([], c, false)];
    assert BufsStep(asked, f) == bufs[k := Bufs(r, c, false)];
    assert SegmentsStep(bufs, e) == SegmentsStep(asked, f) == [];
    AfterTwo(bufs, e, f);
  }

  lemma AfterTwo(bufs: map<Key, Bufs>, e: Event, f: Event)
    ensures BufsAfter(bufs, [e, f]) == BufsStep(BufsStep(bufs, e), f)
    ensures ClosedSegments(bufs, [e, f]) == SegmentsStep(bufs, e) + SegmentsStep(BufsStep(bufs, e), f)
  {
    hide BufsStep;
    hide SegmentsStep;
    assert [e] + [f] == [e, f];
    AfterAppend(bufs, [e], [f]);
    AfterOne(bufs, e);
    AfterOne(BufsStep(bufs, e), f);
  }

  lemma AfterOne(bufs: map<Key, Bufs>, e: Event)
    ensures BufsAfter(bufs, [e]) == BufsStep(bufs, e) && ClosedSegments(bufs, [e]) == SegmentsStep(bufs, e)
  {
    hide BufsStep;
    hide SegmentsStep;
    assert [e][1..] == [];
  }

  lemma LeftOverOf(sniff: Sniffer, bufs: map<Key, Bufs>, k: Key, cmd: Command, v: Value)
    requires FitsWire(cmd) && IsData(cmd) && WellFormed(v)
    requires k in bufs && bufs[k] == Bufs(Encode(v), EncodeCommand(cmd), false)
    requires sniff(Encode(v), EncodeCommand(cmd)).None?
    ensures LeftOver(sniff, bufs, k) == RecordedAs([RedisCall(cmd, Render(v))])
    ensures Answer(LeftOver(sniff, bufs, k), cmd) == Some(Render(v))
  {
    hide Encode;
    hide EncodeCommand;
    hide TryCalls;
    hide IsData;
    hide WellFormed;
    hide FdOf;
    hide RecordedAs;
    hide Render;
    var s := Segment(k, FdOf(k), bufs[k]);
    var calls := [RedisCall(cmd, Render(v))];
    EndToEnd.OneCall(cmd, v);
    assert EncodeCommands([cmd]) == EncodeCommand(cmd) by { assert [cmd][1..] == []; }
    assert EncodeAll([v]) == Encode(v) by { assert [v][1..] == []; }
    DecodeOne(sniff, s);
    RecordedAlone(Exchange(k.pid, FdOf(k), ProtocolRedis, None, calls, false));
    AnswerAlone(calls[0]);
  }

  lemma AnswerAlone(call: RedisCall)
    ensures Answer(RecordedAs([call]), call.command) == Some(call.reply)
  {
    var deps := RecordedAs([call]);
    assert Lower(deps[0].request) == Folded(call.command);
  }

  /** Two connections of one process that ask the same and are not closed: each order of the flush
      replays the reply of the connection that it visits first. */
  lemma OpenConnectionsRace(
      sniff: Sniffer, pid: uint32, a: int32, b: int32, cmd: Command, v: Value, w: Value)
    requires a != b && FitsWire(cmd) && IsData(cmd) && WellFormed(v) && WellFormed(w)
    requires |EncodeCommand(cmd)| <= DATA_CAP && |Encode(v)| <= DATA_CAP && |Encode(w)| <= DATA_CAP
    requires sniff(Encode(v), EncodeCommand(cmd)).None? && sniff(Encode(w), EncodeCommand(cmd)).None?
    ensures var events := Asking(pid, a, cmd, v) + Asking(pid, b, cmd, w);
      var j, k := OpenKey(pid, a), OpenKey(pid, b);
      && Schedule(events, [], events, [j, k]) && Schedule(events, [], events, [k, j])
      && ReplyTo(Recorded(sniff, events, [j, k]), cmd) == EncodeReply(Render(v))
      && ReplyTo(Recorded(sniff, events, [k, j]), cmd) == EncodeReply(Render(w))
  {
    hide *;
    var x, y := Asking(pid, a, cmd, v), Asking(pid, b, cmd, w);
    var j, k := OpenKey(pid, a), OpenKey(pid, b);
    var bufs := BufsAfter(map[], x + y);
    AfterBothAsk(pid, a, b, cmd, v, w);
    OpenSchedules(x + y, j, k);
    LeftOverOf(sniff, bufs, j, cmd, v);
    LeftOverOf(sniff, bufs, k, cmd, w);
    FirstVisitedAnswers(sniff, x + y, [j, k], cmd);
    FirstVisitedAnswers(sniff, x + y, [k, j], cmd);
  }

  lemma AfterBothAsk(pid: uint32, a: int32, b: int32, cmd: Command, v: Value, w: Value)
    requires a != b
    requires |EncodeCommand(cmd)| <= DATA_CAP && |Encode(v)| <= DATA_CAP && |Encode(w)| <= DATA_CAP
    ensures var events := Asking(pid, a, cmd, v) + Asking(pid, b, cmd, w);
      var j, k, bufs := OpenKey(pid, a), OpenKey(pid, b), BufsAfter(map[], events);
      && j != k && bufs.Keys == {j, k}
      && bufs[j] == Bufs(Encode(v), EncodeCommand(cmd), false)
      && bufs[k] == Bufs(Encode(w), EncodeCommand(cmd), false)
      && ClosedSegments(map[], events) == []
  {
    hide Encode;
    hide EncodeCommand;
    hide Asking;
    hide BufsAfter;
    hide ClosedSegments;
    var x, y := Asking(pid, a, cmd, v), Asking(pid, b, cmd, w);
    WideningIsInjective(a, b);
    AfterAsking(map[], pid, a, cmd, v);
    AfterAsking(BufsAfter(map[], x), pid, b, cmd, w);
    AfterAppend(map[], x, y);
  }

  lemma OpenSchedules(events: seq<Event>, j: Key, k: Key)
    requires j != k && BufsAfter(map[], events).Keys == {j, k}
    ensures Schedule(events, [], events, [j, k]) && Schedule(events, [], events, [k, j])
  {
    OneAfterTheOther(events, []);
    assert events + [] == events;
    hide BufsAfter;
  }

  /** The smallest example: two clients get different values of one key. */
  lemma TwoClientsRace(sniff: Sniffer)
    requires forall read, write :: sniff(read, write).None?
    ensures var get := ["GET", "x"];
      exists events, order, other ::
        && Schedule(events, [], events, order) && Schedule(events, [], events, other)
        && ReplyTo(Recorded(sniff, events, order), get) == "+1\r\n"
        && ReplyTo(Recorded(sniff, events, other), get) == "+2\r\n"
  {
    hide *;
    var get, v, w := ["GET", "x"], Bulk("1"), Bulk("2");
    ShortEncodings();
    OpenConnectionsRace(sniff, 1, 3, 4, get, v, w);
    var events := Asking(1, 3, get, v) + Asking(1, 4, get, w);
    var j, k := OpenKey(1, 3), OpenKey(1, 4);
    assert Schedule(events, [], events, [j, k]) && Schedule(events, [], events, [k, j]);
  }

  lemma ShortEncodings()
    ensures var get, v, w := ["GET", "x"], Bulk("1"), Bulk("2");
      && FitsWire(get) && IsData(get) && WellFormed(v) && WellFormed(w)
      && |EncodeCommand(get)| <= DATA_CAP && |Encode(v)| <= DATA_CAP && |Encode(w)| <= DATA_CAP
      && EncodeReply(Render(v)) == "+1\r\n" && EncodeReply(Render(w)) == "+2\r\n"
  {
    var get := ["GET", "x"];
    GetIsData(["x"]);
    assert ["GET"] + ["x"] == get;
    var items := CommandValue(get).items;
    assert items == [Bulk("GET"), Bulk("x")];
    assert items[1..] == [Bulk("x")] && [Bulk("x")][1..] == [];
    assert EncodeAll([Bulk("x")]) == Encode(Bulk("x")) + EncodeAll([]);
    assert EncodeAll(items) == Encode(Bulk("GET")) + EncodeAll([Bulk("x")]);
    assert |Decimal(1)| == |Decimal(2)| == |Decimal(3)| == 1;
  }

  lemma FirstVisitedAnswers(sniff: Sniffer, events: seq<Event>, order: seq<Key>, cmd: Command)
    requires IsData(cmd) && order != [] && ClosedSegments(map[], events) == []
    requires Answer(LeftOver(sniff, BufsAfter(map[], events), order[0]), cmd).Some?
    ensures ReplyTo(Recorded(sniff, events, order), cmd)
         == EncodeReply(Answer(LeftOver(sniff, BufsAfter(map[], events), order[0]), cmd).value)
  {
    hide IsAdminCommand;
    hide Folded;
    hide FirstMatch;
    hide EncodeReply;
    hide LeftOver;
    hide BufsAfter;
    hide Recorded;
    var bufs := BufsAfter(map[], events);
    RecordedSplits(sniff, events, order);
    assert OfClosed(sniff, events) == [];
    assert [] + LeftOvers(sniff, bufs, order) == LeftOvers(sniff, bufs, order);
    AnswerAppend(LeftOver(sniff, bufs, order[0]), LeftOvers(sniff, bufs, order[1..]), cmd);
  }
}
