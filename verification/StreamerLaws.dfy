/** What the streamer promises about a whole trace: buffers are the bytes since the last close,
    every stretch of traffic is decoded once, connections do not disturb each other, and the
    scheduling of the two event sources does not matter. */
module StreamerLaws {
  import opened Bytes
  import opened Sequences
  import opened Events
  import opened Exchanges
  import opened Recorder
  import opened Streamer

  // ---- one connection's part of a trace ----

  function OfKey(k: Key): Event -> bool {
    (e: Event) => KeyOf(e) == Some(k)
  }

  /** The events of one connection, in order. */
  function ForKey(events: seq<Event>, k: Key): seq<Event> {
    Filter(OfKey(k), events)
  }

  /** One connection's events cut at its closes: the stretches between them, possibly empty. */
  function Runs(events: seq<Event>): (r: seq<seq<Event>>)
    ensures r != []
  {
    if events == [] then [[]]
    else
      var r, e := Runs(events[..|events| - 1]), events[|events| - 1];
      if e.op == OP_CLOSE then r + [[]] else r[..|r| - 1] + [r[|r| - 1] + [e]]
  }

  function IsClose(): Event -> bool {
    (e: Event) => e.op == OP_CLOSE
  }

  function NotClose(): Event -> bool {
    (e: Event) => e.op != OP_CLOSE
  }

  function Whole(): seq<Event> -> seq<Event> {
    (run: seq<Event>) => run
  }

  function Closes(events: seq<Event>): nat {
    |Filter(IsClose(), events)|
  }

  function DataEvents(events: seq<Event>): seq<Event> {
    Filter(NotClose(), events)
  }

  function Flatten(runs: seq<seq<Event>>): seq<Event> {
    FlatMap(Whole(), runs)
  }

  function LastRun(events: seq<Event>, k: Key): seq<Event> {
    var r := Runs(ForKey(events, k)); r[|r| - 1]
  }

  function ReadPayload(e: Event): bytes {
    if e.op == OP_READ || e.op == OP_SSL_READ then e.data[..e.dataLen] else []
  }

  function WritePayload(e: Event): bytes {
    if e.op == OP_WRITE || e.op == OP_SSL_WRITE then e.data[..e.dataLen] else []
  }

  function ReadBytes(run: seq<Event>): bytes {
    FlatMap(ReadPayload, run)
  }

  function WriteBytes(run: seq<Event>): bytes {
    FlatMap(WritePayload, run)
  }

  predicate AnyTruncated(run: seq<Event>) {
    exists i :: 0 <= i < |run| && run[i].totalLen > run[i].dataLen
  }

  /** The first 65536 bytes. */
  function First64K(s: bytes): bytes {
    if |s| <= 65536 then s else s[..65536]
  }

  /** What a stretch of traffic amounts to. */
  function Assemble(run: seq<Event>): Bufs {
    Bufs(First64K(ReadBytes(run)), First64K(WriteBytes(run)), AnyTruncated(run))
  }

  // ---- refinement: buffers are the capped bytes since the last close ----

  lemma {:induction false} AfterAppend(bufs: map<Key, Bufs>, xs: seq<Event>, ys: seq<Event>)
    ensures BufsAfter(bufs, xs + ys) == BufsAfter(BufsAfter(bufs, xs), ys)
    ensures ClosedSegments(bufs, xs + ys) == ClosedSegments(bufs, xs) + ClosedSegments(BufsAfter(bufs, xs), ys)
    decreases |xs|
  {
    hide BufsStep;
    hide SegmentsStep;
    if xs == [] {
      assert xs + ys == ys;
    } else {
      AfterAppend(BufsStep(bufs, xs[0]), xs[1..], ys);
      assert (xs + ys)[1..] == xs[1..] + ys;
    }
  }

  lemma AfterSnoc(events: seq<Event>)
    requires events != []
    ensures var before, e := events[..|events| - 1], events[|events| - 1];
      var bufs := BufsAfter(map[], before);
      && BufsAfter(map[], events) == BufsStep(bufs, e)
      && ClosedSegments(map[], events) == ClosedSegments(map[], before) + SegmentsStep(bufs, e)
  {
    hide BufsStep;
    hide SegmentsStep;
    var before, e := events[..|events| - 1], events[|events| - 1];
    assert events == before + [e];
    AfterAppend(map[], before, [e]);
    assert [e][1..] == [];
  }

  lemma ForKeySnoc(events: seq<Event>, k: Key)
    requires events != []
    ensures var before, e := events[..|events| - 1], events[|events| - 1];
      ForKey(events, k) == if KeyOf(e) == Some(k) then ForKey(before, k) + [e] else ForKey(before, k)
  {
    hide KeyOf;
    var before, e := events[..|events| - 1], events[|events| - 1];
    assert events == before + [e];
    FilterAppend(OfKey(k), before, [e]);
    FilterSingle(OfKey(k), e);
    assert ForKey(before, k) + [] == ForKey(before, k);
  }

  lemma RunsSnoc(events: seq<Event>, e: Event)
    ensures var r := Runs(events);
      Runs(events + [e]) == if e.op == OP_CLOSE then r + [[]] else r[..|r| - 1] + [r[|r| - 1] + [e]]
  {
    assert (events + [e])[..|events|] == events;
  }

  lemma CappedAppend(a: bytes, b: bytes)
    ensures Capped(First64K(a) + b) == First64K(a + b)
  {
  }

  lemma UnchangedBytes(s: bytes)
    ensures First64K(s + []) == First64K(s)
  {
    assert s + [] == s;
  }

  lemma AssembleSnoc(run: seq<Event>, e: Event)
    requires IsReadOp(e) || IsWriteOp(e)
    ensures Assemble(run + [e]) == Absorb(Assemble(run), e)
  {
    FlatMapAppend(ReadPayload, run, [e]);
    FlatMapAppend(WritePayload, run, [e]);
    FlatMapSingle(ReadPayload, e);
    FlatMapSingle(WritePayload, e);
    CappedAppend(ReadBytes(run), Payload(e));
    CappedAppend(WriteBytes(run), Payload(e));
    UnchangedBytes(ReadBytes(run));
    UnchangedBytes(WriteBytes(run));
    TruncatedSnoc(run, e);
    hide Capped;
    hide First64K;
    hide AnyTruncated;
  }

  lemma TruncatedSnoc(run: seq<Event>, e: Event)
    ensures AnyTruncated(run + [e]) <==> AnyTruncated(run) || Truncated(e)
  {
    if AnyTruncated(run) {
      var i :| 0 <= i < |run| && Truncated(run[i]);
      assert Truncated((run + [e])[i]);
    }
    if Truncated(e) {
      assert Truncated((run + [e])[|run|]);
    }
  }

  /** After any trace, a connection has buffers exactly when it had traffic since its last close,
      and they hold the first bytes of that traffic, direction by direction, with the flag telling
      whether any of those events was cut short. */
  lemma {:induction false} BuffersAreLastRun(events: seq<Event>, k: Key)
    ensures var bufs, run := BufsAfter(map[], events), LastRun(events, k);
      && (k in bufs <==> run != [])
      && BufsAt(bufs, k) == Assemble(run)
    decreases |events|
  {
    if events == [] {
      AssembleNothing();
    } else {
      var before, e := events[..|events| - 1], events[|events| - 1];
      BuffersAreLastRun(before, k);
      hide LastRun;
      hide BufsAfter;
      hide BufsStep;
      hide Assemble;
      hide Absorb;
      hide KeyOf;
      AfterSnoc(events);
      LastRunSnoc(events, k);
      BufsStepAt(BufsAfter(map[], before), e, k);
      if KeyOf(e) == Some(k) {
        if IsCloseOp(e) {
          AssembleNothing();
        } else {
          AssembleSnoc(LastRun(before, k), e);
        }
      }
    }
  }

  lemma LastRunSnoc(events: seq<Event>, k: Key)
    requires events != []
    ensures var before, e := events[..|events| - 1], events[|events| - 1];
      LastRun(events, k) ==
        if KeyOf(e) != Some(k) then LastRun(before, k) else if IsCloseOp(e) then [] else LastRun(before, k) + [e]
  {
    hide KeyOf;
    hide ForKey;
    hide Runs;
    var before, e := events[..|events| - 1], events[|events| - 1];
    ForKeySnoc(events, k);
    RunsSnoc(ForKey(before, k), e);
  }

  lemma AssembleNothing()
    ensures Assemble([]) == EMPTY
  {
  }

  /** One event's effect on one connection. */
  lemma BufsStepAt(bufs: map<Key, Bufs>, e: Event, k: Key)
    ensures var after := BufsStep(bufs, e);
      if KeyOf(e) != Some(k) then (k in after <==> k in bufs) && BufsAt(after, k) == BufsAt(bufs, k)
      else if IsCloseOp(e) then k !in after && BufsAt(after, k) == EMPTY
      else k in after && BufsAt(after, k) == Absorb(BufsAt(bufs, k), e) && (IsReadOp(e) || IsWriteOp(e))
  {
    hide Absorb;
  }

  // ---- keys ----

  /** Two events share a connection exactly when they agree on the process, on whether they are
      TLS events, and on the descriptor or the SSL pointer. */
  lemma KeysNeverCollide(a: Event, b: Event)
    requires KeyOf(a).Some? && KeyOf(b).Some?
    ensures KeyOf(a) == KeyOf(b) <==>
      && a.pid == b.pid
      && (KeyOf(a).value.kind == ConnTLS <==> KeyOf(b).value.kind == ConnTLS)
      && (if KeyOf(a).value.kind == ConnTLS then a.sslPtr == b.sslPtr else a.fd == b.fd)
  {
    WideningIsInjective(a.fd, b.fd);
  }

  /** The flush hands `decode` the very descriptor the events carried, or -1 for TLS. */
  lemma FlushRecoversFd(e: Event)
    requires KeyOf(e).Some?
    ensures FdOf(KeyOf(e).value) == if KeyOf(e).value.kind == ConnFD then e.fd else -1
  {
    FdSurvivesWidening(e.fd);
  }

  // ---- every stretch of traffic is decoded exactly once ----

  function OfSegmentKey(k: Key): Segment -> bool {
    (s: Segment) => s.key == k
  }

  function SegmentsFor(segments: seq<Segment>, k: Key): seq<Segment> {
    Filter(OfSegmentKey(k), segments)
  }

  function FinishRun(k: Key): seq<Event> -> seq<Segment> {
    (run: seq<Event>) => if run == [] then [] else [Segment(k, FdOf(k), Assemble(run))]
  }

  /** One call of `decode` for each non-empty stretch. */
  function Finished(k: Key, runs: seq<seq<Event>>): seq<Segment> {
    FlatMap(FinishRun(k), runs)
  }

  /** Every call of `decode` over a whole trace. */
  function AllSegments(events: seq<Event>, order: seq<Key>): seq<Segment> {
    ClosedSegments(map[], events) + FlushedSegments(BufsAfter(map[], events), order)
  }

  lemma FinishedSnoc(k: Key, runs: seq<seq<Event>>, run: seq<Event>)
    ensures Finished(k, runs + [run]) ==
      if run == [] then Finished(k, runs) else Finished(k, runs) + [Segment(k, FdOf(k), Assemble(run))]
  {
    hide FdOf;
    hide Assemble;
    FlatMapAppend(FinishRun(k), runs, [run]);
    FlatMapSingle(FinishRun(k), run);
    assert Finished(k, runs) + [] == Finished(k, runs);
  }

  lemma SegmentsForSnoc(events: seq<Event>, k: Key)
    requires events != []
    ensures var before, e := events[..|events| - 1], events[|events| - 1];
      var bufs, past := BufsAfter(map[], before), SegmentsFor(ClosedSegments(map[], before), k);
      SegmentsFor(ClosedSegments(map[], events), k) ==
        if KeyOf(e) == Some(k) && IsCloseOp(e) && k in bufs then past + [Segment(k, FdOf(k), BufsAt(bufs, k))] else past
  {
    hide FdOf;
    hide KeyOf;
    hide BufsAfter;
    hide ClosedSegments;
    hide SegmentsStep;
    var before, e := events[..|events| - 1], events[|events| - 1];
    var bufs := BufsAfter(map[], before);
    var past := ClosedSegments(map[], before);
    AfterSnoc(events);
    FilterAppend(OfSegmentKey(k), past, SegmentsStep(bufs, e));
    SegmentsStepFor(bufs, e, k);
    assert SegmentsFor(past, k) + [] == SegmentsFor(past, k);
  }

  /** Every close decodes the stretch that it ends, unless that is empty. */
  lemma {:induction false} ClosedRunsDecoded(events: seq<Event>, k: Key)
    ensures var r := Runs(ForKey(events, k));
      SegmentsFor(ClosedSegments(map[], events), k) == Finished(k, r[..|r| - 1])
    decreases |events|
  {
    hide FdOf;
    hide KeyOf;
    hide BufsAfter;
    hide SegmentsFor;
    hide Assemble;
    hide Finished;
    hide BufsAt;
    hide ClosedSegments;
    hide ForKey;
    hide Runs;
    if events == [] {
      NothingFinished(k);
    } else {
      var before, e := events[..|events| - 1], events[|events| - 1];
      ClosedRunsDecoded(before, k);
      SegmentsForSnoc(events, k);
      ForKeySnoc(events, k);
      if KeyOf(e) == Some(k) {
        BuffersAreLastRun(before, k);
        RunsSnoc(ForKey(before, k), e);
        var r := Runs(ForKey(before, k));
        var done, last := r[..|r| - 1], r[|r| - 1];
        if IsCloseOp(e) {
          assert (r + [[]])[..|r|] == done + [last];
          FinishedSnoc(k, done, last);
        } else {
          assert (done + [last + [e]])[..|r| - 1] == done;
        }
      }
    }
  }

  lemma NothingFinished(k: Key)
    ensures var r := Runs(ForKey([], k));
      SegmentsFor(ClosedSegments(map[], []), k) == Finished(k, r[..|r| - 1]) == []
  {
  }

  lemma SegmentsStepFor(bufs: map<Key, Bufs>, e: Event, k: Key)
    ensures SegmentsFor(SegmentsStep(bufs, e), k) ==
      if KeyOf(e) == Some(k) && IsCloseOp(e) && k in bufs then [Segment(k, FdOf(k), bufs[k])] else []
  {
    if KeyOf(e).Some? && IsCloseOp(e) && KeyOf(e).value in bufs {
      var j := KeyOf(e).value;
      FlushRecoversFd(e);
      hide FdOf;
      FilterSingle(OfSegmentKey(k), Segment(j, e.fd, bufs[j]));
    }
  }

  lemma {:induction false} FlushedFor(bufs: map<Key, Bufs>, order: seq<Key>, k: Key)
    requires multiset(order)[k] <= 1
    ensures SegmentsFor(FlushedSegments(bufs, order), k) ==
      if k in order && k in bufs then [Segment(k, FdOf(k), bufs[k])] else []
    decreases |order|
  {
    hide FdOf;
    if order != [] {
      var x, rest := order[0], order[1..];
      assert order == [x] + rest;
      assert multiset(order) == multiset{x} + multiset(rest);
      FlushedFor(bufs, rest, k);
      FilterAppend(OfSegmentKey(k), Flusher(bufs)(x), FlushedSegments(bufs, rest));
      if x in bufs {
        FilterSingle(OfSegmentKey(k), Segment(x, FdOf(x), bufs[x]));
      }
      assert x == k ==> k !in multiset(rest);
    }
  }

  /** Over a whole trace, whatever the order of the flush, the calls of `decode` for a connection
      are exactly its non-empty stretches of traffic, each once, in order: the finished ones at
      their closes and the last one at the flush. */
  lemma DecodedExactlyOnce(events: seq<Event>, order: seq<Key>, k: Key)
    requires VisitsOnce(order, BufsAfter(map[], events).Keys)
    ensures SegmentsFor(AllSegments(events, order), k) == Finished(k, Runs(ForKey(events, k)))
  {
    hide FdOf;
    hide BufsAfter;
    hide ClosedSegments;
    hide FlushedSegments;
    hide SegmentsFor;
    hide Runs;
    hide Assemble;
    hide ForKey;
    hide Finished;
    hide BufsAt;
    var bufs, r := BufsAfter(map[], events), Runs(ForKey(events, k));
    var done, last := r[..|r| - 1], r[|r| - 1];
    ClosedRunsDecoded(events, k);
    BuffersAreLastRun(events, k);
    FlushedOnce(bufs, order, k);
    SegmentsForAppend(ClosedSegments(map[], events), FlushedSegments(bufs, order), k);
    assert r == done + [last];
    FinishedSnoc(k, done, last);
    assert Finished(k, done) + [] == Finished(k, done);
  }

  lemma SegmentsForAppend(xs: seq<Segment>, ys: seq<Segment>, k: Key)
    ensures SegmentsFor(xs + ys, k) == SegmentsFor(xs, k) + SegmentsFor(ys, k)
  {
    FilterAppend(OfSegmentKey(k), xs, ys);
  }

  lemma FlushedOnce(bufs: map<Key, Bufs>, order: seq<Key>, k: Key)
    requires VisitsOnce(order, bufs.Keys)
    ensures SegmentsFor(FlushedSegments(bufs, order), k) ==
      if k in bufs then [Segment(k, FdOf(k), BufsAt(bufs, k))] else []
  {
    hide FdOf;
    hide FlushedSegments;
    hide SegmentsFor;
    assert k in order <==> k in multiset(order);
    FlushedFor(bufs, order, k);
  }

  // ---- connections told by the fields of their events ----

  /** The reads, writes and closes of a descriptor. */
  function OnDescriptor(pid: uint32, fd: int32): Event -> bool {
    (e: Event) => e.pid == pid && e.fd == fd && (e.op == OP_READ || e.op == OP_WRITE || e.op == OP_CLOSE)
  }

  /** The reads and writes through an SSL connection. */
  function OnSsl(pid: uint32, ssl: uint64): Event -> bool {
    (e: Event) => e.pid == pid && e.sslPtr == ssl && (e.op == OP_SSL_READ || e.op == OP_SSL_WRITE)
  }

  lemma {:induction false} FilterAlike<T>(p: T -> bool, q: T -> bool, xs: seq<T>)
    requires forall x :: x in xs ==> p(x) == q(x)
    ensures Filter(p, xs) == Filter(q, xs)
  {
    if xs != [] {
      assert xs[0] in xs;
      FilterAlike(p, q, xs[1..]);
    }
  }

  lemma DescriptorEvents(events: seq<Event>, pid: uint32, fd: int32)
    ensures ForKey(events, Key(pid, ConnFD, ToUint32(fd))) == Filter(OnDescriptor(pid, fd), events)
  {
    var k := Key(pid, ConnFD, ToUint32(fd));
    forall e: Event ensures OfKey(k)(e) == OnDescriptor(pid, fd)(e) {
      WideningIsInjective(e.fd, fd);
    }
    FilterAlike(OfKey(k), OnDescriptor(pid, fd), events);
  }

  lemma SslEvents(events: seq<Event>, pid: uint32, ssl: uint64)
    ensures ForKey(events, Key(pid, ConnTLS, ssl)) == Filter(OnSsl(pid, ssl), events)
  {
    FilterAlike(OfKey(Key(pid, ConnTLS, ssl)), OnSsl(pid, ssl), events);
  }

  /** A descriptor's reads and writes are decoded at each of its closes, and what follows the last
      close at the flush; always with that descriptor. */
  lemma DescriptorDecodedExactlyOnce(events: seq<Event>, order: seq<Key>, pid: uint32, fd: int32)
    requires VisitsOnce(order, BufsAfter(map[], events).Keys)
    ensures var k, r := Key(pid, ConnFD, ToUint32(fd)), Runs(Filter(OnDescriptor(pid, fd), events));
      && FdOf(k) == fd
      && SegmentsFor(ClosedSegments(map[], events), k) == Finished(k, r[..|r| - 1])
      && SegmentsFor(AllSegments(events, order), k) == Finished(k, r)
  {
    var k := Key(pid, ConnFD, ToUint32(fd));
    FdSurvivesWidening(fd);
    DescriptorEvents(events, pid, fd);
    ClosedRunsDecoded(events, k);
    DecodedExactlyOnce(events, order, k);
  }

  /** All reads and writes through an SSL connection are decoded together, at the flush. */
  lemma SslDecodedExactlyOnce(events: seq<Event>, order: seq<Key>, pid: uint32, ssl: uint64)
    requires VisitsOnce(order, BufsAfter(map[], events).Keys)
    ensures var k, traffic := Key(pid, ConnTLS, ssl), Filter(OnSsl(pid, ssl), events);
      && SegmentsFor(ClosedSegments(map[], events), k) == []
      && SegmentsFor(AllSegments(events, order), k) ==
           if traffic == [] then [] else [Segment(k, -1, Assemble(traffic))]
  {
    SslEvents(events, pid, ssl);
    TlsDecodedOnlyAtFlush(events, order, Key(pid, ConnTLS, ssl));
  }

  // ---- how bytes are cut into events does not matter ----

  function IsTraffic(): seq<Event> -> bool {
    (run: seq<Event>) => run != []
  }

  /** The stretches of a connection that have any event. */
  function Stretches(events: seq<Event>, k: Key): seq<seq<Event>> {
    Filter(IsTraffic(), Runs(ForKey(events, k)))
  }

  lemma {:induction false} FinishedEach(k: Key, runs: seq<seq<Event>>)
    ensures var stretches := Filter(IsTraffic(), runs);
      && |Finished(k, runs)| == |stretches|
      && forall i :: 0 <= i < |stretches| ==>
           Finished(k, runs)[i] == Segment(k, FdOf(k), Assemble(stretches[i]))
    decreases |runs|
  {
    hide FdOf;
    hide Assemble;
    if runs != [] {
      FinishedEach(k, runs[1..]);
    }
  }

  /** Two stretches whose events carry the same bytes, direction by direction, up to the cap. */
  predicate SameBytes(a: seq<Event>, b: seq<Event>) {
    && First64K(ReadBytes(a)) == First64K(ReadBytes(b))
    && First64K(WriteBytes(a)) == First64K(WriteBytes(b))
  }

  /** Two calls of `decode` for the same connection, descriptor and bytes. */
  predicate SameCall(a: Segment, b: Segment) {
    a.key == b.key && a.fd == b.fd && a.bufs.read == b.bufs.read && a.bufs.write == b.bufs.write
  }

  predicate SameCalls(a: seq<Segment>, b: seq<Segment>) {
    |a| == |b| && forall i :: 0 <= i < |a| ==> SameCall(a[i], b[i])
  }

  /** Over two whole traces, the calls of `decode` for a connection agree one by one, if and only if
      the stretches of its traffic do in number and in bytes: how the bytes of a direction are cut
      into events, and how the directions alternate, does not matter. */
  lemma ChunkingDoesNotMatter(
      xs: seq<Event>, ys: seq<Event>, xorder: seq<Key>, yorder: seq<Key>, k: Key)
    requires VisitsOnce(xorder, BufsAfter(map[], xs).Keys)
    requires VisitsOnce(yorder, BufsAfter(map[], ys).Keys)
    ensures var a, b := Stretches(xs, k), Stretches(ys, k);
      SameCalls(SegmentsFor(AllSegments(xs, xorder), k), SegmentsFor(AllSegments(ys, yorder), k)) <==>
      |a| == |b| && forall i :: 0 <= i < |a| ==> SameBytes(a[i], b[i])
  {
    hide VisitsOnce;
    hide BufsAfter;
    hide SegmentsFor;
    hide AllSegments;
    hide Finished;
    hide Runs;
    hide ForKey;
    hide Filter;
    hide FdOf;
    hide First64K;
    DecodedExactlyOnce(xs, xorder, k);
    DecodedExactlyOnce(ys, yorder, k);
    FinishedEach(k, Runs(ForKey(xs, k)));
    FinishedEach(k, Runs(ForKey(ys, k)));
    var a, b := Stretches(xs, k), Stretches(ys, k);
    var p, q := SegmentsFor(AllSegments(xs, xorder), k), SegmentsFor(AllSegments(ys, yorder), k);
    assert |p| == |a| && |q| == |b|;
    if |a| == |b| {
      forall i | 0 <= i < |a| ensures SameCall(p[i], q[i]) <==> SameBytes(a[i], b[i]) {
        assert p[i] == Segment(k, FdOf(k), Assemble(a[i]));
        assert q[i] == Segment(k, FdOf(k), Assemble(b[i]));
      }
    }
  }

  predicate SameContent(a: Exchange, b: Exchange) {
    a.(truncated := b.truncated) == b
  }

  /** Calls that agree emit exchanges that differ at most in the truncation flag. */
  lemma {:induction false} SameCallsSameExchanges(sniff: Sniffer, a: seq<Segment>, b: seq<Segment>)
    requires SameCalls(a, b)
    ensures var xs, ys := DecodeAll(sniff, a), DecodeAll(sniff, b);
      |xs| == |ys| && forall i :: 0 <= i < |xs| ==> SameContent(xs[i], ys[i])
    decreases |a|
  {
    if a != [] {
      assert SameCall(a[0], b[0]);
      SameCallsSameExchanges(sniff, a[1..], b[1..]);
    }
  }

  /** An event without captured bytes, from a payload that could not be read or a write of length
      zero, is traffic all the same: its connection is decoded, from no bytes. */
  lemma EmptyPayloadIsTraffic(e: Event, k: Key)
    requires KeyOf(e) == Some(k) && !IsCloseOp(e) && e.dataLen == 0
    ensures SegmentsFor(AllSegments([], []), k) == []
    ensures SegmentsFor(AllSegments([e], [k]), k) == [Segment(k, FdOf(k), Bufs([], [], Truncated(e)))]
  {
    hide FdOf;
    var bufs := BufsAfter(map[], [e]);
    assert [e][..0] == [];
    AfterSnoc([e]);
    assert bufs == map[k := Absorb(EMPTY, e)];
    assert Absorb(EMPTY, e) == Bufs([], [], Truncated(e)) by { assert Payload(e) == []; }
    assert ClosedSegments(map[], [e]) == [];
    var s := Segment(k, FdOf(k), bufs[k]);
    FlatMapSingle(Flusher(bufs), k);
    assert FlushedSegments(bufs, [k]) == [s];
    assert AllSegments([e], [k]) == [s];
    FilterSingle(OfSegmentKey(k), s);
  }

  /** The stretches are a partition: joined together they are the connection's traffic without its
      closes, and there is one more of them than there are closes. */
  lemma {:induction false} RunsPartition(events: seq<Event>)
    ensures Flatten(Runs(events)) == DataEvents(events)
    ensures |Runs(events)| == Closes(events) + 1
    decreases |events|
  {
    if events == [] {
      FlatMapSingle(Whole(), []);
    } else {
      var before, e := events[..|events| - 1], events[|events| - 1];
      RunsPartition(before);
      assert events == before + [e];
      RunsSnoc(before, e);
      FlattenSnoc(Runs(before), e);
      hide Runs;
      FilterAppend(NotClose(), before, [e]);
      FilterSingle(NotClose(), e);
      FilterAppend(IsClose(), before, [e]);
      FilterSingle(IsClose(), e);
      assert DataEvents(before) + [] == DataEvents(before);
    }
  }

  lemma FlattenSnoc(r: seq<seq<Event>>, e: Event)
    requires r != []
    ensures Flatten(r + [[]]) == Flatten(r)
    ensures Flatten(r[..|r| - 1] + [r[|r| - 1] + [e]]) == Flatten(r) + [e]
  {
    var done, last := r[..|r| - 1], r[|r| - 1];
    assert r == done + [last];
    FlatMapAppend(Whole(), r, [[]]);
    FlatMapSingle(Whole(), []);
    assert Flatten(r) + [] == Flatten(r);
    FlatMapAppend(Whole(), done, [last]);
    FlatMapSingle(Whole(), last);
    FlatMapAppend(Whole(), done, [last + [e]]);
    FlatMapSingle(Whole(), last + [e]);
    assert Flatten(done) + (last + [e]) == Flatten(done) + last + [e];
  }

  /** TLS traffic has no close: all of it is one stretch, decoded at the flush with descriptor -1. */
  lemma TlsDecodedOnlyAtFlush(events: seq<Event>, order: seq<Key>, k: Key)
    requires k.kind == ConnTLS
    requires VisitsOnce(order, BufsAfter(map[], events).Keys)
    ensures SegmentsFor(ClosedSegments(map[], events), k) == []
    ensures SegmentsFor(AllSegments(events, order), k) ==
      if ForKey(events, k) == [] then [] else [Segment(k, -1, Assemble(ForKey(events, k)))]
  {
    TlsHasOneRun(events, k);
    ClosedRunsDecoded(events, k);
    DecodedExactlyOnce(events, order, k);
    FlatMapSingle(FinishRun(k), ForKey(events, k));
  }

  lemma {:induction false} TlsHasOneRun(events: seq<Event>, k: Key)
    requires k.kind == ConnTLS
    ensures Runs(ForKey(events, k)) == [ForKey(events, k)]
    decreases |events|
  {
    if events != [] {
      var before, e := events[..|events| - 1], events[|events| - 1];
      TlsHasOneRun(before, k);
      ForKeySnoc(events, k);
      if KeyOf(e) == Some(k) {
        RunsSnoc(ForKey(before, k), e);
      }
    }
  }

  // ---- connections do not disturb each other ----

  /** What is decoded for a connection is the same on the full trace and on its own events alone. */
  lemma NonInterference(events: seq<Event>, order: seq<Key>, alone: seq<Key>, k: Key)
    requires VisitsOnce(order, BufsAfter(map[], events).Keys)
    requires VisitsOnce(alone, BufsAfter(map[], ForKey(events, k)).Keys)
    ensures SegmentsFor(AllSegments(events, order), k) == SegmentsFor(AllSegments(ForKey(events, k), alone), k)
  {
    FilterTwice(OfKey(k), events);
    DecodedExactlyOnce(events, order, k);
    DecodedExactlyOnce(ForKey(events, k), alone, k);
  }

  // ---- the scheduling of the two event sources does not matter ----

  predicate IsTlsEvent(e: Event) {
    e.op == OP_SSL_READ || e.op == OP_SSL_WRITE
  }

  /** `c` is some merge of `a` and `b` that keeps the order of each. */
  predicate Interleaves(a: seq<Event>, b: seq<Event>, c: seq<Event>)
    decreases |c|
  {
    if c == [] then a == [] && b == []
    else
      || (a != [] && c[0] == a[0] && Interleaves(a[1..], b, c[1..]))
      || (b != [] && c[0] == b[0] && Interleaves(a, b[1..], c[1..]))
  }

  lemma {:induction false} InterleavedForKey(a: seq<Event>, b: seq<Event>, c: seq<Event>, k: Key)
    requires Interleaves(a, b, c)
    requires forall i :: 0 <= i < |b| ==> KeyOf(b[i]) != Some(k)
    ensures ForKey(c, k) == ForKey(a, k)
    decreases |c|
  {
    hide KeyOf;
    if c != [] {
      if a != [] && c[0] == a[0] && Interleaves(a[1..], b, c[1..]) {
        InterleavedForKey(a[1..], b, c[1..], k);
      } else {
        InterleavedForKey(a, b[1..], c[1..], k);
      }
    }
  }

  lemma {:induction false} InterleavesSwap(a: seq<Event>, b: seq<Event>, c: seq<Event>)
    requires Interleaves(a, b, c)
    ensures Interleaves(b, a, c)
    decreases |c|
  {
    if c != [] {
      if a != [] && c[0] == a[0] && Interleaves(a[1..], b, c[1..]) {
        InterleavesSwap(a[1..], b, c[1..]);
      } else {
        InterleavesSwap(a, b[1..], c[1..]);
      }
    }
  }

  /** The two rings: the system call ring has no TLS events, the TLS ring nothing else. */
  predicate Rings(calls: seq<Event>, tls: seq<Event>) {
    && (forall i :: 0 <= i < |calls| ==> !IsTlsEvent(calls[i]))
    && (forall i :: 0 <= i < |tls| ==> IsTlsEvent(tls[i]))
  }

  function TlsOnly(): Event -> bool {
    (e: Event) => e.op == OP_SSL_READ || e.op == OP_SSL_WRITE
  }

  function CallsOnly(): Event -> bool {
    (e: Event) => e.op != OP_SSL_READ && e.op != OP_SSL_WRITE
  }

  /** The merges of the two rings are exactly the sequences whose system call events are the one ring
      and whose TLS events are the other. */
  lemma {:induction false} InterleavesExactly(calls: seq<Event>, tls: seq<Event>, merged: seq<Event>)
    requires Rings(calls, tls)
    ensures Interleaves(calls, tls, merged) <==>
      Filter(CallsOnly(), merged) == calls && Filter(TlsOnly(), merged) == tls
    decreases |merged|
  {
    if merged != [] {
      var e, rest := merged[0], merged[1..];
      if IsTlsEvent(e) {
        assert calls != [] ==> e != calls[0];
        assert Filter(CallsOnly(), merged) == Filter(CallsOnly(), rest);
        assert Filter(TlsOnly(), merged) == [e] + Filter(TlsOnly(), rest);
        if tls != [] && tls[0] == e {
          InterleavesExactly(calls, tls[1..], rest);
          assert tls == [e] + tls[1..];
          assert ([e] + Filter(TlsOnly(), rest))[1..] == Filter(TlsOnly(), rest);
        }
      } else {
        assert tls != [] ==> e != tls[0];
        assert Filter(TlsOnly(), merged) == Filter(TlsOnly(), rest);
        assert Filter(CallsOnly(), merged) == [e] + Filter(CallsOnly(), rest);
        if calls != [] && calls[0] == e {
          InterleavesExactly(calls[1..], tls, rest);
          assert calls == [e] + calls[1..];
          assert ([e] + Filter(CallsOnly(), rest))[1..] == Filter(CallsOnly(), rest);
        }
      }
    }
  }

  lemma MergeForKey(calls: seq<Event>, tls: seq<Event>, merged: seq<Event>, k: Key)
    requires Rings(calls, tls) && Interleaves(calls, tls, merged)
    ensures ForKey(merged, k) == ForKey(if k.kind == ConnTLS then tls else calls, k)
  {
    if k.kind == ConnTLS {
      InterleavesSwap(calls, tls, merged);
      InterleavedForKey(tls, calls, merged, k);
    } else {
      InterleavedForKey(calls, tls, merged, k);
    }
  }

  /** Any two merges of the same rings leave the same buffers. */
  lemma MergesLeaveSameBuffers(calls: seq<Event>, tls: seq<Event>, x: seq<Event>, y: seq<Event>)
    requires Rings(calls, tls) && Interleaves(calls, tls, x) && Interleaves(calls, tls, y)
    ensures BufsAfter(map[], x) == BufsAfter(map[], y)
  {
    var p, q := BufsAfter(map[], x), BufsAfter(map[], y);
    forall k: Key
      ensures k in p <==> k in q
      ensures BufsAt(p, k) == BufsAt(q, k)
    {
      MergeForKey(calls, tls, x, k);
      MergeForKey(calls, tls, y, k);
      BuffersAreLastRun(x, k);
      BuffersAreLastRun(y, k);
    }
    hide BufsAfter;
    assert forall k :: k in p ==> p[k] == BufsAt(p, k) && q[k] == BufsAt(q, k);
  }

  ghost predicate AgreeOnFds(p: map<Key, Bufs>, q: map<Key, Bufs>) {
    forall k: Key :: k.kind == ConnFD ==> (k in p <==> k in q) && BufsAt(p, k) == BufsAt(q, k)
  }

  /** Closes depend on the system call ring alone. */
  lemma {:induction false} ClosesIgnoreTls(
      p: map<Key, Bufs>, q: map<Key, Bufs>, calls: seq<Event>, tls: seq<Event>, merged: seq<Event>)
    requires Rings(calls, tls) && Interleaves(calls, tls, merged) && AgreeOnFds(p, q)
    ensures ClosedSegments(p, merged) == ClosedSegments(q, calls)
    decreases |merged|
  {
    if merged != [] {
      var e := merged[0];
      if calls != [] && e == calls[0] && Interleaves(calls[1..], tls, merged[1..]) {
        AgreeingStep(p, q, e);
        ClosesIgnoreTls(BufsStep(p, e), BufsStep(q, e), calls[1..], tls, merged[1..]);
      } else {
        TlsStep(p, q, e);
        ClosesIgnoreTls(BufsStep(p, e), q, calls, tls[1..], merged[1..]);
      }
    }
  }

  lemma AgreeingStep(p: map<Key, Bufs>, q: map<Key, Bufs>, e: Event)
    requires AgreeOnFds(p, q) && !IsTlsEvent(e)
    ensures AgreeOnFds(BufsStep(p, e), BufsStep(q, e))
    ensures SegmentsStep(p, e) == SegmentsStep(q, e)
  {
    forall k: Key | k.kind == ConnFD
      ensures k in BufsStep(p, e) <==> k in BufsStep(q, e)
      ensures BufsAt(BufsStep(p, e), k) == BufsAt(BufsStep(q, e), k)
    {
      BufsStepAt(p, e, k);
      BufsStepAt(q, e, k);
    }
    if KeyOf(e).Some? {
      var k := KeyOf(e).value;
      assert k.kind == ConnFD;
      assert BufsAt(p, k) == BufsAt(q, k);
    }
  }

  lemma TlsStep(p: map<Key, Bufs>, q: map<Key, Bufs>, e: Event)
    requires AgreeOnFds(p, q) && IsTlsEvent(e)
    ensures AgreeOnFds(BufsStep(p, e), q) && SegmentsStep(p, e) == []
  {
    forall k: Key | k.kind == ConnFD
      ensures k in BufsStep(p, e) <==> k in q
      ensures BufsAt(BufsStep(p, e), k) == BufsAt(q, k)
    {
      BufsStepAt(p, e, k);
    }
  }

  /** Two merges of the same rings, flushed in any two orders: the exchanges at closes are the same
      sequence, all exchanges are the same multiset, and so are the recorded dependencies. */
  lemma ScheduleDoesNotMatter(
      sniff: Sniffer, calls: seq<Event>, tls: seq<Event>,
      x: seq<Event>, y: seq<Event>, xorder: seq<Key>, yorder: seq<Key>)
    requires Rings(calls, tls) && Interleaves(calls, tls, x) && Interleaves(calls, tls, y)
    requires VisitsOnce(xorder, BufsAfter(map[], x).Keys)
    requires VisitsOnce(yorder, BufsAfter(map[], y).Keys)
    ensures DecodeAll(sniff, ClosedSegments(map[], x)) == DecodeAll(sniff, ClosedSegments(map[], y))
    ensures multiset(ExchangesOf(sniff, x, xorder)) == multiset(ExchangesOf(sniff, y, yorder))
    ensures multiset(Dependencies(ExchangesOf(sniff, x, xorder)))
         == multiset(Dependencies(ExchangesOf(sniff, y, yorder)))
  {
    ClosesIgnoreTls(map[], map[], calls, tls, x);
    ClosesIgnoreTls(map[], map[], calls, tls, y);
    MergesLeaveSameBuffers(calls, tls, x, y);
    var bufs := BufsAfter(map[], x);
    FlatMapPermutes(Flusher(bufs), xorder, yorder);
    FlatMapPermutes(Decoder(sniff), FlushedSegments(bufs, xorder), FlushedSegments(bufs, yorder));
    DependenciesIgnoreOrder(ExchangesOf(sniff, x, xorder), ExchangesOf(sniff, y, yorder));
  }
}
