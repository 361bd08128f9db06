/** Assembling byte streams out of events and decoding each one when its connection closes, or
    when the trace ends. */
module Streamer {
  import opened Bytes
  import opened Sequences
  import opened Events
  import opened Exchanges

  const BUF_CAP: nat := 64 * 1024

  datatype ConnKind = ConnFD | ConnTLS

  /** `id` is the widened descriptor of a plain connection, or the SSL pointer of a TLS one. */
  datatype Key = Key(pid: uint32, kind: ConnKind, id: uint64)

  datatype Bufs = Bufs(read: bytes, write: bytes, truncated: bool)

  const EMPTY: Bufs := Bufs([], [], false)

  predicate IsReadOp(e: Event) {
    e.op == OP_READ || e.op == OP_SSL_READ
  }

  predicate IsWriteOp(e: Event) {
    e.op == OP_WRITE || e.op == OP_SSL_WRITE
  }

  predicate IsCloseOp(e: Event) {
    e.op == OP_CLOSE
  }

  /** The connection an event belongs to; connects and unknown operations belong to none. */
  function KeyOf(e: Event): Option<Key> {
    if e.op == OP_READ || e.op == OP_WRITE || e.op == OP_CLOSE then Some(Key(e.pid, ConnFD, ToUint32(e.fd)))
    else if e.op == OP_SSL_READ || e.op == OP_SSL_WRITE then Some(Key(e.pid, ConnTLS, e.sslPtr))
    else None
  }

  /** The first `BUF_CAP` bytes. */
  function Capped(s: bytes): bytes {
    if |s| <= BUF_CAP then s else s[..BUF_CAP]
  }

  function Absorb(b: Bufs, e: Event): Bufs {
    if IsReadOp(e) then Bufs(Capped(b.read + Payload(e)), b.write, b.truncated || Truncated(e))
    else Bufs(b.read, Capped(b.write + Payload(e)), b.truncated || Truncated(e))
  }

  function BufsAt(bufs: map<Key, Bufs>, k: Key): Bufs {
    if k in bufs then bufs[k] else EMPTY
  }

  /** What one event does to the buffers. */
  function BufsStep(bufs: map<Key, Bufs>, e: Event): map<Key, Bufs> {
    match KeyOf(e)
    case None => bufs
    case Some(k) => if IsCloseOp(e) then bufs - {k} else bufs[k := Absorb(BufsAt(bufs, k), e)]
  }

  /** One call of `decode`: the connection, the descriptor passed, and the bytes assembled. */
  datatype Segment = Segment(key: Key, fd: int32, bufs: Bufs)

  /** What one event hands to `decode`. */
  function SegmentsStep(bufs: map<Key, Bufs>, e: Event): seq<Segment> {
    match KeyOf(e)
    case None => []
    case Some(k) => if IsCloseOp(e) && k in bufs then [Segment(k, e.fd, bufs[k])] else []
  }

  /** The buffers after a trace. */
  function BufsAfter(bufs: map<Key, Bufs>, events: seq<Event>): map<Key, Bufs>
    decreases |events|
  {
    if events == [] then bufs else BufsAfter(BufsStep(bufs, events[0]), events[1..])
  }

  /** What the closes of a trace hand to `decode`, in order. */
  function ClosedSegments(bufs: map<Key, Bufs>, events: seq<Event>): seq<Segment>
    decreases |events|
  {
    if events == [] then []
    else SegmentsStep(bufs, events[0]) + ClosedSegments(BufsStep(bufs, events[0]), events[1..])
  }

  /** The descriptor the flush passes on. */
  function FdOf(k: Key): int32 {
    if k.kind == ConnFD then ToInt32(k.id) else -1
  }

  function Flusher(bufs: map<Key, Bufs>): Key -> seq<Segment> {
    (k: Key) => if k in bufs then [Segment(k, FdOf(k), bufs[k])] else []
  }

  /** What the end of the trace hands to `decode`, visiting the map in the given order. */
  function FlushedSegments(bufs: map<Key, Bufs>, order: seq<Key>): seq<Segment> {
    FlatMap(Flusher(bufs), order)
  }

  /** `order` visits every key once. */
  predicate VisitsOnce(order: seq<Key>, keys: set<Key>) {
    multiset(order) == multiset(keys)
  }

  function Decoder(sniff: Sniffer): Segment -> seq<Exchange> {
    (s: Segment) => Decode(sniff, s.key.pid, s.fd, s.bufs.read, s.bufs.write, s.bufs.truncated)
  }

  function DecodeAll(sniff: Sniffer, segments: seq<Segment>): seq<Exchange> {
    FlatMap(Decoder(sniff), segments)
  }

  /** The exchanges of a whole trace, for one order of the flush. */
  function ExchangesOf(sniff: Sniffer, events: seq<Event>, order: seq<Key>): seq<Exchange> {
    DecodeAll(sniff, ClosedSegments(map[], events))
    + DecodeAll(sniff, FlushedSegments(BufsAfter(map[], events), order))
  }

  // ---- the running streamer ----

  class ConnBufs {
    var read: bytes
    var write: bytes
    var truncated: bool

    constructor ()
      ensures Value() == EMPTY
    {
      read, write, truncated := [], [], false;
    }

    function Value(): Bufs
      reads this
    {
      Bufs(read, write, truncated)
    }

    predicate WithinCap()
      reads this
    {
      |read| <= BUF_CAP && |write| <= BUF_CAP
    }

    /** Append one event's payload in its direction. */
    method Append(ev: Event)
      requires WithinCap() && (IsReadOp(ev) || IsWriteOp(ev))
      modifies this
      ensures WithinCap() && Value() == Absorb(old(Value()), ev)
    {
      if IsReadOp(ev) {
        read := AppendCapped(read, Payload(ev));
      } else {
        write := AppendCapped(write, Payload(ev));
      }
      truncated := truncated || Truncated(ev);
    }
  }

  /** `appendCapped`. */
  method AppendCapped(dst: bytes, add: bytes) returns (r: bytes)
    ensures |dst| <= BUF_CAP ==> r == Capped(dst + add)
    ensures BUF_CAP < |dst| ==> r == dst
  {
    var room := BUF_CAP - |dst|;
    if room <= 0 {
      return dst;
    }
    var fits := add;
    if |add| > room {
      fits := add[..room];
      assert (dst + add)[..BUF_CAP] == dst + fits;
    }
    return dst + fits;
  }

  class Assembler {
    var bufs: map<Key, ConnBufs>

    /** No two connections share a buffer, and no buffer is over its cap. */
    ghost predicate Valid()
      reads this, bufs.Values
    {
      && (forall j, k :: j in bufs && k in bufs && bufs[j] == bufs[k] ==> j == k)
      && (forall k :: k in bufs ==> bufs[k].WithinCap())
    }

    ghost function Contents(): map<Key, Bufs>
      reads this, bufs.Values
    {
      map k | k in bufs :: bufs[k].Value()
    }

    constructor ()
      ensures Valid() && Contents() == map[] && bufs == map[]
    {
      bufs := map[];
    }

    /** The buffers of a connection, created on first use. */
    method Get(k: Key) returns (b: ConnBufs)
      requires Valid()
      modifies this
      ensures Valid() && k in bufs && bufs[k] == b
      ensures Contents() == old(Contents())[k := BufsAt(old(Contents()), k)]
      ensures bufs == old(bufs)[k := b] && (if k in old(bufs) then b == old(bufs[k]) else fresh(b))
    {
      if k in bufs {
        b := bufs[k];
        assert Contents() == old(Contents())[k := BufsAt(old(Contents()), k)];
      } else {
        b := new ConnBufs();
        bufs := bufs[k := b];
      }
    }

    /** The read and write cases of the event loop. */
    method Append(k: Key, ev: Event)
      requires Valid() && (IsReadOp(ev) || IsWriteOp(ev))
      modifies this, bufs.Values
      ensures Valid() && fresh(bufs.Values - old(bufs.Values))
      ensures Contents() == old(Contents())[k := Absorb(BufsAt(old(Contents()), k), ev)]
    {
      hide Absorb;
      hide IsReadOp;
      hide IsWriteOp;
      hide BufsAt;
      hide ConnBufs.Value;
      hide ConnBufs.WithinCap;
      var b := Get(k);
      assert b in old(bufs.Values) || fresh(b);
      ghost var mid := Contents();
      label before:
      b.Append(ev);
      forall j | j in bufs
        ensures bufs[j].WithinCap() && bufs[j].Value() == mid[k := b.Value()][j]
      {
        assert j != k ==> unchanged@before(bufs[j]);
      }
      assert Contents() == mid[k := b.Value()];
    }

    /** One pass of the event loop; returns what it puts on the exchanges channel. */
    method Handle(ev: Event, sniff: Sniffer) returns (out: seq<Exchange>)
      requires Valid()
      modifies this, bufs.Values
      ensures Valid() && fresh(bufs.Values - old(bufs.Values))
      ensures Contents() == BufsStep(old(Contents()), ev)
      ensures out == DecodeAll(sniff, SegmentsStep(old(Contents()), ev))
    {
      hide Absorb;
      hide BufsAt;
      out := [];
      var key := KeyOf(ev);
      if key.None? {
        return;
      }
      var k := key.value;
      if IsReadOp(ev) || IsWriteOp(ev) {
        Append(k, ev);
      } else if k in bufs {
        var b := bufs[k];
        out := Decode(sniff, ev.pid, ev.fd, b.read, b.write, b.truncated);
        ghost var segment := Segment(k, ev.fd, b.Value());
        DecodeOne(sniff, segment);
        assert SegmentsStep(Contents(), ev) == [segment];
        bufs := bufs - {k};
        assert Contents() == old(Contents()) - {k};
      } else {
        assert Contents() - {k} == Contents();
      }
    }

    /** The end-of-trace flush; the map is visited in an arbitrary order. */
    method Flush(sniff: Sniffer) returns (out: seq<Exchange>, ghost order: seq<Key>)
      requires Valid()
      ensures VisitsOnce(order, Contents().Keys)
      ensures out == DecodeAll(sniff, FlushedSegments(Contents(), order))
    {
      out, order := [], [];
      var todo := bufs.Keys;
      ghost var contents := Contents();
      assert contents.Keys == bufs.Keys;
      while todo != {}
        invariant todo <= bufs.Keys
        invariant multiset(order) + multiset(todo) == multiset(bufs.Keys)
        invariant out == DecodeAll(sniff, FlushedSegments(contents, order))
        decreases todo
      {
        var k :| k in todo;
        var b := bufs[k];
        var fd: int32 := -1;
        if k.kind == ConnFD {
          fd := ToInt32(k.id);
        }
        var ex := Decode(sniff, k.pid, fd, b.read, b.write, b.truncated);
        FlushOneMore(sniff, contents, order, k);
        out := out + ex;
        order := order + [k];
        todo := todo - {k};
      }
    }
  }

  lemma DecodeOne(sniff: Sniffer, s: Segment)
    ensures DecodeAll(sniff, [s]) == Decode(sniff, s.key.pid, s.fd, s.bufs.read, s.bufs.write, s.bufs.truncated)
  {
    hide Decode;
    FlatMapSingle(Decoder(sniff), s);
  }

  lemma FlushOneMore(sniff: Sniffer, bufs: map<Key, Bufs>, order: seq<Key>, k: Key)
    requires k in bufs
    ensures DecodeAll(sniff, FlushedSegments(bufs, order + [k])) ==
      DecodeAll(sniff, FlushedSegments(bufs, order))
      + Decode(sniff, k.pid, FdOf(k), bufs[k].read, bufs[k].write, bufs[k].truncated)
  {
    hide Decode;
    var s := Segment(k, FdOf(k), bufs[k]);
    FlatMapAppend(Flusher(bufs), order, [k]);
    assert [k][1..] == [];
    assert FlushedSegments(bufs, order + [k]) == FlushedSegments(bufs, order) + [s];
    FlatMapAppend(Decoder(sniff), FlushedSegments(bufs, order), [s]);
    DecodeOne(sniff, s);
  }

  lemma TraceStep(sniff: Sniffer, bufs: map<Key, Bufs>, events: seq<Event>)
    requires events != []
    ensures BufsAfter(bufs, events) == BufsAfter(BufsStep(bufs, events[0]), events[1..])
    ensures DecodeAll(sniff, ClosedSegments(bufs, events)) ==
      DecodeAll(sniff, SegmentsStep(bufs, events[0]))
      + DecodeAll(sniff, ClosedSegments(BufsStep(bufs, events[0]), events[1..]))
  {
    FlatMapAppend(
      Decoder(sniff), SegmentsStep(bufs, events[0]), ClosedSegments(BufsStep(bufs, events[0]), events[1..]));
  }

  /** `Run`: every event is passed through, and the exchanges are those of the trace for some
      order of the flush. */
  method Run(events: seq<Event>, sniff: Sniffer)
    returns (raw: seq<Event>, exchanges: seq<Exchange>, ghost order: seq<Key>)
    ensures raw == events
    ensures VisitsOnce(order, BufsAfter(map[], events).Keys)
    ensures exchanges == ExchangesOf(sniff, events, order)
  {
    hide SegmentsStep;
    hide BufsStep;
    hide BufsAfter;
    hide ClosedSegments;
    hide DecodeAll;
    hide FlushedSegments;
    hide VisitsOnce;
    hide Assembler.Contents;
    hide Assembler.Valid;
    var a := new Assembler();
    raw, exchanges := [], [];
    ghost var contents: map<Key, Bufs> := map[];
    for i := 0 to |events|
      invariant a.Valid() && fresh(a) && fresh(a.bufs.Values)
      invariant a.Contents() == contents
      invariant raw == events[..i]
      invariant BufsAfter(map[], events) == BufsAfter(contents, events[i..])
      invariant DecodeAll(sniff, ClosedSegments(map[], events))
             == exchanges + DecodeAll(sniff, ClosedSegments(contents, events[i..]))
    {
      TraceStep(sniff, contents, events[i..]);
      assert events[i..][1..] == events[i + 1..];
      raw := raw + [events[i]];
      var out := a.Handle(events[i], sniff);
      exchanges := exchanges + out;
      contents := BufsStep(contents, events[i]);
    }
    NoSegments(sniff, contents);
    assert events[|events|..] == [];
    assert exchanges + [] == exchanges;
    var rest;
    rest, order := a.Flush(sniff);
    exchanges := exchanges + rest;
  }

  lemma NoSegments(sniff: Sniffer, bufs: map<Key, Bufs>)
    ensures BufsAfter(bufs, []) == bufs && DecodeAll(sniff, ClosedSegments(bufs, [])) == []
  {
  }
}
