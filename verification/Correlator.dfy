/** Tracking outbound connections: one record per connect, and a snapshot of it at every change. */
module Correlator {
  import opened Bytes
  import opened Events

  /** A snapshot. Byte counters are naturals; the source's wrap at 64 bits. */
  datatype Connection = Connection(
    seqNo: nat,
    pid: uint32,
    fd: int32,
    comm: bytes,
    remoteAddr: uint32,
    remotePort: uint16,
    openedAt: int,
    bytesOut: nat,
    bytesIn: nat,
    closed: bool,
    closedAt: int)

  /** What the correlator asks of its surroundings for an event: its wall-clock time, and the name
      of its process at that moment. */
  datatype Surroundings = Surroundings(timeOf: Event -> int, commOf: Event -> bytes)

  datatype ConnKey = ConnKey(pid: uint32, fd: int32)

  function ConnKeyOf(e: Event): ConnKey {
    ConnKey(e.pid, e.fd)
  }

  datatype State = State(tracked: map<ConnKey, Connection>, nextSeq: nat)

  const START: State := State(map[], 0)

  predicate IsTraffic(e: Event) {
    e.op == OP_READ || e.op == OP_WRITE || e.op == OP_CLOSE
  }

  /** The record of a fresh connect. */
  function Opened(env: Surroundings, n: nat, e: Event): Connection {
    Connection(n, e.pid, e.fd, env.commOf(e), e.remoteAddr, e.remotePort, env.timeOf(e), 0, 0, false, 0)
  }

  /** A record after one more of its events. */
  function Advance(env: Surroundings, c: Connection, e: Event): Connection {
    if e.op == OP_WRITE then c.(bytesOut := c.bytesOut + e.totalLen)
    else if e.op == OP_READ then c.(bytesIn := c.bytesIn + e.totalLen)
    else c.(closed := true, closedAt := env.timeOf(e))
  }

  function StateStep(env: Surroundings, st: State, e: Event): State {
    var k := ConnKeyOf(e);
    if e.op == OP_CONNECT then State(st.tracked[k := Opened(env, st.nextSeq + 1, e)], st.nextSeq + 1)
    else if IsTraffic(e) && k in st.tracked then
      if e.op == OP_CLOSE then st.(tracked := st.tracked - {k})
      else st.(tracked := st.tracked[k := Advance(env, st.tracked[k], e)])
    else st
  }

  /** What one event puts on the connections channel: at most one snapshot. */
  function SnapshotsStep(env: Surroundings, st: State, e: Event): (r: seq<Connection>)
    ensures |r| <= 1
  {
    var k := ConnKeyOf(e);
    if e.op == OP_CONNECT then [Opened(env, st.nextSeq + 1, e)]
    else if IsTraffic(e) && k in st.tracked then [Advance(env, st.tracked[k], e)]
    else []
  }

  function StateAfter(env: Surroundings, st: State, events: seq<Event>): State
    decreases |events|
  {
    if events == [] then st else StateAfter(env, StateStep(env, st, events[0]), events[1..])
  }

  function Snapshots(env: Surroundings, st: State, events: seq<Event>): seq<Connection>
    decreases |events|
  {
    if events == [] then []
    else SnapshotsStep(env, st, events[0]) + Snapshots(env, StateStep(env, st, events[0]), events[1..])
  }

  // ---- the running correlator ----

  class Tracked {
    const base: Connection
    var bytesOut: nat
    var bytesIn: nat
    var closed: bool
    var closedAt: int

    constructor (first: Connection)
      ensures Snapshot() == first
    {
      base := first;
      bytesOut, bytesIn, closed, closedAt := first.bytesOut, first.bytesIn, first.closed, first.closedAt;
    }

    /** The value sent when the record is dereferenced. */
    function Snapshot(): Connection
      reads this
    {
      base.(bytesOut := bytesOut, bytesIn := bytesIn, closed := closed, closedAt := closedAt)
    }

    method Update(env: Surroundings, e: Event)
      requires IsTraffic(e)
      modifies this
      ensures Snapshot() == Advance(env, old(Snapshot()), e)
    {
      if e.op == OP_WRITE {
        bytesOut := bytesOut + e.totalLen;
      } else if e.op == OP_READ {
        bytesIn := bytesIn + e.totalLen;
      } else {
        closed := true;
        closedAt := env.timeOf(e);
      }
    }
  }

  class Tracker {
    var tracked: map<ConnKey, Tracked>
    var nextSeq: nat

    ghost predicate Valid()
      reads this
    {
      forall j, k :: j in tracked && k in tracked && tracked[j] == tracked[k] ==> j == k
    }

    ghost function Abstract(): State
      reads this, tracked.Values
    {
      State(map k | k in tracked :: tracked[k].Snapshot(), nextSeq)
    }

    constructor ()
      ensures Valid() && Abstract() == START && tracked == map[]
    {
      tracked, nextSeq := map[], 0;
    }

    method Connect(env: Surroundings, e: Event) returns (out: seq<Connection>)
      requires Valid() && e.op == OP_CONNECT
      modifies this
      ensures Valid() && fresh(tracked.Values - old(tracked.Values))
      ensures Abstract() == StateStep(env, old(Abstract()), e)
      ensures out == SnapshotsStep(env, old(Abstract()), e)
    {
      hide Opened;
      hide Tracked.Snapshot;
      nextSeq := nextSeq + 1;
      var c := new Tracked(Opened(env, nextSeq, e));
      ghost var before := Abstract().tracked;
      tracked := tracked[ConnKeyOf(e) := c];
      assert Abstract().tracked == before[ConnKeyOf(e) := c.Snapshot()];
      out := [c.Snapshot()];
    }

    method Touch(env: Surroundings, e: Event) returns (out: seq<Connection>)
      requires Valid() && IsTraffic(e) && ConnKeyOf(e) in tracked
      modifies this, tracked.Values
      ensures Valid() && fresh(tracked.Values - old(tracked.Values))
      ensures Abstract() == StateStep(env, old(Abstract()), e)
      ensures out == SnapshotsStep(env, old(Abstract()), e)
    {
      hide Advance;
      hide Tracked.Snapshot;
      var k := ConnKeyOf(e);
      var c := tracked[k];
      label before:
      c.Update(env, e);
      out := [c.Snapshot()];
      forall j | j in tracked && j != k
        ensures tracked[j].Snapshot() == old(Abstract()).tracked[j]
      {
        assert unchanged@before(tracked[j]);
      }
      if e.op == OP_CLOSE {
        tracked := tracked - {k};
        assert Abstract().tracked == old(Abstract()).tracked - {k};
      } else {
        assert Abstract().tracked == old(Abstract()).tracked[k := c.Snapshot()];
      }
    }

    /** One pass of the event loop; returns what it puts on the connections channel. */
    method Handle(env: Surroundings, e: Event) returns (out: seq<Connection>)
      requires Valid()
      modifies this, tracked.Values
      ensures Valid() && fresh(tracked.Values - old(tracked.Values))
      ensures Abstract() == StateStep(env, old(Abstract()), e)
      ensures out == SnapshotsStep(env, old(Abstract()), e)
    {
      hide Advance;
      if e.op == OP_CONNECT {
        out := Connect(env, e);
      } else if IsTraffic(e) && ConnKeyOf(e) in tracked {
        out := Touch(env, e);
      } else {
        out := [];
      }
    }
  }

  /** `Run`: every event is passed through, and the snapshots are those of the trace. */
  method Run(env: Surroundings, events: seq<Event>) returns (raw: seq<Event>, conns: seq<Connection>)
    ensures raw == events
    ensures conns == Snapshots(env, START, events)
  {
    hide StateStep;
    hide SnapshotsStep;
    hide Tracker.Abstract;
    hide Tracker.Valid;
    var t := new Tracker();
    raw, conns := [], [];
    for i := 0 to |events|
      invariant t.Valid() && fresh(t) && fresh(t.tracked.Values)
      invariant raw == events[..i]
      invariant Snapshots(env, START, events) == conns + Snapshots(env, t.Abstract(), events[i..])
    {
      assert events[i..][1..] == events[i + 1..];
      raw := raw + [events[i]];
      var out := t.Handle(env, events[i]);
      conns := conns + out;
    }
    assert conns + [] == conns;
  }
}
