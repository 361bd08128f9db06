/** The connections tab: one row per connection number, updated in place. */
module ConnsTab {
  import opened Bytes
  import opened Events
  import opened Correlator
  import opened CorrelatorLaws

  /** What a row shows of a snapshot, before it is formatted as text. */
  datatype Row = Row(
    pid: uint32, comm: bytes, fd: int32, remoteAddr: uint32, remotePort: uint16,
    bytesOut: nat, bytesIn: nat, closed: bool)

  function RowOf(c: Connection): Row {
    Row(c.pid, c.comm, c.fd, c.remoteAddr, c.remotePort, c.bytesOut, c.bytesIn, c.closed)
  }

  datatype Table = Table(index: map<nat, nat>, rows: seq<Row>)

  const BLANK: Table := Table(map[], [])

  /** The index never points past the rows. */
  predicate Sound(t: Table) {
    forall s :: s in t.index ==> t.index[s] < |t.rows|
  }

  function TableStep(t: Table, c: Connection): (r: Table)
    requires Sound(t)
    ensures Sound(r)
  {
    if c.seqNo in t.index then t.(rows := t.rows[t.index[c.seqNo] := RowOf(c)])
    else Table(t.index[c.seqNo := |t.rows|], t.rows + [RowOf(c)])
  }

  function TableAfter(t: Table, delivered: seq<Connection>): Table
    requires Sound(t)
    decreases |delivered|
  {
    if delivered == [] then t else TableAfter(TableStep(t, delivered[0]), delivered[1..])
  }

  class Tab {
    var index: map<nat, nat>
    var rows: seq<Row>

    function Shown(): Table
      reads this
    {
      Table(index, rows)
    }

    constructor ()
      ensures Shown() == BLANK
    {
      index, rows := map[], [];
    }

    /** `update`, for a delivered snapshot. */
    method Update(c: Connection)
      requires Sound(Shown())
      modifies this
      ensures Shown() == TableStep(old(Shown()), c)
    {
      var row := RowOf(c);
      if c.seqNo in index {
        rows := rows[index[c.seqNo] := row];
      } else {
        index := index[c.seqNo := |rows|];
        rows := rows + [row];
      }
    }
  }

  // ---- agreement with the correlator's stream ----

  /** Numbers start after `m` and never skip one. */
  predicate Numbered(snapshots: seq<Connection>, m: nat)
    decreases |snapshots|
  {
    snapshots == [] ||
    (var s := snapshots[0].seqNo;
     1 <= s <= m + 1 && Numbered(snapshots[1..], if s == m + 1 then s else m))
  }

  ghost predicate AllPositive(st: State) {
    forall k :: k in st.tracked ==> 1 <= st.tracked[k].seqNo <= st.nextSeq
  }

  lemma {:induction false} SnapshotsAreNumbered(env: Surroundings, st: State, events: seq<Event>)
    requires AllPositive(st)
    ensures Numbered(Snapshots(env, st, events), st.nextSeq)
    decreases |events|
  {
    if events != [] {
      var e := events[0];
      var next := StateStep(env, st, e);
      assert AllPositive(next);
      SnapshotsAreNumbered(env, next, events[1..]);
      var now, later := SnapshotsStep(env, st, e), Snapshots(env, next, events[1..]);
      assert Snapshots(env, st, events) == now + later;
      if now == [] {
        assert now + later == later;
      } else {
        assert (now + later)[0] == now[0] && (now + later)[1..] == later;
      }
    }
  }

  lemma {:induction false} NumberedPrefix(snapshots: seq<Connection>, m: nat, d: nat)
    requires Numbered(snapshots, m) && d <= |snapshots|
    ensures Numbered(snapshots[..d], m)
    decreases d
  {
    if d > 0 {
      var s := snapshots[0].seqNo;
      NumberedPrefix(snapshots[1..], if s == m + 1 then s else m, d - 1);
      assert snapshots[..d][1..] == snapshots[1..][..d - 1];
    }
  }

  /** Row `s - 1` belongs to number `s`. */
  ghost predicate Aligned(t: Table) {
    && (forall s :: s in t.index <==> 1 <= s <= |t.rows|)
    && (forall s :: s in t.index ==> t.index[s] == s - 1)
  }

  lemma AlignedStep(t: Table, c: Connection)
    requires Sound(t) && Aligned(t) && 1 <= c.seqNo <= |t.rows| + 1
    ensures var next := TableStep(t, c);
      && Aligned(next)
      && |next.rows| == (if c.seqNo == |t.rows| + 1 then c.seqNo else |t.rows|)
      && next.rows[c.seqNo - 1] == RowOf(c)
      && forall r :: 0 <= r < |t.rows| && r != c.seqNo - 1 ==> next.rows[r] == t.rows[r]
  {
  }

  lemma OfSeqCons(delivered: seq<Connection>, s: nat)
    requires delivered != []
    ensures OfSeq(delivered, s) ==
      if delivered[0].seqNo == s then [delivered[0]] + OfSeq(delivered[1..], s) else OfSeq(delivered[1..], s)
  {
    assert [] + OfSeq(delivered[1..], s) == OfSeq(delivered[1..], s);
  }

  lemma {:induction false} RowsFollowNumbers(t: Table, delivered: seq<Connection>, s: nat)
    requires Sound(t) && Aligned(t) && Numbered(delivered, |t.rows|) && s > 0
    ensures var rows, mine := TableAfter(t, delivered).rows, OfSeq(delivered, s);
      && (s <= |rows| <==> s <= |t.rows| || mine != [])
      && (s <= |rows| ==> rows[s - 1] == if mine != [] then RowOf(mine[|mine| - 1]) else t.rows[s - 1])
    decreases |delivered|
  {
    hide OfSeq;
    hide RowOf;
    if delivered == [] {
      NoneOfSeq(s);
    } else {
      var c := delivered[0];
      AlignedStep(t, c);
      OfSeqCons(delivered, s);
      RowsFollowNumbers(TableStep(t, c), delivered[1..], s);
    }
  }

  /** However much of the correlator's stream has been delivered, the tab has exactly one row for
      each connection that appeared, in the order of the connects, showing its latest snapshot. */
  lemma TabShowsLatest(env: Surroundings, events: seq<Event>, d: nat, s: nat)
    requires d <= |Snapshots(env, START, events)| && s > 0
    ensures var delivered := Snapshots(env, START, events)[..d];
      var rows, mine := TableAfter(BLANK, delivered).rows, OfSeq(delivered, s);
      && (s <= |rows| <==> mine != [])
      && (mine != [] ==> rows[s - 1] == RowOf(mine[|mine| - 1]))
  {
    SnapshotsAreNumbered(env, START, events);
    NumberedPrefix(Snapshots(env, START, events), 0, d);
    RowsFollowNumbers(BLANK, Snapshots(env, START, events)[..d], s);
  }

  lemma {:induction false} OfSeqPrefix(snapshots: seq<Connection>, d: nat, s: nat)
    requires d <= |snapshots|
    ensures OfSeq(snapshots[..d], s) <= OfSeq(snapshots, s)
    decreases d
  {
    hide OfSeq;
    if d == 0 {
      NoneOfSeq(s);
    } else {
      OfSeqPrefix(snapshots[1..], d - 1, s);
      OfSeqCons(snapshots, s);
      OfSeqCons(snapshots[..d], s);
      assert snapshots[..d][1..] == snapshots[1..][..d - 1];
    }
  }

  /** Column by column: a row shows the identity of its connect, and the bytes written and read, and
      whether there was a close, among the events of its lifetime that have been delivered. */
  lemma RowsExactly(env: Surroundings, events: seq<Event>, d: nat, s: nat)
    requires d <= |Snapshots(env, START, events)| && s > 0
    requires s <= |TableAfter(BLANK, Snapshots(env, START, events)[..d]).rows|
    ensures ConnectPos(events, s) < |events|
    ensures var delivered := Snapshots(env, START, events)[..d];
      var e, life := events[ConnectPos(events, s)], LifetimeAfter(events, ConnectPos(events, s));
      var seen := |OfSeq(delivered, s)| - 1;
      && 0 <= seen <= |life|
      && TableAfter(BLANK, delivered).rows[s - 1] == Row(
           e.pid, env.commOf(e), e.fd, e.remoteAddr, e.remotePort,
           Written(life[..seen]), ReadIn(life[..seen]), seen > 0 && life[seen - 1].op == OP_CLOSE)
  {
    hide Written;
    hide ReadIn;
    hide LifetimeAfter;
    hide OfSeq;
    hide Snapshots;
    hide TableAfter;
    hide ConnectPos;
    hide Trajectory;
    hide Opened;
    TabShowsLatest(env, events, d, s);
    OfSeqPrefix(Snapshots(env, START, events), d, s);
    ConnectionHistory(env, events, s);
    var mine := OfSeq(Snapshots(env, START, events)[..d], s);
    SnapshotsExactly(env, events, s, 0);
    SnapshotsExactly(env, events, s, |mine| - 1);
  }
}
