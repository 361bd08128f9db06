/** The history of every connection, told without the tracking table: the nth connect opens
    number n, and its snapshots follow its own events until it is closed or its descriptor is
    connected again. */
module CorrelatorLaws {
  import opened Sequences
  import opened Events
  import opened Correlator

  predicate IsConnect(e: Event) {
    e.op == OP_CONNECT
  }

  function Connects(events: seq<Event>): nat {
    if events == [] then 0 else (if IsConnect(events[0]) then 1 else 0) + Connects(events[1..])
  }

  /** Position of the nth connect (counting from 1), or the length of the trace. */
  function ConnectPos(events: seq<Event>, n: nat): (i: nat)
    requires n > 0
    ensures i <= |events|
    ensures i < |events| ==> IsConnect(events[i]) && Connects(events[..i]) == n - 1
    ensures i == |events| ==> Connects(events) < n
  {
    if events == [] then 0
    else if !IsConnect(events[0]) then
      var i := ConnectPos(events[1..], n);
      assert events[..i + 1][1..] == events[1..][..i];
      1 + i
    else if n == 1 then 0
    else
      var i := ConnectPos(events[1..], n - 1);
      assert events[..i + 1][1..] == events[1..][..i];
      1 + i
  }

  /** The reads and writes of a descriptor until it is closed (that close included) or connected
      again. */
  function Lifetime(events: seq<Event>, k: ConnKey): seq<Event>
    decreases |events|
  {
    if events == [] then []
    else
      var e := events[0];
      if e.pid != k.pid || e.fd != k.fd then Lifetime(events[1..], k)
      else if IsConnect(e) then []
      else if e.op == OP_CLOSE then [e]
      else if e.op == OP_READ || e.op == OP_WRITE then [e] + Lifetime(events[1..], k)
      else Lifetime(events[1..], k)
  }

  /** The events that belong to the connection opened at position `i`. */
  function LifetimeAfter(events: seq<Event>, i: nat): seq<Event>
    requires i < |events|
  {
    Lifetime(events[i + 1..], ConnKey(events[i].pid, events[i].fd))
  }

  /** The snapshots of one record over its events. */
  function Trajectory(env: Surroundings, c: Connection, life: seq<Event>): seq<Connection>
    decreases |life|
  {
    if life == [] then []
    else
      var next := Advance(env, c, life[0]);
      [next] + Trajectory(env, next, life[1..])
  }

  function HasSeq(n: nat): Connection -> bool {
    (c: Connection) => c.seqNo == n
  }

  function OfSeq(snapshots: seq<Connection>, n: nat): seq<Connection> {
    Filter(HasSeq(n), snapshots)
  }

  /** Numbers are given out in order, and no two tracked records share one. */
  ghost predicate SeqsOk(st: State) {
    && (forall k :: k in st.tracked ==> st.tracked[k].seqNo <= st.nextSeq)
    && (forall j, k :: j in st.tracked && k in st.tracked && st.tracked[j].seqNo == st.tracked[k].seqNo ==> j == k)
  }

  lemma SeqsStayOk(env: Surroundings, st: State, e: Event)
    requires SeqsOk(st)
    ensures SeqsOk(StateStep(env, st, e))
  {
  }

  lemma StepOfSeq(env: Surroundings, st: State, events: seq<Event>, n: nat)
    requires events != []
    ensures OfSeq(Snapshots(env, st, events), n) ==
      OfSeq(SnapshotsStep(env, st, events[0]), n)
      + OfSeq(Snapshots(env, StateStep(env, st, events[0]), events[1..]), n)
  {
    hide SnapshotsStep;
    hide StateStep;
    FilterAppend(
      HasSeq(n), SnapshotsStep(env, st, events[0]), Snapshots(env, StateStep(env, st, events[0]), events[1..]));
  }

  lemma OneOfSeq(c: Connection, n: nat)
    ensures OfSeq([c], n) == if c.seqNo == n then [c] else []
  {
    FilterSingle(HasSeq(n), c);
  }

  lemma NoneOfSeq(n: nat)
    ensures OfSeq([], n) == []
  {
  }

  /** A number that is given out but no longer tracked never shows again. */
  lemma {:induction false} RetiredIsSilent(env: Surroundings, st: State, events: seq<Event>, n: nat)
    requires SeqsOk(st) && n <= st.nextSeq
    requires forall k :: k in st.tracked ==> st.tracked[k].seqNo != n
    ensures OfSeq(Snapshots(env, st, events), n) == []
    decreases |events|
  {
    if events != [] {
      var e := events[0];
      StepOfSeq(env, st, events, n);
      SeqsStayOk(env, st, e);
      RetiredIsSilent(env, StateStep(env, st, e), events[1..], n);
      if SnapshotsStep(env, st, e) != [] {
        OneOfSeq(SnapshotsStep(env, st, e)[0], n);
      }
    }
  }

  /** A tracked record shows exactly the trajectory of its remaining lifetime. */
  lemma {:induction false} TrackedFollowsLifetime(env: Surroundings, st: State, events: seq<Event>, k: ConnKey)
    requires SeqsOk(st) && k in st.tracked
    ensures OfSeq(Snapshots(env, st, events), st.tracked[k].seqNo)
         == Trajectory(env, st.tracked[k], Lifetime(events, k))
    decreases |events|
  {
    if events != [] {
      var e, c := events[0], st.tracked[k];
      var next := StateStep(env, st, e);
      StepOfSeq(env, st, events, c.seqNo);
      SeqsStayOk(env, st, e);
      if SnapshotsStep(env, st, e) != [] {
        OneOfSeq(SnapshotsStep(env, st, e)[0], c.seqNo);
      }
      if ConnKeyOf(e) == k && (IsConnect(e) || e.op == OP_CLOSE) {
        RetiredIsSilent(env, next, events[1..], c.seqNo);
        hide Snapshots;
        hide OfSeq;
        if e.op == OP_CLOSE {
          TrajectoryOne(env, c, e);
        }
      } else {
        TrackedFollowsLifetime(env, next, events[1..], k);
        hide Snapshots;
        hide OfSeq;
        if ConnKeyOf(e) == k && IsTraffic(e) {
          assert ([e] + Lifetime(events[1..], k))[1..] == Lifetime(events[1..], k);
        }
      }
    }
  }

  lemma TrajectoryOne(env: Surroundings, c: Connection, e: Event)
    ensures Trajectory(env, c, [e]) == [Advance(env, c, e)]
  {
    assert [e][1..] == [];
  }

  /** Before its connect a number shows nowhere. */
  lemma NotYetTracked(env: Surroundings, st: State, e: Event, n: nat)
    requires SeqsOk(st) && n > st.nextSeq && !(IsConnect(e) && n == st.nextSeq + 1)
    ensures OfSeq(SnapshotsStep(env, st, e), n) == []
    ensures StateStep(env, st, e).nextSeq == if IsConnect(e) then st.nextSeq + 1 else st.nextSeq
  {
    if SnapshotsStep(env, st, e) != [] {
      OneOfSeq(SnapshotsStep(env, st, e)[0], n);
    }
  }

  /** What number n shows when it is opened by the event at position i (nothing if i is the end). */
  function HistoryFrom(env: Surroundings, events: seq<Event>, n: nat, i: nat): seq<Connection>
    requires i <= |events|
  {
    if i == |events| then []
    else
      var c := Opened(env, n, events[i]);
      [c] + Trajectory(env, c, LifetimeAfter(events, i))
  }

  lemma HistoryShift(env: Surroundings, events: seq<Event>, n: nat, i: nat)
    requires events != [] && i <= |events| - 1
    ensures HistoryFrom(env, events, n, i + 1) == HistoryFrom(env, events[1..], n, i)
  {
    hide Trajectory;
    hide Lifetime;
    hide Opened;
    assert i < |events[1..]| ==> events[1..][i + 1..] == events[i + 2..] && events[1..][i] == events[i + 1];
  }

  lemma {:induction false} FutureConnect(env: Surroundings, st: State, events: seq<Event>, n: nat)
    requires SeqsOk(st) && n > st.nextSeq
    ensures OfSeq(Snapshots(env, st, events), n) == HistoryFrom(env, events, n, ConnectPos(events, n - st.nextSeq))
    decreases |events|
  {
    hide OfSeq;
    hide Trajectory;
    hide Lifetime;
    hide Connects;
    hide SnapshotsStep;
    if events == [] {
      NoneOfSeq(n);
    } else {
      var e := events[0];
      var next := StateStep(env, st, e);
      StepOfSeq(env, st, events, n);
      SeqsStayOk(env, st, e);
      hide Snapshots;
      if IsConnect(e) && n == st.nextSeq + 1 {
        OpeningStep(env, st, e, n);
        TrackedFollowsLifetime(env, next, events[1..], ConnKeyOf(e));
      } else {
        NotYetTracked(env, st, e, n);
        hide StateStep;
        FutureConnect(env, next, events[1..], n);
        HistoryShift(env, events, n, ConnectPos(events[1..], n - next.nextSeq));
        hide HistoryFrom;
      }
    }
  }

  lemma OpeningStep(env: Surroundings, st: State, e: Event, n: nat)
    requires IsConnect(e) && n == st.nextSeq + 1
    ensures OfSeq(SnapshotsStep(env, st, e), n) == [Opened(env, n, e)]
    ensures var next := StateStep(env, st, e);
      ConnKeyOf(e) in next.tracked && next.tracked[ConnKeyOf(e)] == Opened(env, n, e) && Opened(env, n, e).seqNo == n
  {
    OneOfSeq(Opened(env, n, e), n);
  }

  /** Over a whole run, the snapshots numbered n are exactly: the record of the nth connect, then
      its trajectory over the lifetime that follows; none if there was no nth connect. */
  lemma ConnectionHistory(env: Surroundings, events: seq<Event>, n: nat)
    requires n > 0
    ensures OfSeq(Snapshots(env, START, events), n) == HistoryFrom(env, events, n, ConnectPos(events, n))
  {
    FutureConnect(env, START, events, n);
  }

  // ---- what a trajectory looks like ----

  function Written(life: seq<Event>): nat {
    if life == [] then 0 else (if life[0].op == OP_WRITE then life[0].totalLen else 0) + Written(life[1..])
  }

  function ReadIn(life: seq<Event>): nat {
    if life == [] then 0 else (if life[0].op == OP_READ then life[0].totalLen else 0) + ReadIn(life[1..])
  }

  predicate SameIdentity(a: Connection, b: Connection) {
    a.seqNo == b.seqNo && a.pid == b.pid && a.fd == b.fd && a.comm == b.comm
    && a.remoteAddr == b.remoteAddr && a.remotePort == b.remotePort && a.openedAt == b.openedAt
  }

  /** Reads and writes, with a close at most at the end. */
  predicate IsLifetime(life: seq<Event>) {
    && (forall j :: 0 <= j < |life| ==> life[j].op == OP_READ || life[j].op == OP_WRITE || life[j].op == OP_CLOSE)
    && (forall j :: 0 <= j < |life| - 1 ==> life[j].op != OP_CLOSE)
  }

  lemma {:induction false} LifetimeShape(events: seq<Event>, k: ConnKey)
    ensures IsLifetime(Lifetime(events, k))
    ensures forall j :: 0 <= j < |Lifetime(events, k)| ==>
      Lifetime(events, k)[j].pid == k.pid && Lifetime(events, k)[j].fd == k.fd
    decreases |events|
  {
    if events != [] {
      LifetimeShape(events[1..], k);
    }
  }

  /** Every snapshot keeps its identity, its counters are the true byte counts so far, and it is
      closed exactly when it is the last one and its event was the close. */
  lemma {:induction false} TrajectoryExactly(env: Surroundings, c: Connection, life: seq<Event>, j: nat)
    requires IsLifetime(life) && !c.closed && j < |life|
    ensures var snaps := Trajectory(env, c, life);
      && |snaps| == |life|
      && SameIdentity(snaps[j], c)
      && snaps[j].bytesOut == c.bytesOut + Written(life[..j + 1])
      && snaps[j].bytesIn == c.bytesIn + ReadIn(life[..j + 1])
      && (snaps[j].closed <==> life[j].op == OP_CLOSE)
      && (snaps[j].closed ==> j == |life| - 1)
      && snaps[j].closedAt == if life[j].op == OP_CLOSE then env.timeOf(life[j]) else c.closedAt
    decreases |life|
  {
    TrajectoryLength(env, c, life);
    var next := Advance(env, c, life[0]);
    assert life[..j + 1][0] == life[0] && life[..j + 1][1..] == life[1..][..j];
    if j == 0 {
      assert life[1..][..0] == [];
    } else {
      TrajectoryExactly(env, next, life[1..], j - 1);
    }
  }

  lemma {:induction false} TrajectoryLength(env: Surroundings, c: Connection, life: seq<Event>)
    ensures |Trajectory(env, c, life)| == |life|
    decreases |life|
  {
    if life != [] {
      TrajectoryLength(env, Advance(env, c, life[0]), life[1..]);
    }
  }

  /** The last snapshot of a connection counts every byte its descriptor moved, from its connect to
      its close or the next connect on the descriptor. */
  lemma FinalCounts(env: Surroundings, events: seq<Event>, n: nat)
    requires n > 0 && ConnectPos(events, n) < |events|
    ensures var i := ConnectPos(events, n);
      var life := LifetimeAfter(events, i);
      var snaps := OfSeq(Snapshots(env, START, events), n);
      && |snaps| == |life| + 1
      && snaps[|life|].bytesOut == Written(life)
      && snaps[|life|].bytesIn == ReadIn(life)
      && (snaps[|life|].closed <==> life != [] && life[|life| - 1].op == OP_CLOSE)
      && forall j :: 0 <= j < |life| ==> !snaps[j].closed
  {
    hide Opened;
    hide Advance;
    hide Lifetime;
    hide Snapshots;
    hide OfSeq;
    hide Connects;
    var i := ConnectPos(events, n);
    var c := Opened(env, n, events[i]);
    var life := LifetimeAfter(events, i);
    ConnectionHistory(env, events, n);
    LifetimeShape(events[i + 1..], ConnKey(events[i].pid, events[i].fd));
    OpenedIsFresh(env, n, events[i]);
    TrajectoryLength(env, c, life);
    if life != [] {
      TrajectoryExactly(env, c, life, |life| - 1);
      assert life[..|life|] == life;
      forall j | 0 <= j < |life| - 1
        ensures !Trajectory(env, c, life)[j].closed
      {
        TrajectoryExactly(env, c, life, j);
      }
    }
  }

  /** Every snapshot of every connection, field by field. Snapshot `j` of number `n` has the identity
      of the nth connect's event, counts what the first `j` events of its lifetime moved, and is
      closed, at the time of the event before it, if that is a close. */
  lemma SnapshotsExactly(env: Surroundings, events: seq<Event>, n: nat, j: nat)
    requires n > 0 && ConnectPos(events, n) < |events|
    requires j <= |LifetimeAfter(events, ConnectPos(events, n))|
    ensures var e, life := events[ConnectPos(events, n)], LifetimeAfter(events, ConnectPos(events, n));
      var snaps := OfSeq(Snapshots(env, START, events), n);
      var closed := j > 0 && life[j - 1].op == OP_CLOSE;
      && |snaps| == |life| + 1
      && snaps[j] == Connection(
           n, e.pid, e.fd, env.commOf(e), e.remoteAddr, e.remotePort, env.timeOf(e),
           Written(life[..j]), ReadIn(life[..j]), closed, if closed then env.timeOf(life[j - 1]) else 0)
  {
    hide Lifetime;
    hide Advance;
    hide Snapshots;
    hide OfSeq;
    hide Connects;
    hide Written;
    hide ReadIn;
    var i := ConnectPos(events, n);
    var c, life := Opened(env, n, events[i]), LifetimeAfter(events, i);
    ConnectionHistory(env, events, n);
    LifetimeShape(events[i + 1..], ConnKey(events[i].pid, events[i].fd));
    TrajectoryLength(env, c, life);
    if j > 0 {
      TrajectoryExactly(env, c, life, j - 1);
    } else {
      NothingMoved();
    }
  }

  lemma NothingMoved()
    ensures Written([]) == 0 && ReadIn([]) == 0
  {
  }

  lemma OpenedIsFresh(env: Surroundings, n: nat, e: Event)
    ensures var c := Opened(env, n, e); !c.closed && c.bytesOut == 0 && c.bytesIn == 0
  {
  }
}
