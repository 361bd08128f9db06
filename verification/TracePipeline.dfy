/** Tracing: the collector's channel feeds the correlator, the correlator feeds the streamer, and
    three receivers keep taking what they put out. Every interleaving of these goroutines is a
    sequence of the moves below. */
module TracePipeline {
  import opened Events
  import opened Stages

  /** `first.raw` is the channel that `second.inp` receives from; only the latter is kept. */
  datatype System<!S, Y, !T, Z> = System(
    source: seq<Event>,
    first: Stage<S, Y>,
    second: Stage<T, Z>,
    gotRaw: seq<Event>,
    gotFirst: seq<Y>,
    gotSecond: seq<Z>)

  datatype Move<Y, Z> =
    | Feed
    | CloseSource
    | First(a: Act<Y>)
    | Second(c: Act<Z>)
    | TakeRaw
    | TakeFirst
    | TakeSecond

  function Fresh<T>(): Chan<T> {
    Chan([], false)
  }

  function Start<S, Y, T, Z>(trace: seq<Event>, s: S, t: T): System<S, Y, T, Z> {
    System(trace,
      Stage(Fresh(), Idle, s, Fresh(), Fresh()),
      Stage(Fresh(), Idle, t, Fresh(), Fresh()),
      [], [], [])
  }

  /** The first stage with the shared channel plugged in as its raw output. */
  function FirstStage<S, Y, T, Z>(y: System<S, Y, T, Z>): Stage<S, Y> {
    y.first.(raw := y.second.inp)
  }

  predicate Enabled<S, Y, T, Z>(a: Behaviour<S, Y>, b: Behaviour<T, Z>, y: System<S, Y, T, Z>, m: Move<Y, Z>) {
    match m
    case Feed => y.source != [] && |y.first.inp.buf| < EVENTS_CAP
    case CloseSource => y.source == [] && !y.first.inp.closed
    case First(act) => Can(a, FirstStage(y), MID_CAP, CONNS_CAP, act)
    case Second(act) => Can(b, y.second, RAW_CAP, EXCHANGES_CAP, act)
    case TakeRaw => y.second.raw.buf != []
    case TakeFirst => y.first.out.buf != []
    case TakeSecond => y.second.out.buf != []
  }

  function Take<T>(c: Chan<T>): Chan<T>
    requires c.buf != []
  {
    c.(buf := c.buf[1..])
  }

  function Make<S, Y, T, Z>(a: Behaviour<S, Y>, b: Behaviour<T, Z>, y: System<S, Y, T, Z>, m: Move<Y, Z>)
    : System<S, Y, T, Z>
    requires Enabled(a, b, y, m)
  {
    match m
    case Feed => y.(source := y.source[1..], first := y.first.(inp := Put(y.first.inp, y.source[0])))
    case CloseSource => y.(first := y.first.(inp := y.first.inp.(closed := true)))
    case First(act) =>
      var p := Do(a, FirstStage(y), MID_CAP, CONNS_CAP, act);
      y.(first := p, second := y.second.(inp := p.raw))
    case Second(act) => y.(second := Do(b, y.second, RAW_CAP, EXCHANGES_CAP, act))
    case TakeRaw =>
      y.(gotRaw := y.gotRaw + [y.second.raw.buf[0]], second := y.second.(raw := Take(y.second.raw)))
    case TakeFirst =>
      y.(gotFirst := y.gotFirst + [y.first.out.buf[0]], first := y.first.(out := Take(y.first.out)))
    case TakeSecond =>
      y.(gotSecond := y.gotSecond + [y.second.out.buf[0]], second := y.second.(out := Take(y.second.out)))
  }

  /** What the second stage has taken over from the first. */
  function TakenOver<S, Y, T, Z>(y: System<S, Y, T, Z>): seq<Event> {
    y.gotRaw + y.second.raw.buf + Held(y.second.place)
  }

  function Upstream<S, Y, T, Z>(y: System<S, Y, T, Z>): seq<Event> {
    RawLeft(FirstStage(y), y.source)
  }

  ghost predicate Running<S, Y, T, Z>(
    a: Behaviour<S, Y>, b: Behaviour<T, Z>, s: S, t: T, trace: seq<Event>, y: System<S, Y, T, Z>)
  {
    && OnTrack(a, s, trace, FirstStage(y), y.source, TakenOver(y), y.gotFirst)
    && OnTrack(b, t, trace, y.second, Upstream(y), y.gotRaw, y.gotSecond)
  }

  lemma StartsRunning<S, Y, T, Z>(a: Behaviour<S, Y>, b: Behaviour<T, Z>, s: S, t: T, trace: seq<Event>)
    ensures Running(a, b, s, t, trace, Start(trace, s, t))
  {
    var y: System<S, Y, T, Z> := Start(trace, s, t);
    StartsOnTrack(a, s, trace, FirstStage(y), trace);
    assert Upstream(y) == trace;
    StartsOnTrack(b, t, trace, y.second, trace);
  }

  lemma FirstMoves<S, Y, T, Z>(
      a: Behaviour<S, Y>, b: Behaviour<T, Z>, s: S, t: T, trace: seq<Event>, y: System<S, Y, T, Z>, act: Act<Y>)
    requires Running(a, b, s, t, trace, y) && Enabled(a, b, y, First(act))
    ensures Running(a, b, s, t, trace, Make(a, b, y, First(act)))
  {
    hide Do;
    hide Can;
    hide RawLeft;
    hide OnTrack;
    hide Held;
    var p := FirstStage(y);
    var q := Do(a, p, MID_CAP, CONNS_CAP, act);
    StepOnTrack(a, s, trace, p, y.source, TakenOver(y), y.gotFirst, MID_CAP, CONNS_CAP, act);
    StepCounts(a, p, MID_CAP, CONNS_CAP, act);
    RawMoves(p, q, y.source);
    ReturnedHasNothingLeft(a, s, trace, q, y.source, TakenOver(y), y.gotFirst);
    RefillOnTrack(b, t, trace, y.second, Upstream(y), y.gotRaw, y.gotSecond, q.raw, RawLeft(q, y.source));
    assert Make(a, b, y, First(act)).second == y.second.(inp := q.raw);
    assert FirstStage(Make(a, b, y, First(act))) == q;
  }

  lemma ReturnedHasNothingLeft<S, Y>(
      b: Behaviour<S, Y>, start: S, trace: seq<Event>,
      p: Stage<S, Y>, u: seq<Event>, gotRaw: seq<Event>, gotOut: seq<Y>)
    requires OnTrack(b, start, trace, p, u, gotRaw, gotOut)
    ensures p.raw.closed ==> RawLeft(p, u) == []
  {
    hide OutLeft;
    hide LastState;
  }

  lemma SecondMoves<S, Y, T, Z>(
      a: Behaviour<S, Y>, b: Behaviour<T, Z>, s: S, t: T, trace: seq<Event>, y: System<S, Y, T, Z>, act: Act<Z>)
    requires Running(a, b, s, t, trace, y) && Enabled(a, b, y, Second(act))
    ensures Running(a, b, s, t, trace, Make(a, b, y, Second(act)))
  {
    hide Do;
    hide Can;
    hide RawLeft;
    hide OnTrack;
    hide Held;
    var p, z := y.second, Make(a, b, y, Second(act));
    var q := Do(b, p, RAW_CAP, EXCHANGES_CAP, act);
    StepOnTrack(b, t, trace, p, Upstream(y), y.gotRaw, y.gotSecond, RAW_CAP, EXCHANGES_CAP, act);
    StepCounts(b, p, RAW_CAP, EXCHANGES_CAP, act);
    assert z.second == q;
    assert TakenOver(z) + q.inp.buf == y.gotRaw + (q.raw.buf + Held(q.place) + q.inp.buf);
    assert TakenOver(y) + p.inp.buf == y.gotRaw + (p.raw.buf + Held(p.place) + p.inp.buf);
    var f := FirstStage(y);
    var g := f.(raw := q.inp);
    DrainOnTrack(a, s, trace, f, y.source, TakenOver(y), y.gotFirst, g, TakenOver(z), y.gotFirst);
    assert FirstStage(z) == g;
    RawLeftOf(f, g, y.source);
  }

  lemma RawLeftOf<S, Y>(p: Stage<S, Y>, q: Stage<S, Y>, u: seq<Event>)
    requires p.inp == q.inp && p.place == q.place
    ensures RawLeft(p, u) == RawLeft(q, u)
  {
  }

  lemma RawLeftShift<S, Y>(p: Stage<S, Y>, u: seq<Event>, inp: Chan<Event>, v: seq<Event>)
    requires inp.buf + v == p.inp.buf + u
    ensures RawLeft(p.(inp := inp), v) == RawLeft(p, u)
  {
  }

  lemma SourceMoves<S, Y, T, Z>(
      a: Behaviour<S, Y>, b: Behaviour<T, Z>, s: S, t: T, trace: seq<Event>, y: System<S, Y, T, Z>, m: Move<Y, Z>)
    requires Running(a, b, s, t, trace, y) && Enabled(a, b, y, m) && (m.Feed? || m.CloseSource?)
    ensures Running(a, b, s, t, trace, Make(a, b, y, m))
  {
    hide RawLeft;
    hide OnTrack;
    hide Held;
    var z := Make(a, b, y, m);
    assert z.first.inp.buf + z.source == y.first.inp.buf + y.source;
    RefillOnTrack(a, s, trace, FirstStage(y), y.source, TakenOver(y), y.gotFirst, z.first.inp, z.source) by {
      ClosedMeansDrained(a, s, trace, FirstStage(y), y.source, TakenOver(y), y.gotFirst);
    }
    RawLeftShift(FirstStage(y), y.source, z.first.inp, z.source);
    assert FirstStage(z) == FirstStage(y).(inp := z.first.inp);
  }

  lemma TakingMoves<S, Y, T, Z>(
      a: Behaviour<S, Y>, b: Behaviour<T, Z>, s: S, t: T, trace: seq<Event>, y: System<S, Y, T, Z>, m: Move<Y, Z>)
    requires Running(a, b, s, t, trace, y) && Enabled(a, b, y, m) && (m.TakeRaw? || m.TakeFirst? || m.TakeSecond?)
    ensures Running(a, b, s, t, trace, Make(a, b, y, m))
  {
    hide RawLeft;
    hide OnTrack;
    hide Held;
    var z := Make(a, b, y, m);
    assert z.gotRaw + z.second.raw.buf == y.gotRaw + y.second.raw.buf;
    assert z.gotFirst + z.first.out.buf == y.gotFirst + y.first.out.buf;
    assert z.gotSecond + z.second.out.buf == y.gotSecond + y.second.out.buf;
    DrainOnTrack(
      a, s, trace, FirstStage(y), y.source, TakenOver(y), y.gotFirst, FirstStage(z), TakenOver(y), z.gotFirst);
    DrainOnTrack(b, t, trace, y.second, Upstream(y), y.gotRaw, y.gotSecond, z.second, z.gotRaw, z.gotSecond);
    RawLeftOf(FirstStage(y), FirstStage(z), y.source);
    assert TakenOver(z) == TakenOver(y);
  }

  /** No move loses, repeats or reorders anything. */
  lemma MoveKeepsRunning<S, Y, T, Z>(
      a: Behaviour<S, Y>, b: Behaviour<T, Z>, s: S, t: T, trace: seq<Event>, y: System<S, Y, T, Z>, m: Move<Y, Z>)
    requires Running(a, b, s, t, trace, y) && Enabled(a, b, y, m)
    ensures Running(a, b, s, t, trace, Make(a, b, y, m))
  {
    hide Running;
    hide Enabled;
    hide Make;
    match m
    case First(act) =>
      FirstMoves(a, b, s, t, trace, y, act);
    case Second(act) =>
      SecondMoves(a, b, s, t, trace, y, act);
    case Feed =>
      SourceMoves(a, b, s, t, trace, y, m);
    case CloseSource =>
      SourceMoves(a, b, s, t, trace, y, m);
    case _ =>
      TakingMoves(a, b, s, t, trace, y, m);
  }

  /** Both stages have returned, all channels are closed and everything has been received. */
  predicate Finished<S, Y, T, Z>(y: System<S, Y, T, Z>) {
    && y.first.place.Returned? && y.second.place.Returned?
    && y.first.out == Chan([], true) && y.second.out == Chan([], true)
    && y.second.inp == y.second.raw == Chan([], true)
  }

  /** How many moves can still be made at most. */
  function MovesLeft<S, Y, T, Z>(a: Behaviour<S, Y>, b: Behaviour<T, Z>, y: System<S, Y, T, Z>): nat {
    6 * |y.source| + (if y.first.inp.closed then 0 else 1)
    + 5 * |y.first.inp.buf| + 4 * |Held(y.first.place)| + 3 * |y.second.inp.buf|
    + 2 * |Held(y.second.place)| + |y.second.raw.buf|
    + WorkLeft(a, FirstStage(y), y.source) + WorkLeft(b, y.second, Upstream(y))
  }

  /** Every move brings the end nearer. */
  lemma MoveProgresses<S(!new), Y(!new), T(!new), Z(!new)>(
      a: Behaviour<S, Y>, b: Behaviour<T, Z>, s: S, t: T, trace: seq<Event>, y: System<S, Y, T, Z>, m: Move<Y, Z>)
    requires WellBehaved(a) && WellBehaved(b)
    requires Running(a, b, s, t, trace, y) && Enabled(a, b, y, m)
    ensures MovesLeft(a, b, Make(a, b, y, m)) < MovesLeft(a, b, y)
  {
    hide WellBehaved;
    hide WorkLeft;
    hide OnTrack;
    hide Held;
    hide RawLeft;
    var z := Make(a, b, y, m);
    var p, q := FirstStage(y), FirstStage(z);
    match m
    case First(act) =>
      FirstProgresses(a, b, s, t, trace, y, act);
    case Second(act) =>
      SecondProgresses(a, b, s, t, trace, y, act);
    case TakeRaw =>
      WorkIgnoresRaw(b, y.second, Upstream(y), z.second.raw);
    case TakeFirst =>
      TakingOutWorks(a, p, y.source);
      RawLeftOf(p, q, y.source);
    case TakeSecond =>
      TakingOutWorks(b, y.second, Upstream(y));
    case _ =>
      assert z.first.inp.buf + z.source == y.first.inp.buf + y.source;
      WorkIgnoresRefill(a, p, y.source, z.first.inp, z.source);
      RawLeftShift(p, y.source, z.first.inp, z.source);
      assert q == p.(inp := z.first.inp);
  }

  lemma FirstProgresses<S(!new), Y(!new), T(!new), Z(!new)>(
      a: Behaviour<S, Y>, b: Behaviour<T, Z>, s: S, t: T, trace: seq<Event>, y: System<S, Y, T, Z>, act: Act<Y>)
    requires WellBehaved(a)
    requires Running(a, b, s, t, trace, y) && Enabled(a, b, y, First(act))
    ensures MovesLeft(a, b, Make(a, b, y, First(act))) < MovesLeft(a, b, y)
  {
    hide Do;
    hide Can;
    hide RawLeft;
    hide OnTrack;
    hide WorkLeft;
    hide WellBehaved;
    var p, z := FirstStage(y), Make(a, b, y, First(act));
    var q := Do(a, p, MID_CAP, CONNS_CAP, act);
    ClosedMeansDrained(a, s, trace, p, y.source, TakenOver(y), y.gotFirst);
    StepWorkLeft(a, p, y.source, MID_CAP, CONNS_CAP, act);
    StepCounts(a, p, MID_CAP, CONNS_CAP, act);
    RawMoves(p, q, y.source);
    WorkIgnoresRefill(b, y.second, Upstream(y), q.raw, RawLeft(q, y.source));
    assert FirstStage(z) == q && z.second == y.second.(inp := q.raw);
  }

  lemma SecondProgresses<S(!new), Y(!new), T(!new), Z(!new)>(
      a: Behaviour<S, Y>, b: Behaviour<T, Z>, s: S, t: T, trace: seq<Event>, y: System<S, Y, T, Z>, act: Act<Z>)
    requires WellBehaved(b)
    requires Running(a, b, s, t, trace, y) && Enabled(a, b, y, Second(act))
    ensures MovesLeft(a, b, Make(a, b, y, Second(act))) < MovesLeft(a, b, y)
  {
    var p, z := y.second, Make(a, b, y, Second(act));
    var q := Do(b, p, RAW_CAP, EXCHANGES_CAP, act);
    StepWorkLeft(b, p, Upstream(y), RAW_CAP, EXCHANGES_CAP, act);
    StepCounts(b, p, RAW_CAP, EXCHANGES_CAP, act);
    WorkIgnoresRaw(a, FirstStage(y), y.source, q.inp);
    hide WorkLeft;
    hide Do;
    assert z.second == q && FirstStage(z) == FirstStage(y).(raw := q.inp);
    assert Upstream(z) == Upstream(y);
  }

  /** A move that is possible in any unfinished state. */
  ghost function SomeMove<S(!new), Y(!new), T(!new), Z(!new)>(
    a: Behaviour<S, Y>, b: Behaviour<T, Z>, y: System<S, Y, T, Z>): Move<Y, Z>
    requires WellBehaved(a) && WellBehaved(b)
  {
    if y.second.raw.buf != [] then TakeRaw
    else if y.first.out.buf != [] then TakeFirst
    else if y.second.out.buf != [] then TakeSecond
    else if !y.second.place.Returned? && (y.second.inp.buf != [] || y.second.inp.closed || !y.second.place.Idle?)
    then Second(NextAct(b, y.second))
    else if !y.first.place.Returned? && (y.first.inp.buf != [] || y.first.inp.closed || !y.first.place.Idle?)
    then First(NextAct(a, FirstStage(y)))
    else if y.source != [] then Feed
    else CloseSource
  }

  /** No unfinished state is stuck. */
  lemma NeverStuck<S(!new), Y(!new), T(!new), Z(!new)>(
      a: Behaviour<S, Y>, b: Behaviour<T, Z>, s: S, t: T, trace: seq<Event>, y: System<S, Y, T, Z>)
    requires WellBehaved(a) && WellBehaved(b)
    requires Running(a, b, s, t, trace, y) && !Finished(y)
    ensures Enabled(a, b, y, SomeMove(a, b, y))
  {
    var p := FirstStage(y);
    hide Can;
    hide NextAct;
    hide OutLeft;
    hide LastState;
    hide RawLeft;
    hide WellBehaved;
    if y.second.raw.buf == [] && y.first.out.buf == [] && y.second.out.buf == [] {
      if !y.second.place.Returned? && (y.second.inp.buf != [] || y.second.inp.closed || !y.second.place.Idle?) {
        OnlyHeldUp(b, t, trace, y.second, Upstream(y), y.gotRaw, y.gotSecond, RAW_CAP, EXCHANGES_CAP);
      } else if !p.place.Returned? && (p.inp.buf != [] || p.inp.closed || !p.place.Idle?) {
        OnlyHeldUp(a, s, trace, p, y.source, TakenOver(y), y.gotFirst, MID_CAP, CONNS_CAP);
      }
    }
  }

  /** A schedule: moves each of which is possible when it is made. */
  ghost predicate Valid<S, Y, T, Z>(
    a: Behaviour<S, Y>, b: Behaviour<T, Z>, y: System<S, Y, T, Z>, moves: seq<Move<Y, Z>>)
    decreases |moves|
  {
    moves == [] || (Enabled(a, b, y, moves[0]) && Valid(a, b, Make(a, b, y, moves[0]), moves[1..]))
  }

  ghost function After<S, Y, T, Z>(
    a: Behaviour<S, Y>, b: Behaviour<T, Z>, y: System<S, Y, T, Z>, moves: seq<Move<Y, Z>>): System<S, Y, T, Z>
    requires Valid(a, b, y, moves)
    decreases |moves|
  {
    if moves == [] then y else After(a, b, Make(a, b, y, moves[0]), moves[1..])
  }

  lemma {:induction false} ScheduleKeepsRunning<S(!new), Y(!new), T(!new), Z(!new)>(
      a: Behaviour<S, Y>, b: Behaviour<T, Z>, s: S, t: T, trace: seq<Event>,
      y: System<S, Y, T, Z>, moves: seq<Move<Y, Z>>)
    requires WellBehaved(a) && WellBehaved(b)
    requires Running(a, b, s, t, trace, y) && Valid(a, b, y, moves)
    ensures Running(a, b, s, t, trace, After(a, b, y, moves))
    ensures |moves| + MovesLeft(a, b, After(a, b, y, moves)) <= MovesLeft(a, b, y)
    decreases |moves|
  {
    hide WellBehaved;
    hide Running;
    hide MovesLeft;
    hide Enabled;
    hide Make;
    if moves != [] {
      MoveKeepsRunning(a, b, s, t, trace, y, moves[0]);
      MoveProgresses(a, b, s, t, trace, y, moves[0]);
      ScheduleKeepsRunning(a, b, s, t, trace, Make(a, b, y, moves[0]), moves[1..]);
    }
  }

  /** Every schedule of two well-behaved stages, from the start: its length is bounded, it can be
      continued unless everything has finished, and when everything has finished the raw output is
      the trace and each stage's output is what it computes from the trace alone. */
  lemma EveryScheduleCompletes<S(!new), Y(!new), T(!new), Z(!new)>(
      a: Behaviour<S, Y>, b: Behaviour<T, Z>, s: S, t: T, trace: seq<Event>, moves: seq<Move<Y, Z>>)
    requires WellBehaved(a) && WellBehaved(b)
    requires Valid(a, b, Start(trace, s, t), moves)
    ensures var start: System<S, Y, T, Z> := Start(trace, s, t);
      var end := After(a, b, start, moves);
      && |moves| <= MovesLeft(a, b, start)
      && (!Finished(end) ==> exists m :: Enabled(a, b, end, m))
      && (Finished(end) ==>
            && end.gotRaw == trace
            && (exists f :: a.flush(EndState(a, s, trace), f) && end.gotFirst == Outs(a, s, trace) + f)
            && (exists f :: b.flush(EndState(b, t, trace), f) && end.gotSecond == Outs(b, t, trace) + f))
  {
    hide MovesLeft;
    hide Enabled;
    hide Outs;
    hide EndState;
    hide SomeMove;
    hide WellBehaved;
    hide OutLeft;
    hide LastState;
    hide RawLeft;
    var start: System<S, Y, T, Z> := Start(trace, s, t);
    StartsRunning(a, b, s, t, trace);
    ScheduleKeepsRunning(a, b, s, t, trace, start, moves);
    var end := After(a, b, start, moves);
    hide Valid;
    hide After;
    if Finished(end) {
      ReturnedOutputs(a, s, trace, FirstStage(end), end.source, TakenOver(end), end.gotFirst);
      ReturnedOutputs(b, t, trace, end.second, Upstream(end), end.gotRaw, end.gotSecond);
      assert end.gotRaw + end.second.raw.buf == end.gotRaw;
    } else {
      NeverStuck(a, b, s, t, trace, end);
    }
  }

  // ---- the channels stay bounded ----

  predicate Bounded<S, Y, T, Z>(y: System<S, Y, T, Z>) {
    && |y.first.inp.buf| <= 64 && |y.first.out.buf| <= 64
    && |y.second.inp.buf| <= 64 && |y.second.raw.buf| <= 64 && |y.second.out.buf| <= 16
  }

  lemma MoveKeepsBounded<S, Y, T, Z>(a: Behaviour<S, Y>, b: Behaviour<T, Z>, y: System<S, Y, T, Z>, m: Move<Y, Z>)
    requires Bounded(y) && Enabled(a, b, y, m)
    ensures Bounded(Make(a, b, y, m))
  {
  }

  /** No schedule ever puts more into a channel than it was made for: 16 exchanges, 64 of anything
      else. */
  lemma {:induction false} ChannelsStayBounded<S, Y, T, Z>(
      a: Behaviour<S, Y>, b: Behaviour<T, Z>, y: System<S, Y, T, Z>, moves: seq<Move<Y, Z>>)
    requires Bounded(y) && Valid(a, b, y, moves)
    ensures Bounded(After(a, b, y, moves))
    decreases |moves|
  {
    hide Enabled;
    hide Make;
    hide Bounded;
    if moves != [] {
      MoveKeepsBounded(a, b, y, moves[0]);
      ChannelsStayBounded(a, b, Make(a, b, y, moves[0]), moves[1..]);
    }
  }
}
