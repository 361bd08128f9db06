/** Recording: the collector's channel feeds the streamer directly, the exchanges are received, and
    nobody ever receives the raw events. */
module RecordPipeline {
  import opened Events
  import opened Stages

  datatype System<!S, Y> = System(source: seq<Event>, stage: Stage<S, Y>, got: seq<Y>)

  datatype Move<Y> = Feed | CloseSource | Step(act: Act<Y>) | Take

  function Start<S, Y>(trace: seq<Event>, s: S): System<S, Y> {
    System(trace, Stage(Chan([], false), Idle, s, Chan([], false), Chan([], false)), [])
  }

  predicate Enabled<S, Y>(b: Behaviour<S, Y>, y: System<S, Y>, m: Move<Y>) {
    match m
    case Feed => y.source != [] && |y.stage.inp.buf| < EVENTS_CAP
    case CloseSource => y.source == [] && !y.stage.inp.closed
    case Step(act) => Can(b, y.stage, RAW_CAP, EXCHANGES_CAP, act)
    case Take => y.stage.out.buf != []
  }

  function Make<S, Y>(b: Behaviour<S, Y>, y: System<S, Y>, m: Move<Y>): System<S, Y>
    requires Enabled(b, y, m)
  {
    match m
    case Feed => y.(source := y.source[1..], stage := y.stage.(inp := Put(y.stage.inp, y.source[0])))
    case CloseSource => y.(stage := y.stage.(inp := y.stage.inp.(closed := true)))
    case Step(act) => y.(stage := Do(b, y.stage, RAW_CAP, EXCHANGES_CAP, act))
    case Take => y.(got := y.got + [y.stage.out.buf[0]],
                    stage := y.stage.(out := y.stage.out.(buf := y.stage.out.buf[1..])))
  }

  ghost predicate Running<S, Y>(b: Behaviour<S, Y>, s: S, trace: seq<Event>, y: System<S, Y>) {
    && OnTrack(b, s, trace, y.stage, y.source, [], y.got)
    && |y.stage.raw.buf| <= RAW_CAP
  }

  predicate Finished<S, Y>(y: System<S, Y>) {
    y.stage.place.Returned? && y.stage.out == Chan([], true)
  }

  function MovesLeft<S, Y>(b: Behaviour<S, Y>, y: System<S, Y>): nat {
    3 * |y.source| + (if y.stage.inp.closed then 0 else 1)
    + 2 * |y.stage.inp.buf| + |Held(y.stage.place)| + WorkLeft(b, y.stage, y.source)
  }

  lemma MoveKeepsRunning<S, Y>(b: Behaviour<S, Y>, s: S, trace: seq<Event>, y: System<S, Y>, m: Move<Y>)
    requires Running(b, s, trace, y) && Enabled(b, y, m)
    ensures Running(b, s, trace, Make(b, y, m))
  {
    hide OnTrack;
    hide Do;
    var p, z := y.stage, Make(b, y, m);
    match m
    case Step(act) =>
      StepOnTrack(b, s, trace, p, y.source, [], y.got, RAW_CAP, EXCHANGES_CAP, act);
      StepCounts(b, p, RAW_CAP, EXCHANGES_CAP, act);
    case Take =>
      assert z.got + z.stage.out.buf == y.got + p.out.buf;
      DrainOnTrack(b, s, trace, p, y.source, [], y.got, z.stage, [], z.got);
    case _ =>
      assert z.stage.inp.buf + z.source == p.inp.buf + y.source;
      ClosedMeansDrained(b, s, trace, p, y.source, [], y.got);
      RefillOnTrack(b, s, trace, p, y.source, [], y.got, z.stage.inp, z.source);
  }

  lemma MoveProgresses<S(!new), Y(!new)>(b: Behaviour<S, Y>, s: S, trace: seq<Event>, y: System<S, Y>, m: Move<Y>)
    requires WellBehaved(b)
    requires Running(b, s, trace, y) && Enabled(b, y, m)
    ensures MovesLeft(b, Make(b, y, m)) < MovesLeft(b, y)
  {
    hide OnTrack;
    hide Do;
    hide WorkLeft;
    hide WellBehaved;
    var p, z := y.stage, Make(b, y, m);
    ClosedMeansDrained(b, s, trace, p, y.source, [], y.got);
    match m
    case Step(act) =>
      StepWorkLeft(b, p, y.source, RAW_CAP, EXCHANGES_CAP, act);
      StepCounts(b, p, RAW_CAP, EXCHANGES_CAP, act);
    case Take =>
      TakingOutWorks(b, p, y.source);
    case _ =>
      assert z.stage.inp.buf + z.source == p.inp.buf + y.source;
      WorkIgnoresRefill(b, p, y.source, z.stage.inp, z.source);
  }

  ghost function SomeMove<S(!new), Y(!new)>(b: Behaviour<S, Y>, y: System<S, Y>): Move<Y>
    requires WellBehaved(b)
  {
    if y.stage.out.buf != [] then Take
    else if !y.stage.place.Returned? && (y.stage.inp.buf != [] || y.stage.inp.closed || !y.stage.place.Idle?)
    then Step(NextAct(b, y.stage))
    else if y.source != [] then Feed
    else CloseSource
  }

  /** A trace that fits in the raw channel never gets stuck. */
  lemma ShortTraceNeverStuck<S(!new), Y(!new)>(b: Behaviour<S, Y>, s: S, trace: seq<Event>, y: System<S, Y>)
    requires WellBehaved(b) && |trace| <= RAW_CAP
    requires Running(b, s, trace, y) && !Finished(y)
    ensures Enabled(b, y, SomeMove(b, y))
  {
    hide Can;
    hide NextAct;
    hide OutLeft;
    hide LastState;
    hide WellBehaved;
    var p := y.stage;
    assert |[] + p.raw.buf + RawLeft(p, y.source)| == |trace|;
    if p.out.buf == [] && !p.place.Returned? && (p.inp.buf != [] || p.inp.closed || !p.place.Idle?) {
      OnlyHeldUp(b, s, trace, p, y.source, [], y.got, RAW_CAP, EXCHANGES_CAP);
    }
  }

  ghost predicate Valid<S, Y>(b: Behaviour<S, Y>, y: System<S, Y>, moves: seq<Move<Y>>)
    decreases |moves|
  {
    moves == [] || (Enabled(b, y, moves[0]) && Valid(b, Make(b, y, moves[0]), moves[1..]))
  }

  ghost function After<S, Y>(b: Behaviour<S, Y>, y: System<S, Y>, moves: seq<Move<Y>>): System<S, Y>
    requires Valid(b, y, moves)
    decreases |moves|
  {
    if moves == [] then y else After(b, Make(b, y, moves[0]), moves[1..])
  }

  lemma {:induction false} ScheduleKeepsRunning<S(!new), Y(!new)>(
      b: Behaviour<S, Y>, s: S, trace: seq<Event>, y: System<S, Y>, moves: seq<Move<Y>>)
    requires WellBehaved(b) && Running(b, s, trace, y) && Valid(b, y, moves)
    ensures Running(b, s, trace, After(b, y, moves))
    ensures |moves| + MovesLeft(b, After(b, y, moves)) <= MovesLeft(b, y)
    decreases |moves|
  {
    hide WellBehaved;
    hide Running;
    hide MovesLeft;
    hide Enabled;
    hide Make;
    if moves != [] {
      MoveKeepsRunning(b, s, trace, y, moves[0]);
      MoveProgresses(b, s, trace, y, moves[0]);
      ScheduleKeepsRunning(b, s, trace, Make(b, y, moves[0]), moves[1..]);
    }
  }

  lemma StartsRunning<S, Y>(b: Behaviour<S, Y>, s: S, trace: seq<Event>)
    ensures Running(b, s, trace, Start(trace, s))
  {
    var y: System<S, Y> := Start(trace, s);
    StartsOnTrack(b, s, trace, y.stage, trace);
  }

  /** When the end of the trace has been noticed, every event sits in the raw channel. */
  lemma EndHoldsWholeTrace<S, Y>(b: Behaviour<S, Y>, s: S, trace: seq<Event>, y: System<S, Y>)
    requires Running(b, s, trace, y) && Ended(y.stage.place)
    ensures y.stage.raw.buf == trace && |trace| <= RAW_CAP
  {
    hide OutLeft;
    hide LastState;
    assert y.stage.inp.buf + y.source == [];
    assert [] + y.stage.raw.buf + [] == y.stage.raw.buf;
  }

  lemma {:induction false} ShortTraceFinishes<S(!new), Y(!new)>(
      b: Behaviour<S, Y>, s: S, trace: seq<Event>, y: System<S, Y>) returns (moves: seq<Move<Y>>)
    requires WellBehaved(b) && |trace| <= RAW_CAP && Running(b, s, trace, y)
    ensures Valid(b, y, moves) && Finished(After(b, y, moves))
    decreases MovesLeft(b, y)
  {
    hide WellBehaved;
    hide Running;
    hide MovesLeft;
    hide Enabled;
    hide Make;
    hide SomeMove;
    if Finished(y) {
      moves := [];
    } else {
      var m := SomeMove(b, y);
      ShortTraceNeverStuck(b, s, trace, y);
      MoveKeepsRunning(b, s, trace, y, m);
      MoveProgresses(b, s, trace, y, m);
      var rest := ShortTraceFinishes(b, s, trace, Make(b, y, m));
      moves := [m] + rest;
      assert moves[1..] == rest;
    }
  }

  /** Some schedule takes the stage past the end of the trace. */
  ghost predicate CanEnd<S(!new), Y(!new)>(b: Behaviour<S, Y>, s: S, trace: seq<Event>) {
    exists moves: seq<Move<Y>> ::
      Valid(b, Start(trace, s), moves) && Ended(After(b, Start(trace, s), moves).stage.place)
  }

  /** The end of the trace is ever noticed if and only if the trace fits in the raw channel: with
      one event more, every schedule stops for good before the flush. */
  lemma EndsExactlyWhenTraceFits<S(!new), Y(!new)>(b: Behaviour<S, Y>, s: S, trace: seq<Event>)
    requires WellBehaved(b)
    ensures CanEnd(b, s, trace) <==> |trace| <= RAW_CAP
  {
    hide WellBehaved;
    hide Running;
    var start: System<S, Y> := Start(trace, s);
    StartsRunning(b, s, trace);
    if |trace| <= RAW_CAP {
      var moves := ShortTraceFinishes(b, s, trace, start);
      assert Ended(After(b, start, moves).stage.place);
    }
    if CanEnd(b, s, trace) {
      var moves: seq<Move<Y>> :| Valid(b, start, moves) && Ended(After(b, start, moves).stage.place);
      ScheduleKeepsRunning(b, s, trace, start, moves);
      EndHoldsWholeTrace(b, s, trace, After(b, start, moves));
    }
  }

  /** On a trace that fits, every schedule has bounded length, can be continued unless it has
      finished, and delivers what the stage computes from the trace alone. */
  lemma ShortTraceCompletes<S(!new), Y(!new)>(b: Behaviour<S, Y>, s: S, trace: seq<Event>, moves: seq<Move<Y>>)
    requires WellBehaved(b) && |trace| <= RAW_CAP
    requires Valid(b, Start(trace, s), moves)
    ensures var start: System<S, Y> := Start(trace, s);
      var end := After(b, start, moves);
      && |moves| <= MovesLeft(b, start)
      && (!Finished(end) ==> exists m :: Enabled(b, end, m))
      && (Finished(end) ==> exists f :: b.flush(EndState(b, s, trace), f) && end.got == Outs(b, s, trace) + f)
  {
    hide WellBehaved;
    hide MovesLeft;
    hide Enabled;
    hide SomeMove;
    hide Outs;
    hide EndState;
    hide OutLeft;
    hide LastState;
    var start: System<S, Y> := Start(trace, s);
    StartsRunning(b, s, trace);
    ScheduleKeepsRunning(b, s, trace, start, moves);
    var end := After(b, start, moves);
    hide Valid;
    hide After;
    if Finished(end) {
      ReturnedOutputs(b, s, trace, end.stage, end.source, [], end.got);
    } else {
      ShortTraceNeverStuck(b, s, trace, end);
    }
  }

  /** On a longer trace, every schedule has bounded length, and where it can go no further the
      stage is still holding the event that found the raw channel full, and the receiver has exactly
      what the events before it gave rise to. */
  lemma LongTraceHangs<S(!new), Y(!new)>(b: Behaviour<S, Y>, s: S, trace: seq<Event>, moves: seq<Move<Y>>)
    requires WellBehaved(b) && |trace| > RAW_CAP
    requires Valid(b, Start(trace, s), moves)
    ensures var start: System<S, Y> := Start(trace, s);
      var end := After(b, start, moves);
      && |moves| <= MovesLeft(b, start)
      && !Ended(end.stage.place)
      && ((forall m :: !Enabled(b, end, m)) ==>
            && end.stage.place == Passing(trace[RAW_CAP]) && end.stage.raw.buf == trace[..RAW_CAP]
            && end.got == Outs(b, s, trace[..RAW_CAP]))
  {
    hide WellBehaved;
    hide MovesLeft;
    var start: System<S, Y> := Start(trace, s);
    StartsRunning(b, s, trace);
    ScheduleKeepsRunning(b, s, trace, start, moves);
    var end := After(b, start, moves);
    hide Valid;
    hide After;
    if Ended(end.stage.place) {
      EndHoldsWholeTrace(b, s, trace, end);
      assert false;
    }
    if forall m :: !Enabled(b, end, m) {
      StuckOnlyWhenFull(b, s, trace, end);
    }
  }

  lemma StuckOnlyWhenFull<S(!new), Y(!new)>(b: Behaviour<S, Y>, s: S, trace: seq<Event>, y: System<S, Y>)
    requires WellBehaved(b) && Running(b, s, trace, y) && !Ended(y.stage.place)
    requires forall m :: !Enabled(b, y, m)
    ensures |trace| > RAW_CAP && y.stage.place == Passing(trace[RAW_CAP])
    ensures y.stage.raw.buf == trace[..RAW_CAP] && y.got == Outs(b, s, trace[..RAW_CAP])
  {
    hide Outs;
    hide EndState;
    hide OutLeft;
    hide LastState;
    hide WellBehaved;
    hide NextAct;
    hide Can;
    var p := y.stage;
    assert !Enabled(b, y, Take);
    assert !Enabled(b, y, Step(NextAct(b, p)));
    assert !Enabled(b, y, Feed);
    assert !Enabled(b, y, CloseSource);
    if |p.raw.buf| < RAW_CAP || !p.place.Passing? {
      if p.inp.buf != [] || p.inp.closed || !p.place.Idle? {
        OnlyHeldUp(b, s, trace, p, y.source, [], y.got, RAW_CAP, EXCHANGES_CAP);
      }
      assert false;
    }
    assert trace == p.raw.buf + ([p.place.ev] + (p.inp.buf + y.source));
    HeldUpOutputs(b, s, trace, p, y.source, [], y.got);
    assert [] + p.raw.buf == p.raw.buf == trace[..RAW_CAP];
  }

  predicate Bounded<S, Y>(y: System<S, Y>) {
    |y.stage.inp.buf| <= 64 && |y.stage.raw.buf| <= 64 && |y.stage.out.buf| <= 16
  }

  lemma MoveKeepsBounded<S, Y>(b: Behaviour<S, Y>, y: System<S, Y>, m: Move<Y>)
    requires Bounded(y) && Enabled(b, y, m)
    ensures Bounded(Make(b, y, m))
  {
  }

  /** No schedule ever puts more into a channel than it was made for. */
  lemma {:induction false} ChannelsStayBounded<S, Y>(b: Behaviour<S, Y>, y: System<S, Y>, moves: seq<Move<Y>>)
    requires Bounded(y) && Valid(b, y, moves)
    ensures Bounded(After(b, y, moves))
    decreases |moves|
  {
    hide Enabled;
    hide Make;
    hide Bounded;
    if moves != [] {
      MoveKeepsBounded(b, y, moves[0]);
      ChannelsStayBounded(b, Make(b, y, moves[0]), moves[1..]);
    }
  }
}
