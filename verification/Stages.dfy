/** A goroutine that receives events from one bounded channel, passes each one on through a second
    and sends what it derives from it through a third: the shape of both the correlator and the
    streamer. Every blocking point is a separate step. */
module Stages {
  import opened Events
  import opened Sequences

  // The capacities of the channels between the goroutines.
  const EVENTS_CAP: nat := 64
  const MID_CAP: nat := 64
  const CONNS_CAP: nat := 64
  const RAW_CAP: nat := 64
  const EXCHANGES_CAP: nat := 16

  datatype Chan<T> = Chan(buf: seq<T>, closed: bool)

  /** What a stage computes: its state after an event, what it sends for it, and what it may send
      once its input is exhausted, with a bound on how much that is. */
  datatype Behaviour<!S, !Y> = Behaviour(
    next: (S, Event) -> S,
    out: (S, Event) -> seq<Y>,
    flush: (S, seq<Y>) -> bool,
    bound: S -> nat)

  ghost predicate WellBehaved<S(!new), Y(!new)>(b: Behaviour<S, Y>) {
    && (forall s, f :: b.flush(s, f) ==> |f| <= b.bound(s))
    && (forall s :: CanFlush(b, s))
  }

  ghost predicate CanFlush<S, Y(!new)>(b: Behaviour<S, Y>, s: S) {
    exists f :: b.flush(s, f)
  }

  /** Where a stage stands: waiting for an event, about to pass one on, sending what it derived,
      sending its final items (`sent` of them already), or returned. */
  datatype Place<Y> =
    | Idle
    | Passing(ev: Event)
    | Sending(pending: seq<Y>)
    | Flushing(all: seq<Y>, sent: nat)
    | Returned(all: seq<Y>)

  /** A stage with the channels around it. */
  datatype Stage<!S, Y> = Stage(inp: Chan<Event>, place: Place<Y>, state: S, raw: Chan<Event>, out: Chan<Y>)

  datatype Act<Y> = Receive | Pass | Send | BeginFlush(f: seq<Y>) | SendFinal | Return

  predicate Can<S, Y>(b: Behaviour<S, Y>, p: Stage<S, Y>, rawCap: nat, outCap: nat, act: Act<Y>) {
    match act
    case Receive => p.place.Idle? && p.inp.buf != []
    case Pass => p.place.Passing? && |p.raw.buf| < rawCap
    case Send => p.place.Sending? && p.place.pending != [] && |p.out.buf| < outCap
    case BeginFlush(f) => p.place.Idle? && p.inp.buf == [] && p.inp.closed && b.flush(p.state, f)
    case SendFinal => p.place.Flushing? && p.place.sent < |p.place.all| && |p.out.buf| < outCap
    case Return => p.place.Flushing? && p.place.sent == |p.place.all|
  }

  function AfterSending<Y>(pending: seq<Y>): Place<Y> {
    if pending == [] then Idle else Sending(pending)
  }

  function Put<T>(c: Chan<T>, x: T): Chan<T> {
    c.(buf := c.buf + [x])
  }

  function Do<S, Y>(b: Behaviour<S, Y>, p: Stage<S, Y>, rawCap: nat, outCap: nat, act: Act<Y>): Stage<S, Y>
    requires Can(b, p, rawCap, outCap, act)
  {
    match act
    case Receive => p.(inp := p.inp.(buf := p.inp.buf[1..]), place := Passing(p.inp.buf[0]))
    case Pass =>
      var e := p.place.ev;
      p.(raw := Put(p.raw, e), place := AfterSending(b.out(p.state, e)), state := b.next(p.state, e))
    case Send => p.(out := Put(p.out, p.place.pending[0]), place := AfterSending(p.place.pending[1..]))
    case BeginFlush(f) => p.(place := Flushing(f, 0))
    case SendFinal =>
      p.(out := Put(p.out, p.place.all[p.place.sent]), place := Flushing(p.place.all, p.place.sent + 1))
    case Return =>
      p.(raw := p.raw.(closed := true), out := p.out.(closed := true), place := Returned(p.place.all))
  }

  // ---- what a stage will still do ----

  function Outs<S, Y>(b: Behaviour<S, Y>, s: S, events: seq<Event>): seq<Y>
    decreases |events|
  {
    if events == [] then [] else b.out(s, events[0]) + Outs(b, b.next(s, events[0]), events[1..])
  }

  function EndState<S, Y>(b: Behaviour<S, Y>, s: S, events: seq<Event>): S
    decreases |events|
  {
    if events == [] then s else EndState(b, b.next(s, events[0]), events[1..])
  }

  function Held<Y>(place: Place<Y>): seq<Event> {
    if place.Passing? then [place.ev] else []
  }

  predicate Ended<Y>(place: Place<Y>) {
    place.Flushing? || place.Returned?
  }

  /** The events this stage has not yet passed on, `u` of them still upstream of its input. */
  function RawLeft<S, Y>(p: Stage<S, Y>, u: seq<Event>): seq<Event> {
    Held(p.place) + (p.inp.buf + u)
  }

  /** The items it has not yet sent, apart from final ones not yet chosen. */
  function OutLeft<S, Y>(b: Behaviour<S, Y>, p: Stage<S, Y>, u: seq<Event>): seq<Y> {
    match p.place
    case Idle => Outs(b, p.state, p.inp.buf + u)
    case Passing(e) => b.out(p.state, e) + Outs(b, b.next(p.state, e), p.inp.buf + u)
    case Sending(q) => q + Outs(b, p.state, p.inp.buf + u)
    case Flushing(all, sent) => if sent <= |all| then all[sent..] else []
    case Returned(_) => []
  }

  function LastState<S, Y>(b: Behaviour<S, Y>, p: Stage<S, Y>, u: seq<Event>): S {
    match p.place
    case Passing(e) => EndState(b, b.next(p.state, e), p.inp.buf + u)
    case _ => EndState(b, p.state, p.inp.buf + u)
  }

  /** The final items it has chosen, once it has. */
  function Chosen<Y>(place: Place<Y>): seq<Y> {
    if Ended(place) then place.all else []
  }

  /** Nothing passed on is lost, repeated or reordered. */
  ghost predicate PassesOn<S, Y>(trace: seq<Event>, p: Stage<S, Y>, u: seq<Event>, gotRaw: seq<Event>) {
    gotRaw + p.raw.buf + RawLeft(p, u) == trace
  }

  /** Nothing sent is lost, repeated or reordered, and the stage will end in the right state. */
  ghost predicate SendsOut<S, Y>(
    b: Behaviour<S, Y>, start: S, trace: seq<Event>, p: Stage<S, Y>, u: seq<Event>, gotOut: seq<Y>)
  {
    && gotOut + p.out.buf + OutLeft(b, p, u) == Outs(b, start, trace) + Chosen(p.place)
    && LastState(b, p, u) == EndState(b, start, trace)
  }

  /** The stage's state is that of the events it has passed on. */
  ghost predicate StateOfPassed<S, Y>(b: Behaviour<S, Y>, start: S, p: Stage<S, Y>, gotRaw: seq<Event>) {
    p.state == EndState(b, start, gotRaw + p.raw.buf)
  }

  /** The stage flushes only at the end of its input, and its channels are closed exactly when it
      has returned. */
  ghost predicate InPlace<S, Y>(b: Behaviour<S, Y>, p: Stage<S, Y>, u: seq<Event>) {
    && (p.inp.closed ==> u == [])
    && (Ended(p.place) ==> p.inp.buf == [] && u == [] && b.flush(p.state, p.place.all))
    && (p.place.Flushing? ==> p.place.sent <= |p.place.all|)
    && (p.place.Sending? ==> p.place.pending != [])
    && p.raw.closed == p.out.closed == p.place.Returned?
  }

  /** A stage in the middle of a run over `trace`, with `u` still upstream and `gotRaw`, `gotOut`
      already taken from its channels. */
  ghost predicate OnTrack<S, Y>(
    b: Behaviour<S, Y>, start: S, trace: seq<Event>,
    p: Stage<S, Y>, u: seq<Event>, gotRaw: seq<Event>, gotOut: seq<Y>)
  {
    && PassesOn(trace, p, u, gotRaw)
    && SendsOut(b, start, trace, p, u, gotOut)
    && StateOfPassed(b, start, p, gotRaw)
    && InPlace(b, p, u)
  }

  lemma StartsOnTrack<S, Y>(b: Behaviour<S, Y>, start: S, trace: seq<Event>, p: Stage<S, Y>, u: seq<Event>)
    requires p.inp == Chan([], false) && p.raw == Chan([], false) && p.out == Chan([], false)
    requires p.place.Idle? && p.state == start && u == trace
    ensures OnTrack(b, start, trace, p, u, [], [])
  {
    assert [] + u == u;
    assert Outs(b, start, trace) + [] == Outs(b, start, trace);
  }

  /** The bookkeeping of one step, channel by channel. */
  lemma StepCounts<S, Y>(b: Behaviour<S, Y>, p: Stage<S, Y>, rawCap: nat, outCap: nat, act: Act<Y>)
    requires Can(b, p, rawCap, outCap, act)
    ensures var q := Do(b, p, rawCap, outCap, act);
      && p.raw.buf + Held(p.place) + p.inp.buf == q.raw.buf + Held(q.place) + q.inp.buf
      && (act.Receive? ==>
            |q.inp.buf| == |p.inp.buf| - 1 && q.raw == p.raw && |Held(q.place)| == 1 && Held(p.place) == [])
      && (act.Pass? ==>
            q.inp == p.inp && |q.raw.buf| == |p.raw.buf| + 1 && Held(q.place) == [] && |Held(p.place)| == 1)
      && (!act.Receive? && !act.Pass? ==>
            q.inp == p.inp && q.raw.buf == p.raw.buf && Held(q.place) == Held(p.place) == [])
      && |q.out.buf| == |p.out.buf| + (if act.Send? || act.SendFinal? then 1 else 0)
      && q.inp.closed == p.inp.closed
  {
  }

  lemma OutsCons<S, Y>(b: Behaviour<S, Y>, s: S, e: Event, events: seq<Event>)
    ensures Outs(b, s, [e] + events) == b.out(s, e) + Outs(b, b.next(s, e), events)
    ensures EndState(b, s, [e] + events) == EndState(b, b.next(s, e), events)
  {
    assert ([e] + events)[1..] == events;
  }

  lemma StepOutLeft<S, Y>(b: Behaviour<S, Y>, p: Stage<S, Y>, u: seq<Event>, rawCap: nat, outCap: nat, act: Act<Y>)
    requires Can(b, p, rawCap, outCap, act)
    requires p.inp.closed ==> u == []
    requires p.place.Sending? ==> p.place.pending != []
    ensures var q := Do(b, p, rawCap, outCap, act);
      && LastState(b, q, u) == LastState(b, p, u)
      && (if act.BeginFlush? then OutLeft(b, p, u) == [] && OutLeft(b, q, u) == act.f
          else q.out.buf + OutLeft(b, q, u) == p.out.buf + OutLeft(b, p, u))
  {
    hide Outs;
    hide EndState;
    var q := Do(b, p, rawCap, outCap, act);
    match act
    case Receive =>
      ReceiveOutLeft(b, p, u);
    case Pass =>
      PassOutLeft(b, p, u, rawCap);
    case Send =>
      SendOutLeft(b, p, u, outCap);
    case BeginFlush(f) =>
      assert p.inp.buf + u == [];
      NothingLeft(b, p.state);
    case SendFinal =>
      var all, sent := p.place.all, p.place.sent;
      assert all[sent..] == [all[sent]] + all[sent + 1..];
    case Return =>
  }

  lemma NothingLeft<S, Y>(b: Behaviour<S, Y>, s: S)
    ensures Outs(b, s, []) == [] && EndState(b, s, []) == s
  {
  }

  lemma ReceiveOutLeft<S, Y>(b: Behaviour<S, Y>, p: Stage<S, Y>, u: seq<Event>)
    requires p.place.Idle? && p.inp.buf != []
    ensures var q := Do(b, p, 0, 0, Receive);
      LastState(b, q, u) == LastState(b, p, u) && OutLeft(b, q, u) == OutLeft(b, p, u)
  {
    hide Outs;
    hide EndState;
    var tail := p.inp.buf[1..] + u;
    assert p.inp.buf + u == [p.inp.buf[0]] + tail;
    OutsCons(b, p.state, p.inp.buf[0], tail);
  }

  lemma SendOutLeft<S, Y>(b: Behaviour<S, Y>, p: Stage<S, Y>, u: seq<Event>, outCap: nat)
    requires p.place.Sending? && p.place.pending != [] && |p.out.buf| < outCap
    ensures var q := Do(b, p, 0, outCap, Send);
      && LastState(b, q, u) == LastState(b, p, u)
      && q.out.buf + OutLeft(b, q, u) == p.out.buf + OutLeft(b, p, u)
  {
    hide Outs;
    hide EndState;
    var pending, later := p.place.pending, Outs(b, p.state, p.inp.buf + u);
    SplitFirst(pending, later);
    assert [] + later == later;
    assert p.out.buf + [pending[0]] + (pending[1..] + later) == p.out.buf + ([pending[0]] + (pending[1..] + later));
  }

  lemma SplitFirst<Y>(xs: seq<Y>, ys: seq<Y>)
    requires xs != []
    ensures xs + ys == [xs[0]] + (xs[1..] + ys)
  {
  }

  lemma PassOutLeft<S, Y>(b: Behaviour<S, Y>, p: Stage<S, Y>, u: seq<Event>, rawCap: nat)
    requires p.place.Passing? && |p.raw.buf| < rawCap
    ensures var q := Do(b, p, rawCap, 0, Pass);
      LastState(b, q, u) == LastState(b, p, u) && OutLeft(b, q, u) == OutLeft(b, p, u)
  {
    hide Outs;
    hide EndState;
    var later := Outs(b, b.next(p.state, p.place.ev), p.inp.buf + u);
    assert [] + later == later;
  }

  lemma RawMoves<S, Y>(p: Stage<S, Y>, q: Stage<S, Y>, u: seq<Event>)
    requires p.raw.buf + Held(p.place) + p.inp.buf == q.raw.buf + Held(q.place) + q.inp.buf
    ensures p.raw.buf + RawLeft(p, u) == q.raw.buf + RawLeft(q, u)
  {
    hide Held;
    assert p.raw.buf + RawLeft(p, u) == (p.raw.buf + Held(p.place) + p.inp.buf) + u;
    assert q.raw.buf + RawLeft(q, u) == (q.raw.buf + Held(q.place) + q.inp.buf) + u;
  }

  lemma OutMoves<S, Y>(b: Behaviour<S, Y>, p: Stage<S, Y>, q: Stage<S, Y>, u: seq<Event>, gotOut: seq<Y>, act: Act<Y>)
    requires if act.BeginFlush? then OutLeft(b, p, u) == [] && OutLeft(b, q, u) == act.f && q.out == p.out
             else q.out.buf + OutLeft(b, q, u) == p.out.buf + OutLeft(b, p, u)
    ensures gotOut + q.out.buf + OutLeft(b, q, u) ==
      gotOut + p.out.buf + OutLeft(b, p, u) + if act.BeginFlush? then act.f else []
  {
    hide OutLeft;
    Associative(gotOut, q.out.buf, OutLeft(b, q, u));
    Associative(gotOut, p.out.buf, OutLeft(b, p, u));
  }

  lemma StepPassesOn<S, Y>(
      b: Behaviour<S, Y>, trace: seq<Event>, p: Stage<S, Y>, u: seq<Event>, gotRaw: seq<Event>,
      rawCap: nat, outCap: nat, act: Act<Y>)
    requires PassesOn(trace, p, u, gotRaw) && Can(b, p, rawCap, outCap, act)
    ensures PassesOn(trace, Do(b, p, rawCap, outCap, act), u, gotRaw)
  {
    hide Can;
    hide Do;
    hide RawLeft;
    hide Held;
    var q := Do(b, p, rawCap, outCap, act);
    StepCounts(b, p, rawCap, outCap, act);
    RawMoves(p, q, u);
    Associative(gotRaw, p.raw.buf, RawLeft(p, u));
    Associative(gotRaw, q.raw.buf, RawLeft(q, u));
  }

  lemma StepChooses<S, Y>(b: Behaviour<S, Y>, p: Stage<S, Y>, rawCap: nat, outCap: nat, act: Act<Y>)
    requires Can(b, p, rawCap, outCap, act)
    ensures var q := Do(b, p, rawCap, outCap, act);
      && Chosen(q.place) == Chosen(p.place) + (if act.BeginFlush? then act.f else [])
      && (act.BeginFlush? ==> q.out == p.out)
  {
    hide Outs;
  }

  lemma StepSendsOut<S, Y>(
      b: Behaviour<S, Y>, start: S, trace: seq<Event>, p: Stage<S, Y>, u: seq<Event>, gotOut: seq<Y>,
      rawCap: nat, outCap: nat, act: Act<Y>)
    requires SendsOut(b, start, trace, p, u, gotOut) && InPlace(b, p, u) && Can(b, p, rawCap, outCap, act)
    ensures SendsOut(b, start, trace, Do(b, p, rawCap, outCap, act), u, gotOut)
  {
    hide Can;
    hide Do;
    hide OutLeft;
    hide LastState;
    hide Outs;
    hide EndState;
    hide Chosen;
    var q := Do(b, p, rawCap, outCap, act);
    StepOutLeft(b, p, u, rawCap, outCap, act);
    StepChooses(b, p, rawCap, outCap, act);
    OutMoves(b, p, q, u, gotOut, act);
    Associative(Outs(b, start, trace), Chosen(p.place), if act.BeginFlush? then act.f else []);
  }

  lemma {:induction false} OutsAppend<S, Y>(b: Behaviour<S, Y>, s: S, xs: seq<Event>, ys: seq<Event>)
    ensures Outs(b, s, xs + ys) == Outs(b, s, xs) + Outs(b, EndState(b, s, xs), ys)
    ensures EndState(b, s, xs + ys) == EndState(b, EndState(b, s, xs), ys)
    decreases |xs|
  {
    if xs == [] {
      assert xs + ys == ys;
    } else {
      var next := b.next(s, xs[0]);
      OutsAppend(b, next, xs[1..], ys);
      assert (xs + ys)[1..] == xs[1..] + ys;
      Associative(b.out(s, xs[0]), Outs(b, next, xs[1..]), Outs(b, EndState(b, next, xs[1..]), ys));
    }
  }

  lemma StepStateOfPassed<S, Y>(
      b: Behaviour<S, Y>, start: S, p: Stage<S, Y>, gotRaw: seq<Event>, rawCap: nat, outCap: nat, act: Act<Y>)
    requires StateOfPassed(b, start, p, gotRaw) && Can(b, p, rawCap, outCap, act)
    ensures StateOfPassed(b, start, Do(b, p, rawCap, outCap, act), gotRaw)
  {
    hide Outs;
    hide EndState;
    if act.Pass? {
      var e := p.place.ev;
      OutsAppend(b, start, gotRaw + p.raw.buf, [e]);
      OutsCons(b, p.state, e, []);
      NothingLeft(b, b.next(p.state, e));
      assert [e] + [] == [e];
      Associative(gotRaw, p.raw.buf, [e]);
    }
  }

  lemma StepInPlace<S, Y>(
      b: Behaviour<S, Y>, p: Stage<S, Y>, u: seq<Event>, rawCap: nat, outCap: nat, act: Act<Y>)
    requires InPlace(b, p, u) && Can(b, p, rawCap, outCap, act)
    ensures InPlace(b, Do(b, p, rawCap, outCap, act), u)
  {
  }

  /** Every step keeps a stage on track. */
  lemma StepOnTrack<S, Y>(
      b: Behaviour<S, Y>, start: S, trace: seq<Event>,
      p: Stage<S, Y>, u: seq<Event>, gotRaw: seq<Event>, gotOut: seq<Y>,
      rawCap: nat, outCap: nat, act: Act<Y>)
    requires OnTrack(b, start, trace, p, u, gotRaw, gotOut)
    requires Can(b, p, rawCap, outCap, act)
    ensures OnTrack(b, start, trace, Do(b, p, rawCap, outCap, act), u, gotRaw, gotOut)
  {
    hide Can;
    hide Do;
    hide PassesOn;
    hide SendsOut;
    hide StateOfPassed;
    hide InPlace;
    StepPassesOn(b, trace, p, u, gotRaw, rawCap, outCap, act);
    StepSendsOut(b, start, trace, p, u, gotOut, rawCap, outCap, act);
    StepStateOfPassed(b, start, p, gotRaw, rawCap, outCap, act);
    StepInPlace(b, p, u, rawCap, outCap, act);
  }

  /** Moving events from upstream into the input channel does not matter to a stage. */
  lemma RefillOnTrack<S, Y>(
      b: Behaviour<S, Y>, start: S, trace: seq<Event>,
      p: Stage<S, Y>, u: seq<Event>, gotRaw: seq<Event>, gotOut: seq<Y>, inp: Chan<Event>, v: seq<Event>)
    requires OnTrack(b, start, trace, p, u, gotRaw, gotOut)
    requires inp.buf + v == p.inp.buf + u
    requires inp.closed ==> v == []
    ensures OnTrack(b, start, trace, p.(inp := inp), v, gotRaw, gotOut)
  {
    hide Outs;
    hide EndState;
    assert p.inp.buf + u == [] ==> inp.buf == [] && v == [];
  }

  /** Neither does a receiver taking items from its channels. */
  lemma DrainOnTrack<S, Y>(
      b: Behaviour<S, Y>, start: S, trace: seq<Event>,
      p: Stage<S, Y>, u: seq<Event>, gotRaw: seq<Event>, gotOut: seq<Y>,
      q: Stage<S, Y>, gotRaw': seq<Event>, gotOut': seq<Y>)
    requires OnTrack(b, start, trace, p, u, gotRaw, gotOut)
    requires q == p.(raw := p.raw.(buf := q.raw.buf), out := p.out.(buf := q.out.buf))
    requires gotRaw' + q.raw.buf == gotRaw + p.raw.buf && gotOut' + q.out.buf == gotOut + p.out.buf
    ensures OnTrack(b, start, trace, q, u, gotRaw', gotOut')
  {
    hide Outs;
    hide EndState;
  }

  /** The outputs of a stage that has returned, once its channels are drained. */
  lemma ReturnedOutputs<S, Y>(
      b: Behaviour<S, Y>, start: S, trace: seq<Event>,
      p: Stage<S, Y>, u: seq<Event>, gotRaw: seq<Event>, gotOut: seq<Y>)
    requires OnTrack(b, start, trace, p, u, gotRaw, gotOut)
    requires p.place.Returned? && p.out.buf == []
    ensures b.flush(EndState(b, start, trace), p.place.all)
    ensures gotOut == Outs(b, start, trace) + p.place.all
    ensures gotRaw + p.raw.buf == trace
  {
    assert p.inp.buf + u == [];
    assert gotOut + [] + [] == gotOut;
    assert gotRaw + p.raw.buf + [] == gotRaw + p.raw.buf;
  }

  /** A stage held up while passing on an event has sent exactly what it derives from the events it
      passed on before. */
  lemma HeldUpOutputs<S, Y>(
      b: Behaviour<S, Y>, start: S, trace: seq<Event>,
      p: Stage<S, Y>, u: seq<Event>, gotRaw: seq<Event>, gotOut: seq<Y>)
    requires OnTrack(b, start, trace, p, u, gotRaw, gotOut) && p.place.Passing? && p.out.buf == []
    ensures gotOut == Outs(b, start, gotRaw + p.raw.buf)
  {
    hide Outs;
    hide EndState;
    var passed, later := gotRaw + p.raw.buf, p.inp.buf + u;
    var left := Outs(b, p.state, [p.place.ev] + later);
    OutsCons(b, p.state, p.place.ev, later);
    OutsAppend(b, start, passed, [p.place.ev] + later);
    assert trace == passed + ([p.place.ev] + later);
    assert gotOut + [] + left == Outs(b, start, passed) + left + [];
    SameFront(gotOut, Outs(b, start, passed), left);
  }

  lemma SameFront<T>(xs: seq<T>, ys: seq<T>, tail: seq<T>)
    requires xs + [] + tail == ys + tail + []
    ensures xs == ys
  {
    assert |xs| == |ys|;
    assert xs == (xs + [] + tail)[..|xs|] && ys == (ys + tail + [])[..|ys|];
  }

  // ---- progress ----

  /** The number of steps a stage still has to take on its two output sides, where final items not
      yet chosen count at their bound. */
  function WorkLeft<S, Y>(b: Behaviour<S, Y>, p: Stage<S, Y>, u: seq<Event>): nat {
    2 * |OutLeft(b, p, u)| + |p.out.buf|
    + (if p.place.Returned? then 0 else if p.place.Flushing? then 1 else 2 + 2 * b.bound(LastState(b, p, u)))
  }

  lemma StepWorkLeft<S(!new), Y(!new)>(
      b: Behaviour<S, Y>, p: Stage<S, Y>, u: seq<Event>, rawCap: nat, outCap: nat, act: Act<Y>)
    requires WellBehaved(b) && Can(b, p, rawCap, outCap, act)
    requires p.inp.closed ==> u == []
    requires p.place.Sending? ==> p.place.pending != []
    ensures var q := Do(b, p, rawCap, outCap, act);
      WorkLeft(b, q, u) + (if act.Receive? || act.Pass? then 0 else 1) <= WorkLeft(b, p, u)
  {
    StepCounts(b, p, rawCap, outCap, act);
    StepOutLeft(b, p, u, rawCap, outCap, act);
    var q := Do(b, p, rawCap, outCap, act);
    hide OutLeft;
    if act.BeginFlush? {
      assert p.inp.buf + u == [];
      assert LastState(b, p, u) == p.state;
    } else {
      hide LastState;
      assert |q.out.buf + OutLeft(b, q, u)| == |p.out.buf + OutLeft(b, p, u)|;
    }
  }

  lemma ClosedMeansDrained<S, Y>(
      b: Behaviour<S, Y>, start: S, trace: seq<Event>,
      p: Stage<S, Y>, u: seq<Event>, gotRaw: seq<Event>, gotOut: seq<Y>)
    requires OnTrack(b, start, trace, p, u, gotRaw, gotOut)
    ensures p.inp.closed ==> u == []
    ensures p.place.Sending? ==> p.place.pending != []
  {
    hide Outs;
    hide EndState;
  }

  lemma WorkIgnoresRefill<S, Y>(b: Behaviour<S, Y>, p: Stage<S, Y>, u: seq<Event>, inp: Chan<Event>, v: seq<Event>)
    requires inp.buf + v == p.inp.buf + u
    ensures WorkLeft(b, p.(inp := inp), v) == WorkLeft(b, p, u)
  {
    hide Outs;
    hide EndState;
  }

  lemma WorkIgnoresRaw<S, Y>(b: Behaviour<S, Y>, p: Stage<S, Y>, u: seq<Event>, raw: Chan<Event>)
    ensures WorkLeft(b, p.(raw := raw), u) == WorkLeft(b, p, u)
  {
    hide Outs;
    hide EndState;
  }

  lemma TakingOutWorks<S, Y>(b: Behaviour<S, Y>, p: Stage<S, Y>, u: seq<Event>)
    requires p.out.buf != []
    ensures WorkLeft(b, p.(out := p.out.(buf := p.out.buf[1..])), u) == WorkLeft(b, p, u) - 1
  {
    hide Outs;
    hide EndState;
  }

  /** The step a stage can take when nothing in its surroundings holds it up. */
  ghost function NextAct<S(!new), Y(!new)>(b: Behaviour<S, Y>, p: Stage<S, Y>): Act<Y>
    requires WellBehaved(b)
  {
    match p.place
    case Idle => (
      if p.inp.buf != [] then Receive
      else
        assert CanFlush(b, p.state);
        var f :| b.flush(p.state, f); BeginFlush(f))
    case Passing(_) => Pass
    case Sending(_) => Send
    case Flushing(all, sent) => if sent < |all| then SendFinal else Return
    case Returned(_) => Return
  }

  /** A stage that has not returned is held up only by a full channel or by an input that is empty
      and still open. */
  lemma OnlyHeldUp<S(!new), Y(!new)>(
      b: Behaviour<S, Y>, start: S, trace: seq<Event>,
      p: Stage<S, Y>, u: seq<Event>, gotRaw: seq<Event>, gotOut: seq<Y>, rawCap: nat, outCap: nat)
    requires WellBehaved(b) && OnTrack(b, start, trace, p, u, gotRaw, gotOut)
    requires !p.place.Returned? && (p.place.Passing? ==> |p.raw.buf| < rawCap) && |p.out.buf| < outCap
    requires p.inp.buf != [] || p.inp.closed || !p.place.Idle?
    ensures Can(b, p, rawCap, outCap, NextAct(b, p))
  {
    hide Outs;
    hide EndState;
  }
}
