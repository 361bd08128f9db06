/** The two commands' pipelines, with the real correlator and the real streamer in them. */
module Pipelines {
  import opened Events
  import opened Exchanges
  import opened Streamer
  import opened Stages
  import opened Instances
  import TracePipeline
  import RecordPipeline

  type TraceSystem = TracePipeline.System<Correlator.State, Correlator.Connection, map<Key, Bufs>, Exchange>
  type TraceMove = TracePipeline.Move<Correlator.Connection, Exchange>
  type RecordSystem = RecordPipeline.System<map<Key, Bufs>, Exchange>
  type RecordMove = RecordPipeline.Move<Exchange>

  /** Tracing, under any schedule: never stuck, bounded, and in the end the receivers hold the whole
      trace, the snapshots of the correlator's sequential run, and the exchanges of the streamer's
      sequential run for some order of its flush. */
  lemma TracingDeliversEverything(
      env: Correlator.Surroundings, sniff: Sniffer, trace: seq<Event>, moves: seq<TraceMove>)
    requires TracePipeline.Valid(
      Correlating(env), Streaming(sniff), TracePipeline.Start(trace, Correlator.START, map[]), moves)
    ensures var a, b := Correlating(env), Streaming(sniff);
      var start: TraceSystem := TracePipeline.Start(trace, Correlator.START, map[]);
      var end := TracePipeline.After(a, b, start, moves);
      && |moves| <= TracePipeline.MovesLeft(a, b, start)
      && (!TracePipeline.Finished(end) ==> exists m: TraceMove :: TracePipeline.Enabled(a, b, end, m))
      && (TracePipeline.Finished(end) ==>
            && end.gotRaw == trace
            && end.gotFirst == Correlator.Snapshots(env, Correlator.START, trace)
            && exists order ::
                 VisitsOnce(order, BufsAfter(map[], trace).Keys) && end.gotSecond == ExchangesOf(sniff, trace, order))
  {
    var a, b := Correlating(env), Streaming(sniff);
    CorrelatingIsWellBehaved(env);
    StreamingIsWellBehaved(sniff);
    TracePipeline.EveryScheduleCompletes(a, b, Correlator.START, map[], trace, moves);
    CorrelatingOuts(env, Correlator.START, trace);
    StreamingOuts(sniff, map[], trace);
  }

  /** Recording: the flush, through which pooled and TLS connections are decoded at all, can be
      reached if and only if the trace has no more events than the raw channel holds. */
  lemma RecordingEndsExactly(sniff: Sniffer, trace: seq<Event>)
    ensures RecordPipeline.CanEnd(Streaming(sniff), map[], trace) <==> |trace| <= RAW_CAP
  {
    StreamingIsWellBehaved(sniff);
    RecordPipeline.EndsExactlyWhenTraceFits(Streaming(sniff), map[], trace);
  }

  /** On a longer trace, under any schedule, the recording stops for good before the flush; where it
      does, the receiver holds the exchanges of the closes among the first events, and no other. */
  lemma LongRecordingHangs(sniff: Sniffer, trace: seq<Event>, moves: seq<RecordMove>)
    requires |trace| > RAW_CAP
    requires RecordPipeline.Valid(Streaming(sniff), RecordPipeline.Start(trace, map[]), moves)
    ensures var b := Streaming(sniff);
      var start: RecordSystem := RecordPipeline.Start(trace, map[]);
      var end := RecordPipeline.After(b, start, moves);
      && |moves| <= RecordPipeline.MovesLeft(b, start)
      && !Ended(end.stage.place)
      && ((forall m: RecordMove :: !RecordPipeline.Enabled(b, end, m)) ==>
            end.got == DecodeAll(sniff, ClosedSegments(map[], trace[..RAW_CAP])))
  {
    StreamingIsWellBehaved(sniff);
    RecordPipeline.LongTraceHangs(Streaming(sniff), map[], trace, moves);
    StreamingOuts(sniff, map[], trace[..RAW_CAP]);
  }

  /** A short enough recording finishes under any schedule, with the exchanges of the streamer's
      sequential run. */
  lemma ShortRecordingDeliversExchanges(sniff: Sniffer, trace: seq<Event>, moves: seq<RecordMove>)
    requires |trace| <= RAW_CAP
    requires RecordPipeline.Valid(Streaming(sniff), RecordPipeline.Start(trace, map[]), moves)
    ensures var b := Streaming(sniff);
      var start: RecordSystem := RecordPipeline.Start(trace, map[]);
      var end := RecordPipeline.After(b, start, moves);
      && |moves| <= RecordPipeline.MovesLeft(b, start)
      && (!RecordPipeline.Finished(end) ==> exists m: RecordMove :: RecordPipeline.Enabled(b, end, m))
      && (RecordPipeline.Finished(end) ==>
            exists order ::
              VisitsOnce(order, BufsAfter(map[], trace).Keys) && end.got == ExchangesOf(sniff, trace, order))
  {
    StreamingIsWellBehaved(sniff);
    RecordPipeline.ShortTraceCompletes(Streaming(sniff), map[], trace, moves);
    StreamingOuts(sniff, map[], trace);
  }
}
