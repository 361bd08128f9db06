/** The correlator and the streamer as stages. */
module Instances {
  import opened Sequences
  import opened Events
  import opened Exchanges
  import opened Streamer
  import opened Stages
  import Correlator

  /** The correlator sends a snapshot per change and nothing at the end. */
  ghost function Correlating(env: Correlator.Surroundings): Behaviour<Correlator.State, Correlator.Connection> {
    Behaviour(
      (st: Correlator.State, e: Event) => Correlator.StateStep(env, st, e),
      (st: Correlator.State, e: Event) => Correlator.SnapshotsStep(env, st, e),
      (st: Correlator.State, f: seq<Correlator.Connection>) => f == [],
      (st: Correlator.State) => 0)
  }

  /** `f` is what the flush sends for some order of visiting the buffers. */
  ghost predicate IsFlush(sniff: Sniffer, bufs: map<Key, Bufs>, f: seq<Exchange>) {
    exists order :: VisitsOnce(order, bufs.Keys) && f == DecodeAll(sniff, FlushedSegments(bufs, order))
  }

  /** The streamer sends an exchange per recognised close, and flushes its buffers at the end. */
  ghost function Streaming(sniff: Sniffer): Behaviour<map<Key, Bufs>, Exchange> {
    Behaviour(
      (bufs: map<Key, Bufs>, e: Event) => BufsStep(bufs, e),
      (bufs: map<Key, Bufs>, e: Event) => DecodeAll(sniff, SegmentsStep(bufs, e)),
      (bufs: map<Key, Bufs>, f: seq<Exchange>) => IsFlush(sniff, bufs, f),
      (bufs: map<Key, Bufs>) => |bufs|)
  }

  lemma CorrelatingIsWellBehaved(env: Correlator.Surroundings)
    ensures WellBehaved(Correlating(env))
  {
    var b := Correlating(env);
    forall s: Correlator.State ensures CanFlush(b, s) {
      assert b.flush(s, []);
    }
  }

  lemma {:induction false} CorrelatingOuts(env: Correlator.Surroundings, st: Correlator.State, events: seq<Event>)
    ensures Outs(Correlating(env), st, events) == Correlator.Snapshots(env, st, events)
    ensures EndState(Correlating(env), st, events) == Correlator.StateAfter(env, st, events)
    decreases |events|
  {
    hide Correlator.StateStep;
    hide Correlator.SnapshotsStep;
    if events != [] {
      CorrelatingOuts(env, Correlator.StateStep(env, st, events[0]), events[1..]);
    }
  }

  lemma {:induction false} StreamingOuts(sniff: Sniffer, bufs: map<Key, Bufs>, events: seq<Event>)
    ensures Outs(Streaming(sniff), bufs, events) == DecodeAll(sniff, ClosedSegments(bufs, events))
    ensures EndState(Streaming(sniff), bufs, events) == BufsAfter(bufs, events)
    decreases |events|
  {
    hide BufsStep;
    hide SegmentsStep;
    if events != [] {
      StreamingOuts(sniff, BufsStep(bufs, events[0]), events[1..]);
      TraceStep(sniff, bufs, events);
      hide ClosedSegments;
      hide DecodeAll;
    } else {
      NoSegments(sniff, bufs);
    }
  }

  lemma {:induction false} SomeOrder(keys: set<Key>) returns (order: seq<Key>)
    ensures VisitsOnce(order, keys)
    decreases keys
  {
    if keys == {} {
      order := [];
    } else {
      var k :| k in keys;
      var rest := SomeOrder(keys - {k});
      order := rest + [k];
      assert multiset(keys) == multiset(keys - {k}) + multiset{k};
    }
  }

  lemma {:induction false} FlatMapAtMostOne<T, U>(f: T -> seq<U>, xs: seq<T>)
    requires forall x :: x in xs ==> |f(x)| <= 1
    ensures |FlatMap(f, xs)| <= |xs|
  {
    if xs != [] {
      assert xs[0] in xs;
      FlatMapAtMostOne(f, xs[1..]);
    }
  }

  /** A flush never sends more exchanges than there are buffers. */
  lemma FlushIsBounded(sniff: Sniffer, bufs: map<Key, Bufs>, f: seq<Exchange>)
    requires IsFlush(sniff, bufs, f)
    ensures |f| <= |bufs|
  {
    var order :| VisitsOnce(order, bufs.Keys) && f == DecodeAll(sniff, FlushedSegments(bufs, order));
    FlatMapAtMostOne(Flusher(bufs), order);
    FlatMapAtMostOne(Decoder(sniff), FlushedSegments(bufs, order));
    assert |order| == |multiset(order)|;
    assert |multiset(bufs.Keys)| == |bufs.Keys|;
  }

  lemma StreamingIsWellBehaved(sniff: Sniffer)
    ensures WellBehaved(Streaming(sniff))
  {
    var b := Streaming(sniff);
    forall bufs: map<Key, Bufs>, f: seq<Exchange> | b.flush(bufs, f) ensures |f| <= b.bound(bufs) {
      FlushIsBounded(sniff, bufs, f);
    }
    forall bufs: map<Key, Bufs> ensures CanFlush(b, bufs) {
      var order := SomeOrder(bufs.Keys);
      assert b.flush(bufs, DecodeAll(sniff, FlushedSegments(bufs, order)));
    }
  }
}
