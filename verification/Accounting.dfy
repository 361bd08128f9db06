/** What was captured against what was counted: the streamer's buffers and the correlator's
    counters run over the same trace. */
module Accounting {
  import opened Events
  import opened Kernel
  import opened Streamer
  import opened StreamerLaws
  import Correlator
  import CorrelatorLaws

  /** The streamer's name for a descriptor the correlator tracks. */
  function StreamKey(k: Correlator.ConnKey): Key {
    Key(k.pid, ConnFD, ToUint32(k.fd))
  }

  /** Every connect on a descriptor finds it without unclosed traffic. */
  predicate QuietConnects(events: seq<Event>, k: Correlator.ConnKey) {
    forall i :: 0 <= i < |events| && CorrelatorLaws.IsConnect(events[i]) && Correlator.ConnKeyOf(events[i]) == k ==>
      StreamKey(k) !in BufsAfter(map[], events[..i])
  }

  predicate AllWithinCapture(events: seq<Event>) {
    forall i :: 0 <= i < |events| ==> WithinCapture(events[i])
  }

  /** No more bytes buffered than counted, and exactly the first of them if none was cut. */
  predicate Accounted(b: Bufs, c: Correlator.Connection) {
    && |b.read| <= c.bytesIn
    && |b.write| <= c.bytesOut
    && (!b.truncated ==> |b.read| == Min(BUF_CAP, c.bytesIn) && |b.write| == Min(BUF_CAP, c.bytesOut))
  }

  lemma AbsorbAccounted(env: Correlator.Surroundings, b: Bufs, c: Correlator.Connection, e: Event)
    requires Accounted(b, c) && WithinCapture(e) && (e.op == OP_READ || e.op == OP_WRITE)
    ensures Accounted(Absorb(b, e), Correlator.Advance(env, c, e))
  {
  }

  /** One event keeps one tracked descriptor accounted for. */
  lemma StepAccounted(
      env: Correlator.Surroundings, st: Correlator.State, bufs: map<Key, Bufs>, e: Event, k: Correlator.ConnKey)
    requires WithinCapture(e)
    requires k in st.tracked ==> Accounted(BufsAt(bufs, StreamKey(k)), st.tracked[k])
    requires CorrelatorLaws.IsConnect(e) && Correlator.ConnKeyOf(e) == k ==> StreamKey(k) !in bufs
    ensures var after := Correlator.StateStep(env, st, e);
      k in after.tracked ==> Accounted(BufsAt(BufsStep(bufs, e), StreamKey(k)), after.tracked[k])
  {
    hide Absorb;
    BufsStepAt(bufs, e, StreamKey(k));
    WideningIsInjective(e.fd, k.fd);
    if Correlator.ConnKeyOf(e) == k && k in st.tracked && (e.op == OP_READ || e.op == OP_WRITE) {
      AbsorbAccounted(env, BufsAt(bufs, StreamKey(k)), st.tracked[k], e);
    }
  }

  lemma {:induction false} StateAfterAppend(
      env: Correlator.Surroundings, st: Correlator.State, xs: seq<Event>, e: Event)
    ensures Correlator.StateAfter(env, st, xs + [e]) == Correlator.StateStep(env, Correlator.StateAfter(env, st, xs), e)
    decreases |xs|
  {
    hide Correlator.StateStep;
    if xs == [] {
      assert [e][1..] == [];
    } else {
      StateAfterAppend(env, Correlator.StateStep(env, st, xs[0]), xs[1..], e);
      assert (xs + [e])[1..] == xs[1..] + [e];
    }
  }

  /** After any trace of captured events, a tracked connection whose descriptor was connected
      quietly has at most as many bytes buffered in each direction as were counted, and, if none of
      its events was cut short, exactly as many up to the buffer cap. */
  lemma {:induction false} BufferedAgainstCounted(
      env: Correlator.Surroundings, events: seq<Event>, k: Correlator.ConnKey)
    requires AllWithinCapture(events) && QuietConnects(events, k)
    ensures var st := Correlator.StateAfter(env, Correlator.START, events);
      k in st.tracked ==> Accounted(BufsAt(BufsAfter(map[], events), StreamKey(k)), st.tracked[k])
    decreases |events|
  {
    if events != [] {
      var before, e := events[..|events| - 1], events[|events| - 1];
      assert QuietConnects(before, k) by {
        assert forall i :: 0 <= i < |before| ==> before[..i] == events[..i] && before[i] == events[i];
      }
      BufferedAgainstCounted(env, before, k);
      assert events == before + [e];
      StateAfterAppend(env, Correlator.START, before, e);
      AfterSnoc(events);
      StepAccounted(env, Correlator.StateAfter(env, Correlator.START, before), BufsAfter(map[], before), e, k);
    }
  }
}
