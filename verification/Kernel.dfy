/** The capture programs in the kernel: how much of a payload an event carries, and the stash
    that carries a read's arguments from its entry to its exit. */
module Kernel {
  import opened Bytes
  import opened Events

  // ---- filling one event ----

  /** What a program sees of its surroundings: the current thread, the traced process, the clock,
      and the ring slot it may reserve, which still holds an earlier record. */
  datatype Context = Context(pidTgid: uint64, targetPid: uint32, now: uint64, slot: Option<Event>)

  predicate PidMatches(ctx: Context) {
    ctx.targetPid != 0 && ctx.pidTgid / TWO_32 == ctx.targetPid
  }

  /** How the kernel packs the current process and thread into one word. */
  function Packed(pid: uint32, tid: uint32): uint64 {
    pid * TWO_32 + tid
  }

  /** The current thread is any thread of the traced process. */
  ghost predicate Traced(ctx: Context) {
    ctx.targetPid != 0 && exists tid: uint32 :: ctx.pidTgid == Packed(ctx.targetPid, tid)
  }

  lemma PidMatchesExactly(ctx: Context)
    ensures PidMatches(ctx) <==> Traced(ctx)
    ensures PidMatches(ctx) ==> ctx.pidTgid == Packed(ctx.targetPid, ctx.pidTgid % TWO_32)
  {
    var pid, tid := ctx.pidTgid / TWO_32, ctx.pidTgid % TWO_32;
    assert ctx.pidTgid == Packed(pid, tid);
    if Traced(ctx) {
      var other: uint32 :| ctx.pidTgid == Packed(ctx.targetPid, other);
      assert ctx.targetPid == pid;
    }
  }

  /** `fill_common`: every field except the data array is overwritten. */
  function FillCommon(slot: Event, ctx: Context, op: uint32): (e: Event)
    ensures Payload(e) == []
  {
    slot.(pid := ctx.pidTgid / TWO_32, tid := ctx.pidTgid % TWO_32, timestamp := ctx.now,
          fd := 0, op := op, ret := 0, sslPtr := 0, remoteAddr := 0, remotePort := 0,
          totalLen := 0, dataLen := 0)
  }

  function Min(a: int, b: int): int {
    if a <= b then a else b
  }

  /** The capture length: clamped, then masked so that the kernel's verifier sees the bound. */
  method CaptureLen(total: uint32) returns (len: uint32)
    ensures len == Min(total, DATA_CAP - 1)
  {
    len := total;
    if len > DATA_CAP - 1 {
      len := DATA_CAP - 1;
    }
    len := len % DATA_CAP;
  }

  /** Masking with one less than the capacity is the remainder used above. */
  lemma MaskIsRemainder(len: bv32)
    ensures len & 0xFFF == len % 0x1000
  {
  }

  /** Clamping to the capacity itself would have turned a full buffer into an empty one. */
  lemma ClampingToCapacityLosesData(len: bv32)
    requires len >= 0x1000
    ensures (if len > 0x1000 then 0x1000 else len) & 0xFFF == 0
    ensures (if len > 0xFFF then 0xFFF else len) & 0xFFF == 0xFFF
  {
  }

  /** The bytes `want` long at the front of readable memory, as the event's payload; an unreadable
      address leaves the payload empty. */
  predicate Carries(e: Event, mem: bytes, total: uint32) {
    var len := Min(total, DATA_CAP - 1);
    && e.totalLen == total
    && Payload(e) == if len <= |mem| then mem[..len] else []
  }

  /** What the Go side relies on. */
  predicate WithinCapture(e: Event) {
    e.dataLen <= e.totalLen && e.dataLen < DATA_CAP
  }

  /** The tail shared by all four data-carrying programs; `mem` is what can be read from the
      user's buffer address on. */
  method CopyPayload(e: Event, mem: bytes, total: uint32) returns (out: Event)
    requires e.dataLen == 0
    ensures Carries(out, mem, total) && WithinCapture(out)
    ensures out == e.(totalLen := total, dataLen := out.dataLen, data := out.data)
  {
    out := e.(totalLen := total);
    var len := CaptureLen(total);
    if len <= |mem| {
      out := out.(dataLen := len, data := mem[..len] + e.data[len..]);
    }
  }

  /** The event a data-carrying program submits: its identity, and the payload it carries. */
  predicate Reports(e: Event, ctx: Context, op: uint32, fd: int32, ssl: uint64, ret: int32, mem: bytes, total: uint32) {
    && e.op == op && e.fd == fd && e.sslPtr == ssl && e.ret == ret
    && e.pid == ctx.targetPid && ctx.pidTgid == Packed(e.pid, e.tid) && e.timestamp == ctx.now
    && e.remoteAddr == 0 && e.remotePort == 0
    && Carries(e, mem, total)
    && WithinCapture(e)
  }

  method Submit(ctx: Context, op: uint32, fd: int32, ssl: uint64, ret: int32, mem: bytes, total: uint32)
    returns (ev: Option<Event>)
    requires Traced(ctx)
    ensures ev.Some? <==> ctx.slot.Some?
    ensures ev.Some? ==> Reports(ev.value, ctx, op, fd, ssl, ret, mem, total)
  {
    PidMatchesExactly(ctx);
    if ctx.slot.None? {
      return None;
    }
    var e: Event := FillCommon(ctx.slot.value, ctx, op).(fd := fd, sslPtr := ssl, ret := ret);
    var out := CopyPayload(e, mem, total);
    return Some(out);
  }

  method TraceEnterWrite(ctx: Context, fd: uint64, count: uint64, mem: bytes) returns (ev: Option<Event>)
    ensures ev.Some? <==> Traced(ctx) && ctx.slot.Some?
    ensures ev.Some? ==> Reports(ev.value, ctx, OP_WRITE, ToInt32(fd), 0, 0, mem, ToUint32(count))
  {
    PidMatchesExactly(ctx);
    if !PidMatches(ctx) {
      return None;
    }
    ev := Submit(ctx, OP_WRITE, ToInt32(fd), 0, 0, mem, ToUint32(count));
  }

  method TraceSslWrite(ctx: Context, ssl: uint64, num: int32, mem: bytes) returns (ev: Option<Event>)
    ensures ev.Some? <==> Traced(ctx) && ctx.slot.Some?
    ensures ev.Some? ==> Reports(ev.value, ctx, OP_SSL_WRITE, -1, ssl, 0, mem, ToUint32(num))
  {
    PidMatchesExactly(ctx);
    if !PidMatches(ctx) {
      return None;
    }
    ev := Submit(ctx, OP_SSL_WRITE, -1, ssl, 0, mem, ToUint32(num));
  }

  // ---- the stash, over a whole run ----

  /** A probe of a thread that passed the pid check. */
  datatype Probe<A> = Enter(thread: uint64, args: A) | Exit(thread: uint64)

  /** `bpf_map_update_elem` with `BPF_ANY`: fails only for a new key in a full map. */
  function Insert<A>(stash: map<uint64, A>, capacity: nat, thread: uint64, args: A): map<uint64, A> {
    if thread in stash || |stash| < capacity then stash[thread := args] else stash
  }

  function StashStep<A>(stash: map<uint64, A>, capacity: nat, p: Probe<A>): map<uint64, A> {
    match p
    case Enter(thread, args) => Insert(stash, capacity, thread, args)
    case Exit(thread) => stash - {thread}
  }

  /** The stash after a run of probes of any threads in any order. */
  function StashAfter<A>(run: seq<Probe<A>>, capacity: nat): map<uint64, A> {
    if run == [] then map[]
    else StashStep(StashAfter(run[..|run| - 1], capacity), capacity, run[|run| - 1])
  }

  /** Position after the thread's last probe in the run, or 0. */
  function AfterLast<A>(run: seq<Probe<A>>, thread: uint64): (n: nat)
    ensures n <= |run|
  {
    if run == [] || run[|run| - 1].thread == thread then |run|
    else AfterLast(run[..|run| - 1], thread)
  }

  lemma {:induction false} AfterLastIsLast<A>(run: seq<Probe<A>>, thread: uint64)
    ensures var n := AfterLast(run, thread);
      && (n > 0 ==> run[n - 1].thread == thread)
      && forall i :: n <= i < |run| ==> run[i].thread != thread
  {
    if run != [] && run[|run| - 1].thread != thread {
      AfterLastIsLast(run[..|run| - 1], thread);
    }
  }

  /** Whatever the interleaving and however full the stash got, an entry holds the arguments of the
      thread's own last probe, which was an entry; after an exit there is none; and the stash
      never outgrows its capacity. */
  lemma {:induction false} StashHoldsOwnLastEnter<A>(run: seq<Probe<A>>, capacity: nat, thread: uint64)
    ensures var stash := StashAfter(run, capacity);
      && |stash| <= capacity
      && (thread in stash ==>
            var n := AfterLast(run, thread);
            n > 0 && run[n - 1] == Enter(thread, stash[thread]))
  {
    if run != [] {
      var before, p := run[..|run| - 1], run[|run| - 1];
      var stash := StashAfter(before, capacity);
      StashHoldsOwnLastEnter(before, capacity, thread);
      StashSnoc(run, capacity);
      hide StashAfter;
      RemovalSize(stash, p.thread);
      if p.thread == thread {
        assert AfterLast(run, thread) == |run|;
      } else {
        assert AfterLast(run, thread) == AfterLast(before, thread);
        hide AfterLast;
      }
    }
  }

  lemma RemovalSize<A>(m: map<uint64, A>, k: uint64)
    ensures |m - {k}| <= |m|
  {
    assert (m - {k}).Keys == m.Keys - {k};
    assert |m.Keys - {k}| <= |m.Keys|;
  }

  lemma OthersKeepEntry<A>(stash: map<uint64, A>, capacity: nat, p: Probe<A>, thread: uint64)
    requires p.thread != thread
    ensures thread in StashStep(stash, capacity, p) <==> thread in stash
  {
  }

  lemma StashSnoc<A>(run: seq<Probe<A>>, capacity: nat)
    requires run != []
    ensures StashAfter(run, capacity) == StashStep(StashAfter(run[..|run| - 1], capacity), capacity, run[|run| - 1])
  {
  }

  /** Whether the entry stored by the probe before position `n` found room. */
  predicate Stored<A>(run: seq<Probe<A>>, capacity: nat, thread: uint64, n: nat)
    requires n <= |run|
  {
    && n > 0
    && run[n - 1].Enter?
    && var before := StashAfter(run[..n - 1], capacity);
       thread in before || |before| < capacity
  }

  /** A thread has an entry exactly when its last probe was an entry that found room: nothing the
      other threads do takes it away. */
  lemma {:induction false} EntryKeptUntilExit<A>(run: seq<Probe<A>>, capacity: nat, thread: uint64)
    ensures thread in StashAfter(run, capacity) <==> Stored(run, capacity, thread, AfterLast(run, thread))
  {
    if run != [] {
      var before, p := run[..|run| - 1], run[|run| - 1];
      StashSnoc(run, capacity);
      hide StashAfter;
      if p.thread == thread {
        assert AfterLast(run, thread) == |run|;
      } else {
        var n := AfterLast(before, thread);
        assert AfterLast(run, thread) == n;
        EntryKeptUntilExit(before, capacity, thread);
        OthersKeepEntry(StashAfter(before, capacity), capacity, p, thread);
        hide StashStep;
        hide AfterLast;
        StoredEarlier(run, capacity, thread, n);
      }
    }
  }

  lemma StoredEarlier<A>(run: seq<Probe<A>>, capacity: nat, thread: uint64, n: nat)
    requires n < |run|
    ensures Stored(run[..|run| - 1], capacity, thread, n) <==> Stored(run, capacity, thread, n)
  {
    hide StashAfter;
    assert n > 0 ==> run[..|run| - 1][..n - 1] == run[..n - 1];
  }

  lemma StashAfterEnter<A>(run: seq<Probe<A>>, capacity: nat, thread: uint64, args: A)
    ensures StashAfter(run + [Enter(thread, args)], capacity)
         == Insert(StashAfter(run, capacity), capacity, thread, args)
  {
    assert (run + [Enter(thread, args)])[..|run|] == run;
  }

  lemma StashAfterExit<A>(run: seq<Probe<A>>, capacity: nat, thread: uint64)
    ensures StashAfter(run + [Exit(thread)], capacity) == StashAfter(run, capacity) - {thread}
  {
    assert (run + [Exit(thread)])[..|run|] == run;
  }

  // ---- the two read programs ----

  datatype ReadArgs = ReadArgs(buf: uint64, fd: int32)
  datatype SslReadArgs = SslReadArgs(ssl: uint64, buf: uint64)

  const READ_STASH_CAP: nat := 10240
  const SSL_STASH_CAP: nat := 1024

  /** The `read_stash` map with the programs attached to the read system call. */
  class SyscallReads {
    var stash: map<uint64, ReadArgs>
    ghost var run: seq<Probe<ReadArgs>>

    ghost predicate Valid()
      reads this
    {
      stash == StashAfter(run, READ_STASH_CAP)
    }

    constructor ()
      ensures Valid() && run == []
    {
      stash, run := map[], [];
    }

    method TraceEnterRead(ctx: Context, fd: uint64, buf: uint64)
      requires Valid()
      modifies this
      ensures Valid()
      ensures run == if Traced(ctx) then old(run) + [Enter(ctx.pidTgid, ReadArgs(buf, ToInt32(fd)))] else old(run)
      ensures stash ==
        if Traced(ctx) && (ctx.pidTgid in old(stash) || |old(stash)| < 10240)
        then old(stash)[ctx.pidTgid := ReadArgs(buf, ToInt32(fd))] else old(stash)
    {
      hide StashAfter;
      hide PidMatches;
      hide Traced;
      hide ToInt32;
      PidMatchesExactly(ctx);
      if !PidMatches(ctx) {
        return;
      }
      var args := ReadArgs(buf, ToInt32(fd));
      if ctx.pidTgid in stash || |stash| < READ_STASH_CAP {
        stash := stash[ctx.pidTgid := args];
      }
      StashAfterEnter(run, READ_STASH_CAP, ctx.pidTgid, args);
      run := run + [Enter(ctx.pidTgid, args)];
    }

    /** A reported read carries the descriptor of the thread's own immediately preceding entry and
        the bytes at that entry's buffer (`user` gives what is readable at an address). */
    method TraceExitRead(ctx: Context, ret: int, user: uint64 -> bytes) returns (ev: Option<Event>)
      requires Valid()
      modifies this
      ensures Valid() && stash == if Traced(ctx) then old(stash) - {ctx.pidTgid} else old(stash)
      ensures run == if Traced(ctx) then old(run) + [Exit(ctx.pidTgid)] else old(run)
      ensures ev.Some? <==> Traced(ctx) && ctx.pidTgid in old(stash) && ret > 0 && ctx.slot.Some?
      ensures ev.Some? ==>
        var e, n := ev.value, AfterLast(old(run), ctx.pidTgid);
        && n > 0 && old(run)[n - 1].Enter?
        && var args := old(run)[n - 1].args;
        Reports(e, ctx, OP_READ, args.fd, 0, ToInt32(ret), user(args.buf), ToUint32(ret))
    {
      hide StashAfter;
      hide AfterLast;
      hide Reports;
      hide PidMatches;
      hide Traced;
      hide ToInt32;
      hide ToUint32;
      PidMatchesExactly(ctx);
      if !PidMatches(ctx) {
        return None;
      }
      StashHoldsOwnLastEnter(run, READ_STASH_CAP, ctx.pidTgid);
      StashAfterExit(run, READ_STASH_CAP, ctx.pidTgid);
      run := run + [Exit(ctx.pidTgid)];
      if ctx.pidTgid !in stash {
        assert stash - {ctx.pidTgid} == stash;
        return None;
      }
      var args := stash[ctx.pidTgid];
      stash := stash - {ctx.pidTgid};
      if ret <= 0 {
        return None;
      }
      ev := Submit(ctx, OP_READ, args.fd, 0, ToInt32(ret), user(args.buf), ToUint32(ret));
    }
  }

  /** The `ssl_read_stash` map with the probes on `SSL_read`. */
  class SslReads {
    var stash: map<uint64, SslReadArgs>
    ghost var run: seq<Probe<SslReadArgs>>

    ghost predicate Valid()
      reads this
    {
      stash == StashAfter(run, SSL_STASH_CAP)
    }

    constructor ()
      ensures Valid() && run == []
    {
      stash, run := map[], [];
    }

    method TraceSslReadEnter(ctx: Context, ssl: uint64, buf: uint64)
      requires Valid()
      modifies this
      ensures Valid()
      ensures run == if Traced(ctx) then old(run) + [Enter(ctx.pidTgid, SslReadArgs(ssl, buf))] else old(run)
      ensures stash ==
        if Traced(ctx) && (ctx.pidTgid in old(stash) || |old(stash)| < 1024)
        then old(stash)[ctx.pidTgid := SslReadArgs(ssl, buf)] else old(stash)
    {
      hide StashAfter;
      hide PidMatches;
      hide Traced;
      hide ToInt32;
      PidMatchesExactly(ctx);
      if !PidMatches(ctx) {
        return;
      }
      var args := SslReadArgs(ssl, buf);
      if ctx.pidTgid in stash || |stash| < SSL_STASH_CAP {
        stash := stash[ctx.pidTgid := args];
      }
      StashAfterEnter(run, SSL_STASH_CAP, ctx.pidTgid, args);
      run := run + [Enter(ctx.pidTgid, args)];
    }

    /** Here the entry is taken out before the pid is checked. */
    method TraceSslReadExit(ctx: Context, ret: int32, user: uint64 -> bytes) returns (ev: Option<Event>)
      requires Valid()
      modifies this
      ensures Valid() && stash == old(stash) - {ctx.pidTgid}
      ensures run == old(run) + [Exit(ctx.pidTgid)]
      ensures ev.Some? <==> Traced(ctx) && ctx.pidTgid in old(stash) && ret > 0 && ctx.slot.Some?
      ensures ev.Some? ==>
        var e, n := ev.value, AfterLast(old(run), ctx.pidTgid);
        && n > 0 && old(run)[n - 1].Enter?
        && var args := old(run)[n - 1].args;
        Reports(e, ctx, OP_SSL_READ, -1, args.ssl, ret, user(args.buf), ToUint32(ret))
    {
      hide StashAfter;
      hide AfterLast;
      hide Reports;
      hide PidMatches;
      hide Traced;
      hide ToInt32;
      hide ToUint32;
      StashHoldsOwnLastEnter(run, SSL_STASH_CAP, ctx.pidTgid);
      StashAfterExit(run, SSL_STASH_CAP, ctx.pidTgid);
      run := run + [Exit(ctx.pidTgid)];
      if ctx.pidTgid !in stash {
        assert stash - {ctx.pidTgid} == stash;
        return None;
      }
      var args := stash[ctx.pidTgid];
      stash := stash - {ctx.pidTgid};
      PidMatchesExactly(ctx);
      if !PidMatches(ctx) || ret <= 0 {
        return None;
      }
      ev := Submit(ctx, OP_SSL_READ, -1, args.ssl, ret, user(args.buf), ToUint32(ret));
    }
  }
}
