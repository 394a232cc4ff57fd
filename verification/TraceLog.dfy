/** The trace log: a ring that either keeps the newest entries, or stops by
    itself when it becomes full and so keeps the first ones. */
module TraceLog {
  import opened Rings

  datatype Trace = Trace(logtype: nat, logtim: nat, logpar: seq<int>)

  /** The mode bits that are kept; TRACE_STOP is neither. */
  datatype Mode = Mode(ringbuf: bool, autostop: bool)

  const TRACE_STOP := Mode(false, false)

  datatype TraceState = TraceState(ring: Ring<Trace>, mode: Mode)

  predicate Tracing(s: TraceState) { s.mode.ringbuf || s.mode.autostop }

  /** eTraceLog_start; `clear` is the TRACE_CLEAR bit. */
  function Started(s: TraceState, mode: Mode, clear: bool): TraceState {
    TraceState(if clear then Ring(s.ring.buf, 0, 0, 0) else s.ring, mode)
  }

  /** eTraceLog_write of a stamped entry. */
  function Written(s: TraceState, e: Trace): TraceState
    requires s.ring.wp < s.ring.Size()
  {
    if !Tracing(s) then s
    else
      var r := s.ring.Overwrite(e);
      TraceState(r, if !s.ring.Full() && r.Full() && s.mode.autostop then TRACE_STOP else s.mode)
  }

  /** eTraceLog_read. */
  function AfterRead(s: TraceState): TraceState {
    if s.ring.count > 0 then s.(ring := s.ring.Take()) else s
  }

  /** Any number of writes, one after the other. */
  function WriteAll(s: TraceState, es: seq<Trace>): (s': TraceState)
    requires s.ring.wp < s.ring.Size() && s.ring.rp < s.ring.Size()
    ensures s'.ring.Size() == s.ring.Size() && s'.ring.wp < s'.ring.Size() && s'.ring.rp < s'.ring.Size()
  {
    if es == [] then s else Written(WriteAll(s, es[..|es| - 1]), es[|es| - 1])
  }

  function Newest<T>(q: seq<T>, n: nat): seq<T> { if |q| <= n then q else q[|q| - n..] }

  lemma NewestSnoc<T>(q: seq<T>, x: T, n: nat)
    requires n > 0
    ensures Newest(q + [x], n) == Newest(Newest(q, n) + [x], n)
  {
  }

  /** One write adds the entry and keeps the newest. */
  lemma WriteKeepsNewest(s: TraceState, e: Trace)
    requires s.ring.Ok() && Tracing(s)
    ensures var s' := Written(s, e);
      s'.ring.Ok() && s'.ring.Contents() == Newest(s.ring.Contents() + [e], s.ring.Size())
  {
    OverwriteKeepsNewest(s.ring, e);
  }

  /** Ring mode keeps exactly the newest entries, as many as there is room for, and never stops. */
  lemma {:induction false} RingModeKeepsNewest(s: TraceState, es: seq<Trace>)
    requires s.ring.Ok() && s.mode.ringbuf && !s.mode.autostop
    ensures var s' := WriteAll(s, es);
      && s'.ring.Ok() && s'.mode == s.mode
      && s'.ring.Contents() == Newest(s.ring.Contents() + es, s.ring.Size())
  {
    if es == [] {
      assert s.ring.Contents() + es == s.ring.Contents();
    } else {
      var n := |es| - 1;
      RingModeKeepsNewest(s, es[..n]);
      WriteKeepsNewest(WriteAll(s, es[..n]), es[n]);
      NewestSnoc(s.ring.Contents() + es[..n], es[n], s.ring.Size());
      assert s.ring.Contents() + es[..n] + [es[n]] == s.ring.Contents() + es;
    }
  }

  /** What auto-stop mode leaves after some writes: while there is room, everything; the write
      that fills the ring stops the trace; a trace started on a full ring never stops and
      keeps the newest instead. */
  function AutoStopped(q: seq<Trace>, es: seq<Trace>, size: nat): seq<Trace> {
    if |q| >= size then Newest(q + es, size)
    else if |q| + |es| < size then q + es
    else (q + es)[..size]
  }

  lemma AutoStoppedSnoc(q: seq<Trace>, es: seq<Trace>, x: Trace, size: nat)
    requires size > 0
    ensures var kept := AutoStopped(q, es, size);
      && |kept| <= size
      && AutoStopped(q, es + [x], size) ==
           if |q| < size <= |q| + |es| then kept else Newest(kept + [x], size)
  {
    assert q + es + [x] == q + (es + [x]);
    NewestSnoc(q + es, x, size);
  }

  /** Auto-stop, for every starting count: the old contents followed by exactly the first writes
      that fit, and then stopped, if and only if the ring was not full at the start. */
  lemma {:induction false} AutoStopKeepsFirst(s: TraceState, es: seq<Trace>)
    requires s.ring.Ok() && s.mode.autostop
    ensures var s' := WriteAll(s, es); var q := s.ring.Contents();
      && s'.ring.Ok()
      && s'.ring.Contents() == AutoStopped(q, es, s.ring.Size())
      && s'.mode == (if |q| < s.ring.Size() <= |q| + |es| then TRACE_STOP else s.mode)
  {
    var q := s.ring.Contents();
    if es == [] {
      assert q + es == q;
    } else {
      var n := |es| - 1;
      var m := WriteAll(s, es[..n]);
      AutoStopKeepsFirst(s, es[..n]);
      assert es[..n] + [es[n]] == es;
      AutoStoppedSnoc(q, es[..n], es[n], s.ring.Size());
      if Tracing(m) {
        WriteKeepsNewest(m, es[n]);
      }
    }
  }

  /** The trace started in auto-stop mode ends up stopped, however many writes follow, exactly
      when the ring was not full. */
  lemma AutoStopStops(s: TraceState, es: seq<Trace>)
    requires s.ring.Ok() && s.mode.autostop && |es| >= s.ring.Size()
    ensures WriteAll(s, es).mode == TRACE_STOP <==> !s.ring.Full()
  {
    AutoStopKeepsFirst(s, es);
  }

  lemma {:induction false} StoppedKeeps(s: TraceState, es: seq<Trace>)
    requires s.ring.Ok() && !Tracing(s)
    ensures WriteAll(s, es) == s
  {
    if es == [] {
    } else {
      StoppedKeeps(s, es[..|es| - 1]);
    }
  }

  /** Starting in any state, stopped or not, and then any number of writes: in ring mode the newest
      entries are left; in auto-stop mode the first that fit, and the trace has stopped exactly when
      it was not full at the start and the writes filled it; started to stop, nothing is added.
      The old entries count as first ones unless they are cleared. */
  lemma StartAndWrite(s: TraceState, mode: Mode, clear: bool, es: seq<Trace>)
    requires s.ring.Ok()
    ensures var s', size := WriteAll(Started(s, mode, clear), es), s.ring.Size();
      var q := if clear then [] else s.ring.Contents();
      && s'.ring.Ok() && s'.ring.Size() == size
      && (mode.ringbuf && !mode.autostop ==> s'.ring.Contents() == Newest(q + es, size) && s'.mode == mode)
      && (mode.autostop ==>
            && s'.ring.Contents() == AutoStopped(q, es, size)
            && s'.mode == if |q| < size <= |q| + |es| then TRACE_STOP else mode)
      && (!mode.ringbuf && !mode.autostop ==> s'.ring.Contents() == q && s'.mode == mode)
  {
    var t := Started(s, mode, clear);
    assert t.ring.Contents() == if clear then [] else s.ring.Contents();
    if mode.autostop {
      AutoStopKeepsFirst(t, es);
    } else if mode.ringbuf {
      RingModeKeepsNewest(t, es);
    } else {
      StoppedKeeps(t, es);
    }
  }

  // ---------- the object ----------

  datatype Error = E_OK | E_OBJ

  class TraceLogCell {
    const logBuffer: array<Trace>
    var count: nat
    var head: nat
    var tail: nat
    var mode: Mode

    ghost function State(): TraceState
      reads this, logBuffer
    {
      TraceState(Ring(logBuffer[..], head, tail, count), mode)
    }

    ghost predicate Valid()
      reads this, logBuffer
    {
      State().ring.Ok()
    }

    constructor (logBufferSize: nat, initialMode: Mode)
      requires logBufferSize > 0
      ensures Valid() && count == 0 && mode == initialMode && logBuffer.Length == logBufferSize && fresh(logBuffer)
    {
      logBuffer := new Trace[logBufferSize](_ => Trace(0, 0, []));
      count, head, tail, mode := 0, 0, 0, initialMode;
    }

    method Start(newMode: Mode, clear: bool)
      requires Valid()
      modifies this`count, this`head, this`tail, this`mode
      ensures Valid() && State() == Started(old(State()), newMode, clear) && mode == newMode
      ensures State().ring.Contents() == if clear then [] else old(State()).ring.Contents()
    {
      if clear {
        count, head, tail := 0, 0, 0;
      }
      mode := newMode;
    }

    /** eTraceLog_write, with the clock reading. */
    method Write(entry: Trace, now: nat)
      requires Valid()
      modifies this`count, this`head, this`tail, this`mode, logBuffer
      ensures Valid() && State() == Written(old(State()), entry.(logtim := now))
    {
      if mode.ringbuf || mode.autostop {
        OverwriteKeepsNewest(State().ring, entry.(logtim := now));
        logBuffer[tail] := entry.(logtim := now);
        tail := tail + 1;
        if tail >= logBuffer.Length { tail := 0; }
        if count < logBuffer.Length {
          count := count + 1;
          if count >= logBuffer.Length && mode.autostop { mode := TRACE_STOP; }
        } else {
          head := tail;
        }
      }
    }

    method Read() returns (e: Error, entry: Trace)
      requires Valid()
      modifies this`count, this`head
      ensures Valid() && State() == AfterRead(old(State()))
      ensures e == if old(count) > 0 then E_OK else E_OBJ
      ensures e == E_OBJ ==> State() == old(State())
      ensures e == E_OK ==> [entry] + State().ring.Contents() == old(State()).ring.Contents()
    {
      if count > 0 {
        TakeRemovesFront(State().ring);
        entry := logBuffer[head];
        count := count - 1;
        head := head + 1;
        if head >= logBuffer.Length { head := 0; }
        e := E_OK;
      } else {
        e, entry := E_OBJ, Trace(0, 0, []);
      }
    }

    /** In every reachable state the tail is the head advanced by the count. */
    lemma TailFollowsHead()
      requires Valid()
      ensures tail == (head + count) % logBuffer.Length
    {
      WritePositionModulo(State().ring);
    }
  }
}
