/** The system log: a ring that keeps the newest entries and reports, with each
    entry read, how many were lost just before it. */
module SysLog {
  import opened Basics
  import opened Rings

  datatype Log = Log(logtype: nat, logtim: nat, logpar: seq<int>)

  const INT_LIMIT: nat := 0x8000_0000
  const E_OBJ: int := -41

  /** The conversion of an unsigned 32-bit count to the signed result type. */
  function ToSigned(u: nat): int { if u < INT_LIMIT then u else u - UINT_MODULUS }

  /** ++ on an unsigned 32-bit count. */
  function Increment(u: nat): nat { if u + 1 == UINT_MODULUS then 0 else u + 1 }

  datatype LogState = LogState(ring: Ring<Log>, lost: nat, logMask: set<nat>, lowMask: set<nat>)

  /** The recording part of eSysLog_write, for a priority in the mask. */
  function Recorded(s: LogState, e: Log): LogState
    requires s.ring.wp < s.ring.Size()
  {
    s.(ring := s.ring.Overwrite(e), lost := if s.ring.Full() then Increment(s.lost) else s.lost)
  }

  function Written(s: LogState, priority: nat, log: Log, now: nat): LogState
    requires s.ring.wp < s.ring.Size()
  {
    if priority in s.logMask then Recorded(s, log.(logtim := now)) else s
  }

  /** eSysLog_read: its state, and the result code. */
  function AfterRead(s: LogState): LogState {
    if s.ring.count > 0 then s.(ring := s.ring.Take(), lost := 0) else s
  }

  function ReadCode(s: LogState): int { if s.ring.count > 0 then ToSigned(s.lost) else E_OBJ }

  // ---------- runs ----------

  datatype Event = Write(priority: nat, log: Log, now: nat) | Read | Mask(logMask: set<nat>, lowMask: set<nat>)

  /** What has happened: every entry recorded, the index of the one read last, how many
      reads succeeded, the losses since the last read, and the losses and reports before it. */
  datatype History = History(recorded: seq<Log>, last: int, readCount: nat, pending: nat, lostBefore: nat, reported: int)

  datatype System = System(s: LogState, h: History)

  function Step(x: System, e: Event): System
    requires x.s.ring.wp < x.s.ring.Size() && x.s.ring.rp < x.s.ring.Size()
  {
    var s, h := x.s, x.h;
    match e
    case Write(priority, log, now) =>
      System(Written(s, priority, log, now),
             if priority in s.logMask then
               h.(recorded := h.recorded + [log.(logtim := now)], pending := h.pending + if s.ring.Full() then 1 else 0)
             else h)
    case Read =>
      System(AfterRead(s),
             if s.ring.count > 0 then
               h.(last := |h.recorded| - s.ring.count, readCount := h.readCount + 1, pending := 0,
                  lostBefore := h.lostBefore + h.pending, reported := h.reported + ReadCode(s))
             else h)
    case Mask(logMask, lowMask) => x.(s := s.(logMask := logMask, lowMask := lowMask))
  }

  ghost predicate Init(x: System) {
    x.s.ring.Ok() && x.s.ring.count == 0 && x.s.lost == 0 && x.h == History([], -1, 0, 0, 0, 0)
  }

  ghost predicate Run(tr: seq<System>, es: seq<Event>) {
    && |tr| == |es| + 1 && Init(tr[0])
    && forall i :: 0 <= i < |es| ==>
         tr[i].s.ring.wp < tr[i].s.ring.Size() && tr[i].s.ring.rp < tr[i].s.ring.Size() && tr[i + 1] == Step(tr[i], es[i])
  }

  /** The ring holds the newest of the recorded entries; between the one read last and the
      oldest one kept lie exactly the pending losses, and there are any only while it is full. */
  ghost predicate Inv(x: System) {
    var n, h := |x.h.recorded|, x.h;
    && x.s.ring.Ok() && x.s.ring.count <= n
    && x.s.ring.Contents() == h.recorded[n - x.s.ring.count..]
    && x.s.lost == h.pending % UINT_MODULUS
    && n - x.s.ring.count == h.last + 1 + h.pending
    && (h.pending > 0 ==> x.s.ring.Full())
    && n == h.readCount + h.lostBefore + h.pending + x.s.ring.count
  }

  lemma NextCount(k: nat)
    ensures (k + 1) % UINT_MODULUS == Increment(k % UINT_MODULUS)
  {
  }

  lemma WriteKeepsInv(x: System, e: Event)
    requires Inv(x) && e.Write?
    ensures Inv(Step(x, e))
  {
    var s, h := x.s, x.h;
    if e.priority in s.logMask {
      var log := e.log.(logtim := e.now);
      OverwriteKeepsNewest(s.ring, log);
      var n, c := |h.recorded|, s.ring.count;
      var x' := Step(x, e);
      if s.ring.Full() {
        assert h.recorded[n - c..][1..] + [log] == (h.recorded + [log])[n + 1 - c..];
        NextCount(h.pending);
      } else {
        assert h.recorded[n - c..] + [log] == (h.recorded + [log])[n - c..];
      }
    }
  }

  lemma ReadKeepsInv(x: System)
    requires Inv(x)
    ensures Inv(Step(x, Read))
  {
    if x.s.ring.count > 0 {
      TakeRemovesFront(x.s.ring);
      var n, c := |x.h.recorded|, x.s.ring.count;
      assert x.h.recorded[n - c..][1..] == x.h.recorded[n - (c - 1)..];
    }
  }

  lemma {:induction false} RunInv(tr: seq<System>, es: seq<Event>, i: nat)
    requires Run(tr, es) && i < |tr|
    ensures Inv(tr[i])
  {
    if i == 0 {
    } else {
      RunInv(tr, es, i - 1);
      assert tr[i - 1 + 1] == Step(tr[i - 1], es[i - 1]);
      match es[i - 1]
      case Write(_, _, _) => WriteKeepsInv(tr[i - 1], es[i - 1]);
      case Read => ReadKeepsInv(tr[i - 1]);
      case Mask(_, _) =>
    }
  }

  /** The exact loss report. A read returns the recorded entry that lies beyond the one read
      last by as many as were lost in between; its result is that number if and only if the
      number fits the signed result, that is below 2^31. */
  lemma ExactLossReport(tr: seq<System>, es: seq<Event>, i: nat)
    requires Run(tr, es) && i < |es| && es[i].Read? && tr[i].s.ring.count > 0
    ensures var x, k := tr[i], tr[i].h.pending;
      && 0 <= x.h.last + 1 + k < |x.h.recorded|
      && x.s.ring.Front() == x.h.recorded[x.h.last + 1 + k]
      && tr[i + 1].h.last == x.h.last + 1 + k
      && (ReadCode(x.s) == k <==> k < INT_LIMIT)
  {
    RunInv(tr, es, i);
    var s := tr[i].s;
    assert s.ring.Front() == s.ring.Contents()[0];
    assert tr[i + 1] == Step(tr[i], es[i]);
    if tr[i].h.pending >= UINT_MODULUS {
      assert ReadCode(s) < UINT_MODULUS;
    }
  }

  /** Every recorded entry is accounted for: read, lost, or still there. */
  lemma NothingUnaccounted(tr: seq<System>, es: seq<Event>, i: nat)
    requires Run(tr, es) && i < |tr|
    ensures var x := tr[i];
      |x.h.recorded| == x.h.readCount + x.h.lostBefore + x.h.pending + x.s.ring.count
  {
    RunInv(tr, es, i);
  }

  /** The mask in force after some events. */
  function MaskAfter(mask: set<nat>, es: seq<Event>): set<nat> {
    if es == [] then mask
    else
      var n := |es| - 1;
      if es[n].Mask? then es[n].logMask else MaskAfter(mask, es[..n])
  }

  /** The entries to be recorded: those written with a priority in the mask in force, stamped. */
  function ToRecord(mask: set<nat>, es: seq<Event>): seq<Log> {
    if es == [] then []
    else
      var n := |es| - 1;
      var e := es[n];
      ToRecord(mask, es[..n])
      + if e.Write? && e.priority in MaskAfter(mask, es[..n]) then [e.log.(logtim := e.now)] else []
  }

  /** They are what is recorded. */
  lemma {:induction false} RecordedExactly(tr: seq<System>, es: seq<Event>, i: nat)
    requires Run(tr, es) && i < |tr|
    ensures tr[i].h.recorded == ToRecord(tr[0].s.logMask, es[..i])
    ensures tr[i].s.logMask == MaskAfter(tr[0].s.logMask, es[..i])
  {
    if i == 0 {
      assert es[..0] == [];
    } else {
      RecordedExactly(tr, es, i - 1);
      assert es[..i][..i - 1] == es[..i - 1];
      assert tr[i - 1 + 1] == Step(tr[i - 1], es[i - 1]);
    }
  }

  /** As long as no more than 2^31 - 1 losses are pending at a time, the losses are what the
      reads reported. */
  lemma {:induction false} ReportsAddUp(tr: seq<System>, es: seq<Event>, i: nat)
    requires Run(tr, es) && i < |tr|
    requires forall j :: 0 <= j < |tr| ==> tr[j].h.pending < INT_LIMIT
    ensures tr[i].h.reported == tr[i].h.lostBefore
  {
    if i == 0 {
    } else {
      ReportsAddUp(tr, es, i - 1);
      RunInv(tr, es, i - 1);
      assert tr[i - 1 + 1] == Step(tr[i - 1], es[i - 1]);
    }
  }

  // ---------- the object ----------

  /** What the low-level output is given. */
  datatype LowOutput = Message(log: Log) | LostMessage(lost: nat)

  function Messages(q: seq<Log>): seq<LowOutput> { seq(|q|, i requires 0 <= i < |q| => Message(q[i])) }

  /** The low-level output after the first n entries, with the loss before the first one. */
  function Flushed(low: seq<LowOutput>, lost: nat, q: seq<Log>, n: nat): seq<LowOutput>
    requires n <= |q|
  {
    if n == 0 then low else low + (if lost > 0 then [LostMessage(lost)] else []) + Messages(q[..n])
  }

  lemma FlushedNext(low: seq<LowOutput>, lost: nat, q: seq<Log>, n: nat)
    requires n < |q|
    ensures Flushed(low, lost, q, n + 1)
         == Flushed(low, lost, q, n) + (if n == 0 && lost > 0 then [LostMessage(lost)] else []) + [Message(q[n])]
  {
    assert Messages(q[..n + 1]) == Messages(q[..n]) + [Message(q[n])];
  }

  class SysLogCell {
    const logBuffer: array<Log>
    var count: nat
    var head: nat
    var tail: nat
    var lost: nat
    var logMask: set<nat>
    var lowMask: set<nat>
    var low: seq<LowOutput>

    ghost function State(): LogState
      reads this`count, this`head, this`tail, this`lost, this`logMask, this`lowMask, logBuffer
    {
      LogState(Ring(logBuffer[..], head, tail, count), lost, logMask, lowMask)
    }

    ghost predicate Valid()
      reads this`count, this`head, this`tail, this`lost, this`logMask, this`lowMask, logBuffer
    {
      State().ring.Ok() && lost < UINT_MODULUS
    }

    /** The entries still to be read. */
    ghost function Pending(): seq<Log>
      requires Valid()
      reads this`count, this`head, this`tail, this`lost, this`logMask, this`lowMask, logBuffer
    {
      State().ring.Contents()
    }

    constructor (logBufferSize: nat, initLogMask: set<nat>, initLowMask: set<nat>)
      requires logBufferSize > 0
      ensures Valid() && Pending() == [] && lost == 0 && logBuffer.Length == logBufferSize && fresh(logBuffer)
      ensures logMask == initLogMask && lowMask == initLowMask && low == []
    {
      logBuffer := new Log[logBufferSize](_ => Log(0, 0, []));
      count, head, tail, lost := 0, 0, 0, 0;
      logMask, lowMask, low := initLogMask, initLowMask, [];
    }

    /** eSysLog_write; the two clock readings are arguments. */
    method Write(priority: nat, log: Log, now: nat, nowLow: nat)
      requires Valid()
      modifies this`count, this`head, this`tail, this`lost, this`low, logBuffer
      ensures Valid() && State() == Written(old(State()), priority, log, now)
      ensures low == old(low) + if priority in lowMask then [Message(log.(logtim := nowLow))] else []
    {
      if priority in logMask {
        OverwriteKeepsNewest(State().ring, log.(logtim := now));
        logBuffer[tail] := log.(logtim := now);
        tail := tail + 1;
        if tail >= logBuffer.Length { tail := 0; }
        if count < logBuffer.Length {
          count := count + 1;
        } else {
          head := tail;
          lost := Increment(lost);
        }
      }
      if priority in lowMask {
        low := low + [Message(log.(logtim := nowLow))];
      }
    }

    /** eSysLog_read; without an entry the log returned means nothing. */
    method Read() returns (ercd: int, log: Log)
      requires Valid()
      modifies this`count, this`head, this`lost
      ensures Valid() && State() == AfterRead(old(State())) && ercd == ReadCode(old(State()))
      ensures old(count) > 0 ==> log == old(Pending())[0] && Pending() == old(Pending())[1..] && lost == 0
      ensures old(count) == 0 ==> Pending() == old(Pending())
    {
      if count > 0 {
        TakeRemovesFront(State().ring);
        log := logBuffer[head];
        count := count - 1;
        head := head + 1;
        if head >= logBuffer.Length { head := 0; }
        ercd := ToSigned(lost);
        lost := 0;
      } else {
        ercd, log := E_OBJ, Log(0, 0, []);
      }
    }

    method SetMask(newLogMask: set<nat>, newLowMask: set<nat>)
      requires Valid()
      modifies this`logMask, this`lowMask
      ensures Valid() && State() == old(State()).(logMask := newLogMask, lowMask := newLowMask)
    {
      logMask, lowMask := newLogMask, newLowMask;
    }

    /** eSysLog_read, seen as taking the oldest entry off the queue. */
    method TakeEntry() returns (ercd: int, log: Log)
      requires Valid()
      modifies this`count, this`head, this`lost
      ensures Valid() && |old(Pending())| == old(count)
      ensures old(count) > 0 ==>
        && log == old(Pending())[0] && Pending() == old(Pending())[1..] && lost == 0 && ercd == ToSigned(old(lost))
      ensures old(count) == 0 ==> ercd < 0 && Pending() == [] && lost == old(lost)
    {
      ercd, log := Read();
    }

    /** The body of the loop of eSysLog_flush: an entry and its loss are put out, and the next
        one is read. */
    method FlushEntry(rercd: int, logbuf: Log, ghost q: seq<Log>, ghost low0: seq<LowOutput>, ghost lost0: nat, ghost done: nat)
      returns (rercd': int, logbuf': Log)
      requires Valid() && Flushing(q, low0, lost0, done, rercd, logbuf, Pending(), lost, low) && rercd >= 0
      modifies this`count, this`head, this`lost, this`low
      ensures Valid() && Flushing(q, low0, lost0, done + 1, rercd', logbuf', Pending(), lost, low)
    {
      ghost var pending, left, before := Pending(), lost, low;
      if rercd > 0 { low := low + [LostMessage(rercd)]; }
      low := low + [Message(logbuf)];
      rercd', logbuf' := TakeEntry();
      FlushingNext(q, low0, lost0, done, rercd, logbuf, pending, left, before, rercd', logbuf', Pending(), lost, low);
    }

    method FlushLoop(first: int, log: Log, ghost q: seq<Log>, ghost low0: seq<LowOutput>, ghost lost0: nat)
      requires Valid() && Flushing(q, low0, lost0, 0, first, log, Pending(), lost, low)
      modifies this`count, this`head, this`lost, this`low
      ensures Valid() && FlushDone(q, low0, lost0, Pending(), low)
    {
      var rercd, logbuf := first, log;
      ghost var done := 0;
      while rercd >= 0
        invariant Valid() && Flushing(q, low0, lost0, done, rercd, logbuf, Pending(), lost, low)
        decreases |q| - done
      {
        rercd, logbuf := FlushEntry(rercd, logbuf, q, low0, lost0, done);
        done := done + 1;
      }
      FlushingEnds(q, low0, lost0, done, rercd, logbuf, Pending(), lost, low);
    }

    /** eSysLog_flush. With fewer than 2^31 losses pending it puts out the loss, if any, and
        every entry, oldest first, and leaves the log empty. Otherwise the first read looks like
        an error: that entry disappears, nothing is put out and the rest stays. */
    method Flush()
      requires Valid()
      modifies this`count, this`head, this`lost, this`low
      ensures Valid()
      ensures old(count) > 0 && old(lost) < INT_LIMIT ==>
        && Pending() == []
        && low == old(low) + (if old(lost) > 0 then [LostMessage(old(lost))] else []) + Messages(old(Pending()))
      ensures old(count) > 0 && old(lost) >= INT_LIMIT ==> Pending() == old(Pending())[1..] && low == old(low)
      ensures old(count) == 0 ==> Pending() == [] && low == old(low)
    {
      ghost var q, low0, lost0 := Pending(), low, lost;
      var rercd, logbuf := TakeEntry();
      FlushingStarts(q, low0, lost0, rercd, logbuf, Pending(), lost);
      FlushLoop(rercd, logbuf, q, low0, lost0);
    }
  }

  /** What a flush leaves. */
  ghost predicate FlushDone(q: seq<Log>, low0: seq<LowOutput>, lost0: nat, pending: seq<Log>, low: seq<LowOutput>) {
    if q == [] then pending == [] && low == low0
    else if lost0 >= INT_LIMIT then pending == q[1..] && low == low0
    else pending == [] && low == low0 + (if lost0 > 0 then [LostMessage(lost0)] else []) + Messages(q)
  }

  /** The flush loop after n entries, with the result of the last read. */
  ghost predicate Flushing(q: seq<Log>, low0: seq<LowOutput>, lost0: nat, n: nat, rercd: int, logbuf: Log,
                           pending: seq<Log>, lost: nat, low: seq<LowOutput>)
  {
    && n <= |q| && low == Flushed(low0, lost0, q, n) && (|q| > 0 ==> lost == 0)
    && pending == (if n < |q| then q[n + 1..] else [])
    && (rercd >= 0 || n > 0 ==> lost0 < INT_LIMIT)
    && (if rercd >= 0 then n < |q| && logbuf == q[n] && rercd == (if n == 0 then lost0 else 0)
        else n == |q| || (n == 0 && lost0 >= INT_LIMIT))
  }

  lemma FlushingNext(q: seq<Log>, low0: seq<LowOutput>, lost0: nat, n: nat, rercd: int, logbuf: Log,
                     pending: seq<Log>, lost: nat, low: seq<LowOutput>,
                     rercd': int, logbuf': Log, pending': seq<Log>, lost': nat, low': seq<LowOutput>)
    requires Flushing(q, low0, lost0, n, rercd, logbuf, pending, lost, low) && rercd >= 0
    requires low' == low + (if rercd > 0 then [LostMessage(rercd)] else []) + [Message(logbuf)]
    requires pending != [] ==> logbuf' == pending[0] && pending' == pending[1..] && lost' == 0 && rercd' == ToSigned(lost)
    requires pending == [] ==> rercd' < 0 && pending' == [] && lost' == lost
    ensures Flushing(q, low0, lost0, n + 1, rercd', logbuf', pending', lost', low')
  {
    FlushedNext(low0, lost0, q, n);
    if n + 1 < |q| {
      assert q[n + 1..][0] == q[n + 1] && q[n + 1..][1..] == q[n + 2..];
    }
  }

  lemma FlushingEnds(q: seq<Log>, low0: seq<LowOutput>, lost0: nat, n: nat, rercd: int, logbuf: Log,
                     pending: seq<Log>, lost: nat, low: seq<LowOutput>)
    requires Flushing(q, low0, lost0, n, rercd, logbuf, pending, lost, low) && rercd < 0
    ensures FlushDone(q, low0, lost0, pending, low)
  {
    assert q[..|q|] == q;
  }

  lemma FlushingStarts(q: seq<Log>, low0: seq<LowOutput>, lost0: nat, rercd: int, logbuf: Log, pending: seq<Log>, lost: nat)
    requires lost0 < UINT_MODULUS
    requires q != [] ==> logbuf == q[0] && pending == q[1..] && lost == 0 && rercd == ToSigned(lost0)
    requires q == [] ==> rercd < 0 && pending == []
    ensures Flushing(q, low0, lost0, 0, rercd, logbuf, pending, lost, low0)
  {
  }
}
