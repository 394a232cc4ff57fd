/** Concrete inputs on which the code does less than one might expect of it. When exactly
    that happens is said by the lemmas on the same code, for all inputs. */
module Counterexamples {
  import opened Basics
  import opened Rings

  import Port = SerialPort
  import Serial = SerialSystem
  import Wire = SerialWire
  import Table = SRecordTable
  import SysLog
  import TraceLog
  import LogFormat
  import Clock = EventClock
  import TimeEventHeap

  // ---------- the serial driver ----------

  const IO: Port.IoControl := Port.IoControl(true, true, true, false, true)
  const EMPTY: Ring<char> := Ring(['-', '-', '-', '-'], 0, 0, 0)
  const ONE: Ring<char> := Ring(['a', '-', '-', '-'], 0, 1, 1)
  const TWO: Ring<char> := Ring(['a', 'b', '-', '-'], 0, 2, 2)
  const LEFT: Ring<char> := Ring(['a', 'b', '-', '-'], 1, 2, 1)

  function With(receive: Ring<char>, receiveSem: nat, k: Serial.Task, h: Serial.History): Serial.System {
    Serial.System(Port.Port(true, false, IO, receive, Port.NUL, false, EMPTY, false, 1, receiveSem, false, []), [k], false, h)
  }

  function In(c: char): Serial.Input { Serial.Input(c, IO, false) }

  const H0: Serial.History := Serial.NO_HISTORY
  const H1: Serial.History := H0.(input := [In('a')])
  const H2: Serial.History := H1.(input := [In('a'), In('b')])
  const H3: Serial.History := H2.(delivered := [(0, 'a')])
  const H4: Serial.History := H3.(lostTokens := 1)

  /** A reader that wants two characters and has got some, with more in the ring. */
  function Reader(got: string, rpc: Serial.ReadPc): Serial.Task {
    Serial.Reading(2, got, 0, 0, |got|, got == "", rpc)
  }

  const IDLE: Serial.Task := Serial.Ready(Serial.NoCall)

  /** Two characters arrive, a reader that wants two takes the first and begins to echo it,
      and its wait for the send token is aborted. */
  const STATES: seq<Serial.System> := [
    With(EMPTY, 0, IDLE, H0),
    With(ONE, 1, IDLE, H1),
    With(TWO, 1, IDLE, H2),
    With(TWO, 1, Reader("", Serial.WaitReceive), H2),
    With(TWO, 0, Reader("", Serial.Get), H2),
    With(LEFT, 0, Reader("a", Serial.EchoTest('a')), H3),
    With(LEFT, 0, Reader("a", Serial.Echo('a', Serial.Wait)), H3),
    With(LEFT, 0, Serial.Ready(Serial.ReadBack(2, "a", 0, 0, 1, Serial.E_RLWAI)), H4)]

  const EVENTS: seq<Serial.Event> := [
    Serial.ReceiveCallback('a', 0),
    Serial.ReceiveCallback('b', 0),
    Serial.StartRead(0, 2),
    Serial.Advance(0, true),
    Serial.Advance(0, true),
    Serial.Advance(0, true),
    Serial.Abort(0, Serial.E_RLWAI)]

  lemma TwoArrive()
    ensures Serial.Next(STATES[0], EVENTS[0], STATES[1]) && Serial.Next(STATES[1], EVENTS[1], STATES[2])
  {
  }

  lemma ReadingStarts()
    ensures Serial.Next(STATES[2], EVENTS[2], STATES[3]) && Serial.Next(STATES[3], EVENTS[3], STATES[4])
  {
  }

  lemma FirstIsTaken()
    ensures Serial.Next(STATES[4], EVENTS[4], STATES[5])
  {
    assert "" + ['a'] == "a";
  }

  lemma EchoIsAborted()
    ensures Serial.Next(STATES[5], EVENTS[5], STATES[6]) && Serial.Next(STATES[6], EVENTS[6], STATES[7])
  {
  }

  /** The receive token is gone while the ring still holds a character and no task has it. */
  lemma EchoAbortLosesToken()
    ensures Serial.Run(STATES, EVENTS)
    ensures var s := STATES[|EVENTS|];
      s.port.receive.count == 1 && s.port.receiveSem == 0 && s.tasks[0].Ready? && s.h.lostTokens == 1
  {
    TwoArrive();
    ReadingStarts();
    FirstIsTaken();
    EchoIsAborted();
  }

  const THREE: Ring<char> := Ring(['a', 'b', 'c', '-'], 0, 3, 3)
  const TAKEN: Ring<char> := Ring(['a', 'b', 'c', '-'], 1, 3, 2)

  /** A port that has received three characters, when it wants to have its peer stopped and START
      or STOP may be pending. */
  function Flowing(receive: Ring<char>, receiveSem: nat, pending: char, stopped: bool, wire: seq<Port.Sent>): Port.Port {
    Port.Port(true, false, IO, receive, pending, stopped, EMPTY, false, 1, receiveSem, true, wire)
  }

  const F3: Serial.History := H2.(input := [In('a'), In('b'), In('c')])
  const F4: Serial.History := F3.(delivered := [(0, 'a')])

  /** Three characters arrive, STOP is pending, a reader takes one and sends START at once, and
      then the callback sends STOP. */
  const FLOW_STATES: seq<Serial.System> := [
    STATES[0],
    STATES[1],
    STATES[2],
    Serial.System(Flowing(THREE, 1, Port.FC_STOP, true, []), [IDLE], false, F3),
    Serial.System(Flowing(THREE, 1, Port.FC_STOP, true, []), [Reader("", Serial.WaitReceive)], false, F3),
    Serial.System(Flowing(THREE, 0, Port.FC_STOP, true, []), [Reader("", Serial.Get)], false, F3),
    Serial.System(Flowing(TAKEN, 0, Port.FC_STOP, false, [Port.Flow(Port.FC_START)]),
                  [Reader("a", Serial.EchoTest('a'))], false, F4),
    Serial.System(Flowing(TAKEN, 0, Port.NUL, false, [Port.Flow(Port.FC_START), Port.Flow(Port.FC_STOP)]),
                  [Reader("a", Serial.EchoTest('a'))], false, F4)]

  const FLOW_EVENTS: seq<Serial.Event> := [
    Serial.ReceiveCallback('a', 0),
    Serial.ReceiveCallback('b', 0),
    Serial.ReceiveCallback('c', 0),
    Serial.StartRead(0, 2),
    Serial.Advance(0, true),
    Serial.Advance(0, true),
    Serial.SendCallback]

  lemma StopIsPending()
    ensures Serial.Next(FLOW_STATES[2], FLOW_EVENTS[2], FLOW_STATES[3])
    ensures Serial.Next(FLOW_STATES[3], FLOW_EVENTS[3], FLOW_STATES[4])
  {
  }

  lemma StartOvertakes()
    ensures Serial.Next(FLOW_STATES[4], FLOW_EVENTS[4], FLOW_STATES[5])
    ensures Serial.Next(FLOW_STATES[5], FLOW_EVENTS[5], FLOW_STATES[6])
  {
    assert "" + ['a'] == "a";
  }

  lemma StopIsSentLast()
    ensures Serial.Next(FLOW_STATES[6], FLOW_EVENTS[6], FLOW_STATES[7])
  {
  }

  /** The peer is told to stop last of all, though the driver has decided to let it go on and has
      nothing more to tell it. */
  lemma PeerStaysStopped()
    ensures Serial.Run(FLOW_STATES, FLOW_EVENTS)
    ensures var p := FLOW_STATES[|FLOW_EVENTS|].port;
      !p.receiveStopped && p.receiveFlowControl == '\0' && Wire.LastFlow(p.wire) == 19 as char
  {
    TwoArrive();
    StopIsPending();
    StartOvertakes();
    StopIsSentLast();
  }

  /** In a receive ring of two characters the first one already means STOP, and one is also
      few enough for START. */
  lemma TwoCharactersAreTooFew()
    ensures Port.StopCount(2) == Port.StartCount(2) == 1
  {
  }

  // ---------- the logs ----------

  const LOG_RING: Ring<SysLog.Log> := Ring([SysLog.Log(0, 0, [])], 0, 0, 0)

  function Logged(i: nat): SysLog.Log { SysLog.Log(1, 0, [i]) }

  /** A log with a single place after n writes, one of which is there and the others lost. */
  function OnePlaceLog(n: nat): SysLog.System
    requires n > 0
  {
    SysLog.System(
      SysLog.LogState(Ring([Logged(n - 1)], 0, 0, 1), (n - 1) % UINT_MODULUS, {1}, {}),
      SysLog.History(seq(n, i requires i >= 0 => Logged(i)), -1, 0, n - 1, 0, 0))
  }

  function WriteOf(i: nat): SysLog.Event { SysLog.Write(1, Logged(i), 0) }

  lemma OneMoreWrite(n: nat)
    requires n > 0
    ensures SysLog.Step(OnePlaceLog(n), WriteOf(n)) == OnePlaceLog(n + 1)
  {
    SysLog.NextCount(n - 1);
    assert seq(n, i requires i >= 0 => Logged(i)) + [Logged(n)] == seq(n + 1, i requires i >= 0 => Logged(i));
  }

  /** A run of n writes reaches that log. */
  lemma {:induction false} RunOfWrites(n: nat) returns (tr: seq<SysLog.System>, es: seq<SysLog.Event>)
    requires n > 0
    ensures SysLog.Run(tr, es) && |es| == n && tr[n] == OnePlaceLog(n)
  {
    if n == 1 {
      var x := SysLog.System(SysLog.LogState(LOG_RING, 0, {1}, {}), SysLog.History([], -1, 0, 0, 0, 0));
      tr, es := [x, OnePlaceLog(1)], [WriteOf(0)];
      assert seq(1, i requires i >= 0 => Logged(i)) == [] + [Logged(0)];
    } else {
      tr, es := RunOfWrites(n - 1);
      OneMoreWrite(n - 1);
      tr, es := tr + [OnePlaceLog(n)], es + [WriteOf(n - 1)];
    }
  }

  /** After 2^31 + 1 writes to a log with a single place, the read that delivers the entry has a
      negative result. */
  lemma ManyLossesLookLikeAnError() returns (tr: seq<SysLog.System>, es: seq<SysLog.Event>)
    ensures SysLog.Run(tr, es) && |es| == 0x8000_0001
    ensures var s := tr[|es|].s; s.ring.count == 1 && SysLog.ReadCode(s) == -0x8000_0000
  {
    tr, es := RunOfWrites(0x8000_0001);
  }

  /** Started in auto-stop mode on a full ring, the trace loses the old entry and goes on. */
  lemma FullRingDoesNotStop(old_: TraceLog.Trace, new_: TraceLog.Trace)
    ensures var mode := TraceLog.Mode(false, true);
      TraceLog.Written(TraceLog.TraceState(Ring([old_], 0, 0, 1), mode), new_)
      == TraceLog.TraceState(Ring([new_], 0, 0, 1), mode)
  {
  }

  /** Six arguments are one more than are kept. */
  lemma SixArgumentsAreTooMany()
    ensures LogFormat.StoredCount("%d%d%d%d%d%d") == 5 && |LogFormat.PrintedFrom("%d%d%d%d%d%d", 0)| == 6
  {
    var f := "%d%d%d%d%d%d";
    assert |LogFormat.CollectedFrom(f, 6)| == 3;
    assert |LogFormat.PrintedFrom(f, 6)| == 3;
  }

  // ---------- the image loader ----------

  /** Three bytes laid over a single one in their middle. */
  lemma ByteInTheMiddle()
    ensures Table.Swallows(map[4 := "AA"], 3, "001122")
  {
    assert 4 in map[4 := "AA"] && Table.End(map[4 := "AA"], 4) == 5;
  }

  // ---------- the time events ----------

  lemma AfterStart(time: nat)
    requires time <= 10
    ensures Clock.FromNow(0, time, 1) == time + 1
  {
  }

  method Put(events: TimeEventHeap.TimeEvents, e: Clock.TMEVTB, time: nat)
    requires events.Valid() && events.Trailing() && events.num < events.heap.Length && e !in events.Registered()
    requires events.State() == Clock.START && time <= 10
    modifies events, events.heap, events.Registered(), e
    ensures events.Valid() && events.Trailing() && events.State() == Clock.START && events.num == old(events.num) + 1
    ensures events.Registered() == old(events.Registered()) + {e} && e.evttim == time + 1
    ensures forall x :: x in old(events.Registered()) ==> x.evttim == old(x.evttim)
  {
    AfterStart(time);
    events.Register(e, time, 1);
  }

  method OneEvent(e0: Clock.TMEVTB) returns (events: TimeEventHeap.TimeEvents)
    modifies e0
    ensures fresh(events) && fresh(events.heap) && events.heap.Length == 2
    ensures events.Valid() && events.Trailing() && events.State() == Clock.START && events.num == 1
    ensures events.Registered() == {e0} && e0.evttim == 2
  {
    events := new TimeEventHeap.TimeEvents(2, e0, Clock.Unbounded);
    Put(events, e0, 1);
  }

  /** A heap with two events, due 2 and 10 after the start. */
  method TwoEvents() returns (events: TimeEventHeap.TimeEvents, e0: Clock.TMEVTB, e1: Clock.TMEVTB)
    ensures fresh(events) && events.Valid() && events.Trailing() && events.State() == Clock.START && events.num == 2
    ensures events.Registered() == {e0, e1} && e0.evttim == 2 && e1.evttim == 10
  {
    e0 := new Clock.TMEVTB(0);
    e1 := new Clock.TMEVTB(0);
    events := OneEvent(e0);
    Put(events, e1, 9);
  }

  lemma StartKeys()
    ensures Clock.Advance(2, Clock.START.boundary) == 200_000_002
    ensures Clock.Advance(10, Clock.START.boundary) == 200_000_010
  {
  }

  /** An event that is more than the margin late when the time is updated is left behind the
      boundary; the heap is then out of order, since the event counts as the latest one. */
  method LateEventBreaksOrder() returns (events: TimeEventHeap.TimeEvents)
    ensures fresh(events) && events.num == 2 <= events.heap.Length && !events.Valid()
  {
    var e0, e1;
    events, e0, e1 := TwoEvents();
    StartKeys();
    assert events.Key(e0) == 200_000_002 && events.Key(e1) == 200_000_010;
    events.UpdateCurrentEvttim(200_000_005);
  }

  /** A cyclic event with the longest period, started after the longest delay, cannot be
      registered a second time. */
  lemma LongPeriodOverflows()
    ensures Clock.Repeated(4_000_000_000, 4_000_000_000, 1).None?
  {
    Clock.OnceRepeated(4_000_000_000, 4_000_000_000);
  }
}
