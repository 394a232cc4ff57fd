/** The alarm of the high-resolution timer over whole runs. The kernel sets it when it has
    started, at the end of its timer interrupt, when the time is adjusted, and when the event
    at the top of the heap comes or goes. In between it keeps an older alarm; the theorem says
    that this is never too late. */
module EventAlarm {
  import opened EventClock

  /** When the interrupt comes, in real time. */
  datatype Armed = Never | At(time: int)

  function ArmedAt(a: Alarm, now: int): Armed {
    match a
    case Cleared => Never
    case AtOnce => At(now)
    case After(delay) => At(now + delay)
  }

  /** What the kernel does about the alarm in a step. */
  datatype Choice = Keeps | Sets(alarm: Alarm)

  /** What set_hrt_event asks for: it looks at an event that none is earlier than. */
  ghost predicate AlarmSet(t: Timer, bound: Bound, a: Alarm) {
    if t.events == map[] then a == NoEventAlarm(bound)
    else exists top :: top in t.events && IsTop(t, t.events[top]) && a == EventAlarmFor(t, top, bound)
  }

  /** Some event is not later than u. */
  ghost predicate NotFirst(t: Timer, u: Evttim) {
    exists i :: i in t.events && Le(t.events[i], u, t.clock.boundary)
  }

  /** Outside the interrupt the alarm is kept when the step leaves the top of the heap in place:
      an event comes in behind another one, or goes, or the time is not moved by force. */
  ghost predicate MayKeep(t: Timer, e: Step)
    requires Legal(t, e)
  {
    match e
    case Elapse(_) => true
    case Adjust(adjtim, top) => Refused(t, adjtim, top)
    case SetTime(_) => true
    case Register(_, time, tstep) => NotFirst(t, FromNow(t.clock.current, time, tstep))
    case Remove(_) => true
    case Repeat(_, _) => false
  }

  /** The event is registered, and one that is not at the top afterwards is behind another. */
  ghost predicate Registering(t: Timer, id: TMEVTB, time: nat, tstep: nat, t': Timer, first: bool) {
    && Legal(t, Register(id, time, tstep)) && t' == Stepped(t, Register(id, time, tstep))
    && if first then IsTop(t', t'.events[id]) else MayKeep(t, Register(id, time, tstep))
  }

  /** tmevtb_enqueue_reltim leads from t to t': it updates the time and registers the event. */
  ghost predicate Enqueued(t: Timer, id: TMEVTB, time: nat, tstep: nat, advance: Evttim, t': Timer, first: bool) {
    Registering(Stepped(t, Elapse(advance)), id, time, tstep, t', first)
  }

  /** The event is then due the step and the time asked for after the updated current time, and no
      other event is touched. */
  lemma EnqueuedExactly(t: Timer, id: TMEVTB, time: nat, tstep: nat, advance: Evttim, t': Timer, first: bool)
    requires Enqueued(t, id, time, tstep, advance, t', first)
    ensures id !in t.events && t'.events.Keys == t.events.Keys + {id}
    ensures t'.clock.current == (t.clock.current + advance) % 0x1_0000_0000
    ensures t'.events[id] == (t.clock.current + advance + tstep + time) % 0x1_0000_0000
    ensures forall i :: i in t.events ==> t'.events[i] == t.events[i]
  {
    WrappedMoves(t.clock.current + advance, tstep + time);
  }

  /** `busy` says that the kernel, after the step, is still in its initialisation or in the
      timer interrupt, at the end of which it sets the alarm. */
  ghost predicate AlarmStep(t: Timer, e: Step, wasBusy: bool, busy: bool, choice: Choice, bound: Bound,
                            now: int, a: Armed, a': Armed)
    requires Legal(t, e)
  {
    var t' := Stepped(t, e);
    match choice
    case Keeps => a' == a && (busy || (!wasBusy && MayKeep(t, e)))
    case Sets(alarm) => AlarmSet(t', bound, alarm) && a' == ArmedAt(alarm, now)
  }

  /** A run of the clock with the alarm: it starts during initialisation, with no alarm. */
  ghost predicate AlarmRuns(ts: seq<Timer>, es: seq<Step>, busy: seq<bool>, cs: seq<Choice>, bound: Bound, alarms: seq<Armed>)
  {
    && Runs(ts, es) && |cs| == |es| && |busy| == |alarms| == |es| + 1 && busy[0]
    && forall i :: 0 <= i < |es| ==>
         AlarmStep(ts[i], es[i], busy[i], busy[i + 1], cs[i], bound, WorldAfter(es[..i + 1]).now, alarms[i], alarms[i + 1])
  }

  /** The interrupt has come by now, or will come before any event is late. */
  ghost predicate InGoodTime(w: World, a: Armed) {
    && (w.due != map[] ==> a.At?)
    && (a.At? && a.time > w.now ==> forall i :: i in w.due ==> a.time <= w.due[i])
  }

  lemma SetInGoodTime(t: Timer, w: World, bound: Bound, a: Alarm)
    requires Tracks(t, w) && AlarmSet(t, bound, a)
    ensures InTime(w, a, bound) && InGoodTime(w, ArmedAt(a, w.now))
  {
    if t.events == map[] {
      assert w.due.Keys == {};
    } else {
      var top :| top in t.events && IsTop(t, t.events[top]) && a == EventAlarmFor(t, top, bound);
      AlarmTracks(t, w, top, bound);
    }
  }

  lemma BehindInGoodTime(t: Timer, w: World, e: Step, a: Armed)
    requires Tracks(t, w) && e.Register? && Legal(t, e) && MayKeep(t, e) && InGoodTime(w, a)
    ensures InGoodTime(SteppedWorld(w, e), a)
  {
    var due := w.now + e.tstep + e.time;
    WrappedMoves(w.now, e.tstep + e.time);
    var i :| i in t.events && Le(t.events[i], FromNow(t.clock.current, e.time, e.tstep), t.clock.boundary);
    assert i in w.due;
    ComparisonsAreReal(t.clock, w, w.due[i], due);
  }

  /** A kept alarm stays in good time. */
  lemma KeptInGoodTime(t: Timer, w: World, e: Step, a: Armed)
    requires Tracks(t, w) && Legal(t, e) && MayKeep(t, e) && InGoodTime(w, a)
    ensures InGoodTime(SteppedWorld(w, e), a)
  {
    match e
    case Adjust(_, _) => RefusalIsReal(t, w, e);
    case Register(_, _, _) => BehindInGoodTime(t, w, e, a);
    case _ =>
  }

  /** Whenever the kernel is neither initialising nor in the timer interrupt, the alarm is in
      good time: re-arming only for the event at the top is enough. */
  lemma {:induction false} AlarmNeverLate(ts: seq<Timer>, es: seq<Step>, busy: seq<bool>, cs: seq<Choice>, bound: Bound,
                                          alarms: seq<Armed>, n: nat)
    requires AlarmRuns(ts, es, busy, cs, bound, alarms) && PunctualRun(es) && n <= |es| && !busy[n]
    ensures InGoodTime(WorldAfter(es[..n]), alarms[n])
  {
    if n == 0 {
      assert false;
    } else {
      var m := n - 1;
      var w := WorldAfter(es[..m]);
      assert es[..n][..m] == es[..m] && es[..n] == es[..m + 1];
      assert AlarmStep(ts[m], es[m], busy[m], busy[m + 1], cs[m], bound, WorldAfter(es[..m + 1]).now, alarms[m], alarms[m + 1]);
      RunTracks(ts, es, m);
      RunTracks(ts, es, n);
      if cs[m].Keeps? {
        AlarmNeverLate(ts, es, busy, cs, bound, alarms, m);
        KeptInGoodTime(ts[m], w, es[m], alarms[m]);
      } else {
        SetInGoodTime(ts[n], WorldAfter(es[..n]), bound, cs[m].alarm);
      }
    }
  }

  /** At the moment it is set, the alarm comes at once if and only if an event is due; otherwise
      it never comes after an event is due, and before the first is due only when the timer
      cannot wait that long. */
  lemma AlarmIsInTime(ts: seq<Timer>, es: seq<Step>, n: nat, bound: Bound, a: Alarm)
    requires Runs(ts, es) && PunctualRun(es) && n <= |es| && AlarmSet(ts[n], bound, a)
    ensures InTime(WorldAfter(es[..n]), a, bound)
  {
    RunTracks(ts, es, n);
    SetInGoodTime(ts[n], WorldAfter(es[..n]), bound, a);
  }
}
