/** The event clock of the kernel: 32-bit event times that wrap around, compared
    relative to a boundary that trails the current time, and the 64-bit system
    time kept on top of them. A world of unbounded times runs beside the clock;
    the theorems say that the wrapping clock never disagrees with it. */
module EventClock {
  import opened Basics
  import Rings

  const WRAP: nat := 0x1_0000_0000
  const SYSTIM_WRAP: nat := 0x1_0000_0000_0000_0000

  const BOUNDARY_MARGIN: int := 200_000_000
  const TMAX_RELTIM: nat := 4_000_000_000
  const TMAX_ADJTIM: int := 1_000_000
  const TSTEP_LIMIT: nat := 4000

  type Evttim = t: nat | t < WRAP

  function Wrapped(x: int): Evttim { x % WRAP }

  // ---------- comparing event times ----------

  /** EVTTIM_ADVANCE, EVTTIM_LT and EVTTIM_LE. */
  function Advance(t: Evttim, boundary: Evttim): Evttim {
    if boundary <= t then t - boundary else t - boundary + WRAP
  }

  predicate Lt(t: Evttim, u: Evttim, boundary: Evttim) { Advance(t, boundary) < Advance(u, boundary) }

  predicate Le(t: Evttim, u: Evttim, boundary: Evttim) { Advance(t, boundary) <= Advance(u, boundary) }

  // ---------- the clock ----------

  datatype Clock = Clock(current: Evttim, boundary: Evttim, monotonic: Evttim, offset: nat)

  const START: Clock := Clock(0, Wrapped(-BOUNDARY_MARGIN), 0, 0)

  /** update_current_evttim, when the counter advanced by d; adj_tim by a positive d is the same. */
  function Forward(c: Clock, d: Evttim): Clock {
    var current := Wrapped(c.current + d);
    var overtakes := Wrapped(c.monotonic - c.current) < d;
    Clock(current, Wrapped(current - BOUNDARY_MARGIN),
          if overtakes then current else c.monotonic,
          if overtakes && current < c.monotonic then (c.offset + WRAP) % SYSTIM_WRAP else c.offset)
  }

  /** adj_tim by -d, not positive. */
  function Backward(c: Clock, d: Evttim): Clock {
    var current := Wrapped(c.current - d);
    c.(current := current, boundary := Wrapped(current - BOUNDARY_MARGIN))
  }

  function Adjusted(c: Clock, adjtim: int): Clock
    requires -TMAX_ADJTIM <= adjtim <= TMAX_ADJTIM
  {
    if adjtim > 0 then Forward(c, adjtim) else Backward(c, -adjtim)
  }

  /** calc_current_evttim_ub, and the time after that. */
  function FromNow(current: Evttim, time: nat, tstep: nat): Evttim { Wrapped(current + tstep + time) }

  datatype Option<T> = None | Some(value: T)

  /** callCyclic, n times: the period is added with the operator that does not wrap around, so
      there is no result once the sum is beyond 32 bits. */
  function Repeated(t: Evttim, cycle: nat, n: nat): Option<Evttim> {
    if n == 0 then Some(t)
    else
      var u := Repeated(t, cycle, n - 1);
      if u.None? || u.value + cycle >= WRAP then None else Some(u.value + cycle)
  }

  function SetTim(c: Clock, systim: nat): Clock { c.(offset := (systim - c.monotonic) % SYSTIM_WRAP) }

  function GetTim(c: Clock): nat { (c.offset + c.monotonic) % SYSTIM_WRAP }

  /** How far the counter advanced; cycle is its period, or WRAP when it uses all 32 bits. */
  function CounterAdvance(now: Evttim, before: Evttim, cycle: nat): Evttim {
    Wrapped(now - before + if cycle < WRAP && now < before then cycle else 0)
  }

  /** A time event block; its callback plays no part here. */
  class TMEVTB {
    var evttim: Evttim
    var index: nat

    constructor (t: Evttim)
      ensures evttim == t
    {
      evttim, index := t, 0;
    }
  }

  datatype Ercd = E_OK | E_PAR | E_OBJ

  /** The clock with the registered events and their times. */
  datatype Timer = Timer(clock: Clock, events: map<TMEVTB, Evttim>)

  datatype Step =
    | Elapse(d: Evttim)                        // update_current_evttim
    | Adjust(adjtim: int, top: TMEVTB)            // adj_tim, with the event at the top of the heap
    | SetTime(systim: nat)
    | Register(id: TMEVTB, time: nat, tstep: nat) // tmevtb_enqueue_reltim, after its update
    | Remove(id: TMEVTB)                          // dequeued, or fired
    | Repeat(id: TMEVTB, cycle: nat)              // fired, and registered again by callCyclic

  ghost predicate IsTop(t: Timer, e: Evttim) {
    forall i :: i in t.events ==> Le(e, t.events[i], t.clock.boundary)
  }

  /** What the callers and the heap guarantee. */
  ghost predicate Legal(t: Timer, e: Step) {
    match e
    case Elapse(_) => true
    case Adjust(adjtim, top) =>
      && -TMAX_ADJTIM <= adjtim <= TMAX_ADJTIM
      && (t.events != map[] ==> top in t.events && IsTop(t, t.events[top]))
    case SetTime(_) => true
    case Register(id, time, tstep) => id !in t.events && time <= TMAX_RELTIM && tstep <= TSTEP_LIMIT
    case Remove(id) => id in t.events
    case Repeat(id, cycle) =>
      id in t.events && Le(t.events[id], t.clock.current, t.clock.boundary) && cycle <= TMAX_RELTIM
      && Repeated(t.events[id], cycle, 1).Some?
  }

  /** check_adjtim: true when the adjustment is refused. */
  predicate Refused(t: Timer, adjtim: int, top: TMEVTB)
    requires t.events != map[] ==> top in t.events
  {
    if adjtim > 0 then
      t.events != map[] && Le(Wrapped(t.events[top] + TMAX_ADJTIM), t.clock.current, t.clock.boundary)
    else adjtim < 0 && Wrapped(t.clock.monotonic - t.clock.current) >= TMAX_ADJTIM
  }

  function Stepped(t: Timer, e: Step): Timer
    requires Legal(t, e)
  {
    match e
    case Elapse(d) => t.(clock := Forward(t.clock, d))
    case Adjust(adjtim, top) =>
      if Refused(t, adjtim, top) then t
      else t.(clock := Adjusted(t.clock, adjtim))
    case SetTime(systim) => t.(clock := SetTim(t.clock, systim))
    case Register(id, time, tstep) => t.(events := t.events[id := FromNow(t.clock.current, time, tstep)])
    case Remove(id) => t.(events := t.events - {id})
    case Repeat(id, cycle) => t.(events := t.events[id := Repeated(t.events[id], cycle, 1).value])
  }

  function AdjustStep(t: Timer, adjtim: int, top: TMEVTB): (Timer, Ercd)
    requires Legal(t, Adjust(adjtim, top))
  {
    (Stepped(t, Adjust(adjtim, top)), if Refused(t, adjtim, top) then E_OBJ else E_OK)
  }

  /** The adjustment is a step from t to t', and its result says whether it was refused. */
  ghost predicate Adjusting(t: Timer, adjtim: int, top: TMEVTB, t': Timer, ercd: Ercd) {
    Legal(t, Adjust(adjtim, top)) && (t', ercd) == AdjustStep(t, adjtim, top)
  }

  /** The adjustment is legal, and `refused` says whether it is refused. */
  ghost predicate Decided(t: Timer, adjtim: int, top: TMEVTB, refused: bool) {
    Legal(t, Adjust(adjtim, top)) && (refused <==> Refused(t, adjtim, top))
  }

  lemma AdjustingClock(t: Timer, adjtim: int, top: TMEVTB, refused: bool, t': Timer, ercd: Ercd)
    requires Decided(t, adjtim, top, refused) && t'.events == t.events
    requires t'.clock == (if refused then t.clock else Adjusted(t.clock, adjtim)) && ercd == if refused then E_OBJ else E_OK
    ensures Adjusting(t, adjtim, top, t', ercd)
  {
  }

  lemma RegisterStep(t: Timer, id: TMEVTB, time: nat, tstep: nat, t': Timer)
    requires Legal(t, Register(id, time, tstep)) && t'.clock == t.clock
    requires t'.events == t.events[id := FromNow(t.clock.current, time, tstep)]
    ensures t' == Stepped(t, Register(id, time, tstep))
  {
  }

  lemma RemoveStep(t: Timer, id: TMEVTB, t': Timer)
    requires Legal(t, Remove(id)) && t'.clock == t.clock && t'.events == t.events - {id}
    ensures t' == Stepped(t, Remove(id))
  {
  }

  /** adj_tim, with its update and its parameter check. */
  ghost predicate AdjTimStep(t: Timer, adjtim: int, advance: Evttim, top: TMEVTB, t': Timer, ercd: Ercd) {
    if -TMAX_ADJTIM <= adjtim <= TMAX_ADJTIM then Adjusting(Stepped(t, Elapse(advance)), adjtim, top, t', ercd)
    else t' == t && ercd == E_PAR
  }

  // ---------- the world ----------

  /** Unbounded times: now, the highest now so far, what to add to that for the
      system time, and when each event is due. */
  datatype World = World(now: int, high: int, base: int, due: map<TMEVTB, int>)

  function Moved(w: World, d: int): World { w.(now := w.now + d, high := Max(w.high, w.now + d)) }

  ghost predicate RefusedInWorld(w: World, adjtim: int) {
    if adjtim > 0 then exists i :: i in w.due && w.due[i] + TMAX_ADJTIM <= w.now
    else adjtim < 0 && w.high - w.now >= TMAX_ADJTIM
  }

  ghost function SteppedWorld(w: World, e: Step): World {
    match e
    case Elapse(d) => Moved(w, d)
    case Adjust(adjtim, _) => if RefusedInWorld(w, adjtim) then w else Moved(w, adjtim)
    case SetTime(systim) => w.(base := systim - w.high)
    case Register(id, time, tstep) => w.(due := w.due[id := w.now + tstep + time])
    case Remove(id) => w.(due := w.due - {id})
    case Repeat(id, cycle) => if id in w.due then w.(due := w.due[id := w.due[id] + cycle]) else w
  }

  /** No event is left more than the margin behind when time elapses. */
  ghost predicate Punctual(w: World, e: Step) {
    e.Elapse? ==> forall i :: i in w.due ==> w.now + e.d <= w.due[i] + BOUNDARY_MARGIN
  }

  // ---------- the clock agrees with the world ----------

  /** The times that 32 bits can tell apart at the moment now. */
  predicate InWindow(now: int, due: int) { now - BOUNDARY_MARGIN <= due < now - BOUNDARY_MARGIN + WRAP }

  /** The latest that an event can be due, by the limits on relative times. */
  predicate InReach(w: World, due: int) { w.now - BOUNDARY_MARGIN <= due <= w.high + TSTEP_LIMIT + TMAX_RELTIM }

  /** The system time read is the base and the highest time, as far as 64 bits go. */
  predicate Reads(c: Clock, w: World) { GetTim(c) == (w.base + w.high) % SYSTIM_WRAP }

  predicate ClockTracks(c: Clock, w: World) {
    && 0 <= w.high - w.now < 2 * TMAX_ADJTIM
    && c.current == Wrapped(w.now)
    && c.boundary == Wrapped(w.now - BOUNDARY_MARGIN)
    && c.monotonic == Wrapped(w.high)
    && c.offset < SYSTIM_WRAP && Reads(c, w)
  }

  ghost predicate Tracks(t: Timer, w: World) {
    && ClockTracks(t.clock, w)
    && t.events.Keys == w.due.Keys
    && forall i :: i in w.due ==> InReach(w, w.due[i]) && t.events[i] == Wrapped(w.due[i])
  }

  lemma WrappedDiffers(a: int, b: int, n: nat)
    requires a - b == n < WRAP
    ensures Wrapped(Wrapped(a) - Wrapped(b)) == n
  {
  }

  lemma AdvanceWraps(t: Evttim, boundary: Evttim)
    ensures Advance(t, boundary) == Wrapped(t - boundary)
  {
  }

  /** The distance from the boundary, and with it the comparisons, are those of the world. */
  lemma AdvanceIsDistance(c: Clock, w: World, due: int)
    requires ClockTracks(c, w) && InWindow(w.now, due)
    ensures Advance(Wrapped(due), c.boundary) == due - (w.now - BOUNDARY_MARGIN)
  {
    WrappedDiffers(due, w.now - BOUNDARY_MARGIN, due - (w.now - BOUNDARY_MARGIN));
    AdvanceWraps(Wrapped(due), c.boundary);
  }

  lemma ComparisonsAreReal(c: Clock, w: World, due: int, due': int)
    requires ClockTracks(c, w) && InWindow(w.now, due) && InWindow(w.now, due')
    ensures Lt(Wrapped(due), Wrapped(due'), c.boundary) <==> due < due'
    ensures Le(Wrapped(due), Wrapped(due'), c.boundary) <==> due <= due'
  {
    AdvanceIsDistance(c, w, due);
    AdvanceIsDistance(c, w, due');
  }

  /** A counter with any period is read right when less than one period has passed. */
  lemma CounterAdvanceIsElapsed(before: Evttim, elapsed: nat, cycle: nat)
    requires before < cycle <= WRAP && elapsed < cycle
    ensures CounterAdvance((before + elapsed) % cycle, before, cycle) == elapsed
  {
    var x := before + elapsed;
    Rings.Modulo(x, if x < cycle then x else x - cycle, cycle);
  }

  lemma WrappedMoves(a: int, d: int)
    ensures Wrapped(Wrapped(a) + d) == Wrapped(a + d)
  {
  }

  /** When the boundary moves on by d, what it passes becomes the latest. */
  lemma AdvanceShifts(t: Evttim, boundary: Evttim, d: Evttim)
    ensures var a := Advance(t, boundary);
      Advance(t, Wrapped(boundary + d)) == if a < d then a - d + WRAP else a - d
  {
  }

  /** An event whose time TMAX_ADJTIM later is not reached is nowhere near the boundary. */
  lemma LateTop(t: Evttim, current: Evttim)
    requires var b := Wrapped(current - BOUNDARY_MARGIN);
      Advance(t, b) < WRAP - TMAX_ADJTIM && !Le(Wrapped(t + TMAX_ADJTIM), current, b)
    ensures TMAX_ADJTIM <= Advance(t, Wrapped(current - BOUNDARY_MARGIN))
  {
  }

  lemma BoundaryFollows(current: Evttim, d: int)
    ensures Wrapped(Wrapped(current + d) - BOUNDARY_MARGIN) == Wrapped(Wrapped(current - BOUNDARY_MARGIN) + d)
  {
    WrappedMoves(current + d, 0 - BOUNDARY_MARGIN);
    WrappedMoves(current - BOUNDARY_MARGIN, d);
  }

  lemma WholeWrap(x: int)
    ensures Wrapped(x + WRAP) == Wrapped(x)
  {
  }

  /** Moving the boundary back by d is moving it ahead by what is left of a wrap. */
  lemma BoundaryGoesBack(current: Evttim, boundary: Evttim, d: Evttim)
    requires boundary == Wrapped(current - BOUNDARY_MARGIN)
    ensures Wrapped(Wrapped(current - d) - BOUNDARY_MARGIN) == Wrapped(boundary + if d == 0 then 0 else WRAP - d)
  {
    BoundaryFollows(current, 0 - d);
    WholeWrap(boundary - d);
  }

  /** Wherever the time moves, the current time and the boundary follow. */
  lemma PositionTracks(now: int, d: int)
    ensures Wrapped(Wrapped(now) + d) == Wrapped(now + d)
    ensures Wrapped(Wrapped(Wrapped(now) + d) - BOUNDARY_MARGIN) == Wrapped(now + d - BOUNDARY_MARGIN)
  {
    WrappedMoves(now, d);
    WrappedMoves(now + d, -BOUNDARY_MARGIN);
  }

  /** The highest time grows by less than one wrap, so one carry is enough. */
  lemma HighWraps(high: int, high': int)
    requires high < high' < high + WRAP
    ensures Wrapped(high') - Wrapped(high) == high' - high - if Wrapped(high') < Wrapped(high) then WRAP else 0
  {
  }

  lemma OffsetFollows(a: int, b: int, x: int, d: int)
    requires a % SYSTIM_WRAP == x % SYSTIM_WRAP
    requires b == a + d || b == a + d - SYSTIM_WRAP
    ensures b % SYSTIM_WRAP == (x + d) % SYSTIM_WRAP
  {
  }

  /** A new highest time carries into the offset exactly when it wraps. */
  lemma OffsetTracks(c: Clock, w: World, d: Evttim)
    requires ClockTracks(c, w) && w.high - w.now < d
    requires Wrapped(c.monotonic - c.current) < d && Forward(c, d).current == Wrapped(w.now + d)
    ensures GetTim(Forward(c, d)) == (w.base + (w.now + d)) % SYSTIM_WRAP
  {
    var c' := Forward(c, d);
    HighWraps(w.high, w.now + d);
    OffsetFollows(c.offset + c.monotonic, c'.offset + c'.monotonic, w.base + w.high, w.now + d - w.high);
  }

  lemma ForwardTracks(c: Clock, w: World, d: Evttim)
    requires ClockTracks(c, w)
    ensures ClockTracks(Forward(c, d), Moved(w, d))
  {
    PositionTracks(w.now, d);
    WrappedDiffers(w.high, w.now, w.high - w.now);
    if w.high - w.now < d {
      OffsetTracks(c, w, d);
    }
  }

  lemma BackwardTracks(c: Clock, w: World, d: Evttim)
    requires ClockTracks(c, w) && (d == 0 || w.high - w.now < TMAX_ADJTIM) && d <= TMAX_ADJTIM
    ensures ClockTracks(Backward(c, d), Moved(w, 0 - d))
  {
    PositionTracks(w.now, 0 - d);
  }

  lemma SameReading(x: int, d: int)
    ensures (x % SYSTIM_WRAP + d) % SYSTIM_WRAP == (x + d) % SYSTIM_WRAP
  {
  }

  /** By how much time moves when it is moved on: the current time by all of it, the system time by
      what goes beyond the highest time reached. */
  lemma MovingOn(c: Clock, w: World, d: Evttim)
    requires ClockTracks(c, w)
    ensures var lag := (c.monotonic - c.current) % 0x1_0000_0000;
      && Forward(c, d).current == (c.current + d) % 0x1_0000_0000
      && GetTim(Forward(c, d)) == (GetTim(c) + Max(0, d - lag)) % 0x1_0000_0000_0000_0000
  {
    var lag := (c.monotonic - c.current) % 0x1_0000_0000;
    WrappedDiffers(w.high, w.now, w.high - w.now);
    ForwardTracks(c, w, d);
    SameReading(w.base + w.high, Max(0, d - lag));
  }

  /** Moved back, the current time moves and the system time stays. */
  lemma MovingBack(c: Clock, d: Evttim)
    ensures Backward(c, d).current == (c.current - d) % 0x1_0000_0000 && GetTim(Backward(c, d)) == GetTim(c)
  {
  }

  lemma SetTimTracks(c: Clock, w: World, systim: nat)
    requires ClockTracks(c, w)
    ensures ClockTracks(SetTim(c, systim), w.(base := systim - w.high))
  {
  }

  /** The event at the top decides as the whole set of events would. */
  lemma RefusalIsReal(t: Timer, w: World, e: Step)
    requires Tracks(t, w) && e.Adjust? && Legal(t, e)
    ensures Refused(t, e.adjtim, e.top) <==> RefusedInWorld(w, e.adjtim)
  {
    WrappedDiffers(w.high, w.now, w.high - w.now);
    if e.adjtim > 0 && t.events != map[] {
      assert e.top in w.due;
      var due := w.due[e.top];
      WrappedMoves(due, TMAX_ADJTIM);
      ComparisonsAreReal(t.clock, w, due + TMAX_ADJTIM, w.now);
      forall i | i in w.due
        ensures due <= w.due[i]
      {
        ComparisonsAreReal(t.clock, w, due, w.due[i]);
      }
    }
  }

  /** No event is left behind the boundary exactly when none is nearer to it than time elapses. */
  lemma PunctualByKeys(t: Timer, w: World, d: Evttim)
    requires Tracks(t, w)
    ensures Punctual(w, Elapse(d)) <==> forall i :: i in t.events ==> d <= Advance(t.events[i], t.clock.boundary)
  {
    forall i | i in w.due
      ensures i in t.events && Advance(t.events[i], t.clock.boundary) == w.due[i] - (w.now - BOUNDARY_MARGIN)
    {
      AdvanceIsDistance(t.clock, w, w.due[i]);
    }
  }

  /** In a run, no event is so far ahead that an adjustment could bring it behind the boundary. */
  lemma ReachByKeys(t: Timer, w: World)
    requires Tracks(t, w)
    ensures forall i :: i in t.events ==> Advance(t.events[i], t.clock.boundary) < WRAP - TMAX_ADJTIM
  {
    forall i | i in w.due
      ensures i in t.events && Advance(t.events[i], t.clock.boundary) < WRAP - TMAX_ADJTIM
    {
      AdvanceIsDistance(t.clock, w, w.due[i]);
    }
  }

  lemma AdjustTracks(t: Timer, w: World, e: Step)
    requires Tracks(t, w) && e.Adjust? && Legal(t, e)
    ensures Tracks(Stepped(t, e), SteppedWorld(w, e))
  {
    RefusalIsReal(t, w, e);
    if !RefusedInWorld(w, e.adjtim) {
      if e.adjtim > 0 { ForwardTracks(t.clock, w, e.adjtim); }
      else { BackwardTracks(t.clock, w, -e.adjtim); }
    }
  }

  /** An event that is given the same time on both sides. */
  lemma EventTracks(t: Timer, w: World, id: TMEVTB, u: Evttim, due: int)
    requires Tracks(t, w) && InReach(w, due) && u == Wrapped(due)
    ensures Tracks(t.(events := t.events[id := u]), w.(due := w.due[id := due]))
  {
  }

  lemma FromNowTracks(c: Clock, w: World, time: nat, tstep: nat)
    requires ClockTracks(c, w) && time <= TMAX_RELTIM && tstep <= TSTEP_LIMIT
    ensures FromNow(c.current, time, tstep) == Wrapped(w.now + tstep + time) && InReach(w, w.now + tstep + time)
  {
    WrappedMoves(w.now, tstep + time);
  }

  lemma RegisterInWorld(w: World, id: TMEVTB, time: nat, tstep: nat)
    ensures SteppedWorld(w, Register(id, time, tstep)) == w.(due := w.due[id := w.now + tstep + time])
  {
  }

  /** The time given to a registered event, and when it is due. */
  lemma NewEvent(t: Timer, w: World, e: Step) returns (u: Evttim, due: int)
    requires ClockTracks(t.clock, w) && e.Register? && Legal(t, e)
    ensures InReach(w, due) && u == Wrapped(due)
    ensures Stepped(t, e) == t.(events := t.events[e.id := u])
    ensures SteppedWorld(w, e) == w.(due := w.due[e.id := due])
  {
    RegisterInWorld(w, e.id, e.time, e.tstep);
    RegisterStep(t, e.id, e.time, e.tstep, t.(events := t.events[e.id := FromNow(t.clock.current, e.time, e.tstep)]));
    FromNowTracks(t.clock, w, e.time, e.tstep);
    u, due := FromNow(t.clock.current, e.time, e.tstep), w.now + e.tstep + e.time;
  }

  lemma RegisterTracks(t: Timer, w: World, e: Step)
    requires Tracks(t, w) && e.Register? && Legal(t, e)
    ensures Tracks(Stepped(t, e), SteppedWorld(w, e))
  {
    var u, due := NewEvent(t, w, e);
    EventTracks(t, w, e.id, u, due);
  }

  lemma OnceRepeated(t: Evttim, cycle: nat)
    ensures Repeated(t, cycle, 1) == if t + cycle < WRAP then Some(t + cycle) else None
  {
    assert Repeated(t, cycle, 0) == Some(t);
  }

  lemma NoWrap(x: int, d: nat)
    requires Wrapped(x) + d < WRAP
    ensures Wrapped(x + d) == Wrapped(x) + d
  {
  }

  lemma RepeatTracks(t: Timer, w: World, e: Step)
    requires Tracks(t, w) && e.Repeat? && Legal(t, e)
    ensures Tracks(Stepped(t, e), SteppedWorld(w, e))
  {
    assert e.id in w.due;
    var u, due := t.events[e.id], w.due[e.id];
    OnceRepeated(u, e.cycle);
    ComparisonsAreReal(t.clock, w, due, w.now);
    NoWrap(due, e.cycle);
    EventTracks(t, w, e.id, u + e.cycle, due + e.cycle);
  }

  /** A cyclic event can be repeated n times if and only if its last time, counted without
      wrapping from its first one, is within 32 bits. */
  lemma {:induction false} RepetitionsExactly(t: Evttim, cycle: nat, n: nat)
    ensures Repeated(t, cycle, n).Some? <==> t + n * cycle < WRAP
    ensures Repeated(t, cycle, n).Some? ==> Repeated(t, cycle, n).value == t + n * cycle
  {
    if n == 0 {
      assert n * cycle == 0;
    } else {
      RepetitionsExactly(t, cycle, n - 1);
      assert n * cycle == (n - 1) * cycle + cycle;
    }
  }

  lemma StepTracks(t: Timer, w: World, e: Step)
    requires Tracks(t, w) && Legal(t, e) && Punctual(w, e)
    ensures Tracks(Stepped(t, e), SteppedWorld(w, e))
  {
    match e
    case Elapse(d) => ForwardTracks(t.clock, w, d);
    case Adjust(_, _) => AdjustTracks(t, w, e);
    case SetTime(systim) => SetTimTracks(t.clock, w, systim);
    case Register(_, _, _) => RegisterTracks(t, w, e);
    case Remove(_) =>
    case Repeat(_, _) => RepeatTracks(t, w, e);
  }

  /** adj_tim, in real times: out of a second's range it is an error and nothing happens; otherwise
      the time is updated, and it is refused exactly when it goes ahead while some event is a second
      late, or back while the time is a second behind its highest. If it is not, the current
      time moves by it, and no event does. */
  lemma AdjustmentExactly(t: Timer, w: World, adjtim: int, advance: Evttim, top: TMEVTB, t': Timer, ercd: Ercd)
    requires Tracks(t, w) && Punctual(w, Elapse(advance)) && AdjTimStep(t, adjtim, advance, top, t', ercd)
    ensures ercd == E_PAR <==> !(-1_000_000 <= adjtim <= 1_000_000)
    ensures var now, high := w.now + advance, Max(w.high, w.now + advance);
      ercd == E_OBJ <==>
        || (0 < adjtim <= 1_000_000 && exists i :: i in w.due && w.due[i] + 1_000_000 <= now)
        || (-1_000_000 <= adjtim < 0 && high - now >= 1_000_000)
    ensures t'.events == t.events
    ensures t'.clock.current == (w.now + (if ercd == E_PAR then 0 else advance) + (if ercd == E_OK then adjtim else 0)) % 0x1_0000_0000
  {
    if -TMAX_ADJTIM <= adjtim <= TMAX_ADJTIM {
      var u, v := Stepped(t, Elapse(advance)), Moved(w, advance);
      StepTracks(t, w, Elapse(advance));
      RefusalIsReal(u, v, Adjust(adjtim, top));
      WrappedMoves(v.now, adjtim);
    }
  }

  // ---------- over whole runs ----------

  ghost predicate Runs(ts: seq<Timer>, es: seq<Step>) {
    && |ts| == |es| + 1 && ts[0] == Timer(START, map[])
    && forall i :: 0 <= i < |es| ==> Legal(ts[i], es[i]) && ts[i + 1] == Stepped(ts[i], es[i])
  }

  ghost function WorldAfter(es: seq<Step>): World {
    if es == [] then World(0, 0, 0, map[])
    else SteppedWorld(WorldAfter(es[..|es| - 1]), es[|es| - 1])
  }

  ghost predicate PunctualRun(es: seq<Step>) {
    forall i :: 0 <= i < |es| ==> Punctual(WorldAfter(es[..i]), es[i])
  }

  lemma {:induction false} RunTracks(ts: seq<Timer>, es: seq<Step>, n: nat)
    requires Runs(ts, es) && PunctualRun(es) && n <= |es|
    ensures Tracks(ts[n], WorldAfter(es[..n]))
  {
    if n > 0 {
      RunTracks(ts, es, n - 1);
      assert es[..n][..n - 1] == es[..n - 1];
      StepTracks(ts[n - 1], WorldAfter(es[..n - 1]), es[n - 1]);
    } else {
      assert es[..0] == [];
    }
  }

  /** Throughout a run in which no event is left behind, the 32-bit comparison
      of any two registered events is the order in which they are really due. */
  lemma EventsCompareAsDue(ts: seq<Timer>, es: seq<Step>, n: nat, i: TMEVTB, j: TMEVTB)
    requires Runs(ts, es) && PunctualRun(es) && n <= |es|
    requires i in ts[n].events && j in ts[n].events
    ensures var w := WorldAfter(es[..n]);
      && i in w.due && j in w.due
      && (Lt(ts[n].events[i], ts[n].events[j], ts[n].clock.boundary) <==> w.due[i] < w.due[j])
  {
    RunTracks(ts, es, n);
    var w := WorldAfter(es[..n]);
    assert i in w.due && j in w.due;
    ComparisonsAreReal(ts[n].clock, w, w.due[i], w.due[j]);
  }

  /** An event is found due exactly when its real time has come. */
  lemma DueWhenItsTimeHasCome(ts: seq<Timer>, es: seq<Step>, n: nat, i: TMEVTB)
    requires Runs(ts, es) && PunctualRun(es) && n <= |es| && i in ts[n].events
    ensures var w := WorldAfter(es[..n]);
      && i in w.due
      && (Le(ts[n].events[i], ts[n].clock.current, ts[n].clock.boundary) <==> w.due[i] <= w.now)
  {
    RunTracks(ts, es, n);
    var w := WorldAfter(es[..n]);
    assert i in w.due;
    ComparisonsAreReal(ts[n].clock, w, w.due[i], w.now);
  }

  // ---------- the remaining time and the alarm ----------

  /** tmevt_lefttim, after its update. */
  function LeftTime(t: Timer, id: TMEVTB, tstep: nat): nat
    requires id in t.events
  {
    var ub := Wrapped(t.clock.current + tstep);
    if Le(t.events[id], ub, t.clock.boundary) then 0 else Wrapped(t.events[id] - ub)
  }

  lemma LeftTimeTracks(t: Timer, w: World, i: TMEVTB, tstep: nat)
    requires Tracks(t, w) && i in w.due && tstep <= TSTEP_LIMIT
    ensures LeftTime(t, i, tstep) == Max(0, w.due[i] - (w.now + tstep))
  {
    WrappedMoves(w.now, tstep);
    ComparisonsAreReal(t.clock, w, w.due[i], w.now + tstep);
    if w.due[i] > w.now + tstep {
      WrappedDiffers(w.due[i], w.now + tstep, w.due[i] - (w.now + tstep));
    }
  }

  /** The time left is the real one, rounded up to whole steps of the counter and never negative. */
  lemma LeftTimeIsReal(ts: seq<Timer>, es: seq<Step>, n: nat, i: TMEVTB, tstep: nat)
    requires Runs(ts, es) && PunctualRun(es) && n <= |es| && i in ts[n].events && tstep <= TSTEP_LIMIT
    ensures var w := WorldAfter(es[..n]);
      && i in w.due
      && LeftTime(ts[n], i, tstep) == Max(0, w.due[i] - (w.now + tstep))
  {
    RunTracks(ts, es, n);
    assert i in WorldAfter(es[..n]).due;
    LeftTimeTracks(ts[n], WorldAfter(es[..n]), i, tstep);
  }

  /** What set_hrt_event asks of the timer: no interrupt, one at once, or one after a delay. */
  datatype Alarm = Cleared | AtOnce | After(delay: nat)

  /** HRTCNT_BOUND, the longest delay the timer takes, if it has one. */
  datatype Bound = Unbounded | Bounded(limit: nat)

  /** set_hrt_event, after an update, without events. */
  function NoEventAlarm(bound: Bound): Alarm { if bound.Unbounded? then Cleared else After(bound.limit) }

  /** The same, with the event at the top of the heap. */
  function EventAlarmFor(t: Timer, top: TMEVTB, bound: Bound): Alarm
    requires top in t.events
  {
    if Le(t.events[top], t.clock.current, t.clock.boundary) then AtOnce
    else
      var hrtcnt := Wrapped(t.events[top] - t.clock.current);
      if bound.Unbounded? || hrtcnt <= bound.limit then After(hrtcnt) else After(bound.limit)
  }

  /** The alarm comes at once when an event is due already; otherwise never after an event
      is due, and before the first is due only when the timer cannot wait that long. It is never
      later than the timer can wait, and there is none only if the timer needs none. */
  ghost predicate InTime(w: World, a: Alarm, bound: Bound) {
    && (a.AtOnce? <==> exists i :: i in w.due && w.due[i] <= w.now)
    && (a.Cleared? <==> w.due == map[] && bound.Unbounded?)
    && (a.After? && bound.Bounded? ==> a.delay <= bound.limit)
    && (a.After? ==> forall i :: i in w.due ==> w.now + a.delay <= w.due[i])
    && (a.After? ==> bound == Bounded(a.delay) || exists i :: i in w.due && w.due[i] == w.now + a.delay)
  }

  lemma AlarmTracks(t: Timer, w: World, top: TMEVTB, bound: Bound)
    requires Tracks(t, w) && top in t.events && IsTop(t, t.events[top])
    ensures InTime(w, EventAlarmFor(t, top, bound), bound)
  {
    assert top in w.due;
    ComparisonsAreReal(t.clock, w, w.due[top], w.now);
    forall i | i in w.due
      ensures w.due[top] <= w.due[i]
    {
      ComparisonsAreReal(t.clock, w, w.due[top], w.due[i]);
    }
    if w.due[top] > w.now {
      WrappedDiffers(w.due[top], w.now, w.due[top] - w.now);
    }
  }

  // ---------- the system time ----------

  /** The time is not set from state m to state n. */
  ghost predicate NotSet(es: seq<Step>, m: nat, n: nat)
    requires n <= |es|
  {
    forall i :: m <= i < n ==> !es[i].SetTime?
  }

  /** The highest time only grows, and the base stays until the time is set. */
  lemma {:induction false} HighestStands(es: seq<Step>, m: nat, n: nat)
    requires m <= n <= |es|
    ensures WorldAfter(es[..m]).high <= WorldAfter(es[..n]).high
    ensures NotSet(es, m, n) ==> WorldAfter(es[..n]).base == WorldAfter(es[..m]).base
  {
    if m == n {
      assert es[..m] == es[..n];
    } else {
      assert es[..n][..n - 1] == es[..n - 1];
      HighestStands(es, m, n - 1);
    }
  }

  /** The reading s comes d after the reading r, as far as 64 bits go. */
  predicate Advanced(r: nat, s: nat, d: int) {
    0 <= d && s == (r + d) % SYSTIM_WRAP
  }

  /** Short of the 64-bit wrap that is exactly d later, so never earlier. */
  lemma AdvancedExactly(r: nat, s: nat, d: int)
    requires Advanced(r, s, d) && r + d < SYSTIM_WRAP
    ensures s == r + d >= r
  {
  }

  lemma ReadsWorldTime(ts: seq<Timer>, es: seq<Step>, n: nat)
    requires Runs(ts, es) && PunctualRun(es) && n <= |es|
    ensures Reads(ts[n].clock, WorldAfter(es[..n]))
  {
    RunTracks(ts, es, n);
  }

  lemma SameAdvance(x: int, y: int, r: nat, s: nat, d: nat)
    requires y == x + d && r == x % SYSTIM_WRAP && s == y % SYSTIM_WRAP
    ensures Advanced(r, s, d)
  {
  }

  lemma ReadingsAdvance(c: Clock, w: World, c': Clock, w': World)
    requires Reads(c, w) && Reads(c', w') && w'.base == w.base && w.high <= w'.high
    ensures Advanced(GetTim(c), GetTim(c'), w'.high - w.high)
  {
    SameAdvance(w.base + w.high, w'.base + w'.high, GetTim(c), GetTim(c'), w'.high - w.high);
  }

  /** Between two moments between which it is not set, the system time read moves on by exactly
      as much as the highest time reached, whatever the adjustments. */
  lemma SystemTimeAdvances(ts: seq<Timer>, es: seq<Step>, m: nat, n: nat)
    requires Runs(ts, es) && PunctualRun(es) && m <= n <= |es| && NotSet(es, m, n)
    ensures Advanced(GetTim(ts[m].clock), GetTim(ts[n].clock), WorldAfter(es[..n]).high - WorldAfter(es[..m]).high)
  {
    ReadsWorldTime(ts, es, m);
    ReadsWorldTime(ts, es, n);
    HighestStands(es, m, n);
    ReadingsAdvance(ts[m].clock, WorldAfter(es[..m]), ts[n].clock, WorldAfter(es[..n]));
  }

  /** So, short of its own 64-bit wrap, the system time never goes back. */
  lemma SystemTimeNeverGoesBack(ts: seq<Timer>, es: seq<Step>, m: nat, n: nat)
    requires Runs(ts, es) && PunctualRun(es) && m <= n <= |es| && NotSet(es, m, n)
    requires GetTim(ts[m].clock) + (WorldAfter(es[..n]).high - WorldAfter(es[..m]).high) < SYSTIM_WRAP
    ensures GetTim(ts[m].clock) <= GetTim(ts[n].clock)
  {
    SystemTimeAdvances(ts, es, m, n);
    AdvancedExactly(GetTim(ts[m].clock), GetTim(ts[n].clock), WorldAfter(es[..n]).high - WorldAfter(es[..m]).high);
  }

  lemma SetTimeReadsBack(c: Clock, systim: nat)
    requires systim < SYSTIM_WRAP
    ensures GetTim(SetTim(c, systim)) == systim
  {
  }

  lemma JustSet(ts: seq<Timer>, es: seq<Step>, m: nat)
    requires Runs(ts, es) && m < |es| && es[m].SetTime? && es[m].systim < SYSTIM_WRAP
    ensures GetTim(ts[m + 1].clock) == es[m].systim && WorldAfter(es[..m + 1]).high == WorldAfter(es[..m]).high
  {
    SetTimeReadsBack(ts[m].clock, es[m].systim);
    assert es[..m + 1][..m] == es[..m];
  }

  /** A time that was set advances as time does. */
  lemma SetTimeAdvances(ts: seq<Timer>, es: seq<Step>, m: nat, n: nat)
    requires Runs(ts, es) && PunctualRun(es) && m < n <= |es|
    requires es[m].SetTime? && es[m].systim < SYSTIM_WRAP && NotSet(es, m + 1, n)
    ensures WorldAfter(es[..m + 1]).high == WorldAfter(es[..m]).high
    ensures Advanced(es[m].systim, GetTim(ts[n].clock), WorldAfter(es[..n]).high - WorldAfter(es[..m + 1]).high)
  {
    SystemTimeAdvances(ts, es, m + 1, n);
    JustSet(ts, es, m);
  }

  /** From the start, until it is set, what is read is the highest time reached. */
  lemma ReadsHighest(ts: seq<Timer>, es: seq<Step>, n: nat)
    requires Runs(ts, es) && PunctualRun(es) && n <= |es| && NotSet(es, 0, n)
    ensures GetTim(ts[n].clock) == WorldAfter(es[..n]).high % SYSTIM_WRAP
  {
    ReadsWorldTime(ts, es, n);
    HighestStands(es, 0, n);
    assert WorldAfter(es[..0]).base == 0 by { assert es[..0] == []; }
  }
}
