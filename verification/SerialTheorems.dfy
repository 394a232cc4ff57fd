/** The promises of the serial driver, for every run: any number of writers and
    echoing readers, any interleaving, any aborted waits, any hardware timing. */
module SerialTheorems {
  import opened Basics
  import opened SerialPort
  import opened SerialSystem
  import opened SerialInvariant

  // ---------- tokens ----------

  /** While the send ring has room, exactly one send token exists: in the semaphore or
      with one task. While it is full there is none. */
  lemma SendTokenConserved(tr: seq<System>, es: seq<Event>, i: nat)
    requires Run(tr, es) && i < |tr| && !tr[i].terminating
    ensures tr[i].port.sendSem + Count(tr[i].tasks, HoldsSend)
         == (if tr[i].port.send.count < tr[i].port.send.Size() then 1 else 0)
    ensures tr[i].port.send.count <= tr[i].port.send.Size()
  {
    RunInv(tr, es, i);
  }

  /** The unchecked store never meets a full ring. */
  lemma StoreIsSafe(tr: seq<System>, es: seq<Event>, i: nat, t: nat)
    requires Run(tr, es) && i < |tr| && !tr[i].terminating && t < |tr[i].tasks|
    ensures HoldsSend(tr[i].tasks[t]) ==> tr[i].port.send.count < tr[i].port.send.Size()
  {
    RunInv(tr, es, i);
    CountUpdate(tr[i].tasks, HoldsSend, t, tr[i].tasks[t]);
  }

  /** At most one task at a time is in the writing section. */
  lemma WritersExcludeEachOther(tr: seq<System>, es: seq<Event>, i: nat, t: nat, u: nat)
    requires Run(tr, es) && i < |tr| && !tr[i].terminating && t < u < |tr[i].tasks|
    ensures !(HoldsSend(tr[i].tasks[t]) && HoldsSend(tr[i].tasks[u]))
    ensures !(HoldsReceive(tr[i].tasks[t]) && HoldsReceive(tr[i].tasks[u]))
  {
    RunInv(tr, es, i);
    if HoldsSend(tr[i].tasks[t]) && HoldsSend(tr[i].tasks[u]) {
      CountAtMostOne(tr[i].tasks, HoldsSend, t, u);
    }
    if HoldsReceive(tr[i].tasks[t]) && HoldsReceive(tr[i].tasks[u]) {
      CountAtMostOne(tr[i].tasks, HoldsReceive, t, u);
    }
  }

  /** No semaphore is ever signalled above its maximum: wherever the driver signals one (a full
      send ring that loses a character, an empty receive ring that gets one, a task that returns
      a token) its count is 0, in every state of every run. */
  lemma SignalsNeverOverflow(tr: seq<System>, es: seq<Event>, i: nat, t: nat)
    requires Run(tr, es) && i < |tr| && !tr[i].terminating
    ensures var p := tr[i].port;
      && p.sendSem <= SEM_MAX && p.receiveSem <= SEM_MAX
      && (p.send.Full() ==> p.sendSem == 0)
      && (p.receive.count == 0 ==> p.receiveSem == 0)
      && (t < |tr[i].tasks| && HoldsSend(tr[i].tasks[t]) ==> p.sendSem == 0)
      && (t < |tr[i].tasks| && HoldsReceive(tr[i].tasks[t]) ==> p.receiveSem == 0)
  {
    RunInv(tr, es, i);
    if t < |tr[i].tasks| {
      CountUpdate(tr[i].tasks, HoldsSend, t, tr[i].tasks[t]);
      CountUpdate(tr[i].tasks, HoldsReceive, t, tr[i].tasks[t]);
    }
  }

  /** The abort that loses a receive token: of an echoing reader that has not emptied the ring. */
  predicate AbandonsToken(s: System, e: Event) {
    && e.Abort? && e.t < |s.tasks|
    && var k := s.tasks[e.t];
      k.Reading? && k.rpc.Echo? && !k.empty
  }

  /** A wait that ends with an error that the driver does not expect. */
  predicate FailsWait(e: Event) { e.Abort? && !(e.ercd.E_RLWAI? || e.ercd.E_DLT? || e.ercd.E_RASTER?) }

  /** Of all events only the abort of such a reader loses a token, and only a failed wait sets
      the error flag: no signal does, and no other way out of a call. */
  lemma OnlyAbortsDoHarm(s: System, e: Event, s': System)
    requires Inv(s) && Next(s, e, s')
    ensures s'.h.lostTokens == s.h.lostTokens + One(AbandonsToken(s, e))
    ensures s'.port.errorFlag <==> s.port.errorFlag || FailsWait(e)
  {
    var readers := Count(s.tasks, HoldsReceive) + s.h.lostTokens;
    match e
    case Advance(t, free) => TaskStepMoves(s, t, free);
    case Abort(t, ercd) => AbortLeaves(s.port, s.tasks[t], ercd);
    case SendCallback => ReadySendKeeps(s.port, Count(s.tasks, HoldsSend), readers);
    case ReceiveCallback(c, room) => ReadyReceiveKeeps(s.port, c, room, Count(s.tasks, HoldsSend), readers);
    case _ =>
  }

  /** The error flag is set if and only if a wait has failed before. */
  lemma {:induction false} ErrorFlagExactly(tr: seq<System>, es: seq<Event>, i: nat)
    requires Run(tr, es) && i < |tr|
    ensures tr[i].port.errorFlag <==> exists j :: 0 <= j < i && FailsWait(es[j])
  {
    if i == 0 {
      assert !tr[0].port.errorFlag;
    } else {
      ErrorFlagExactly(tr, es, i - 1);
      RunInv(tr, es, i - 1);
      assert Next(tr[i - 1], es[i - 1], tr[i - 1 + 1]);
      OnlyAbortsDoHarm(tr[i - 1], es[i - 1], tr[i]);
    }
  }

  lemma {:induction false} LostTokensExactly(tr: seq<System>, es: seq<Event>, i: nat)
    requires Run(tr, es) && i < |tr|
    ensures tr[i].h.lostTokens > 0 <==> exists j :: 0 <= j < i && AbandonsToken(tr[j], es[j])
  {
    if i == 0 {
      assert tr[0].h.lostTokens == 0;
    } else {
      LostTokensExactly(tr, es, i - 1);
      RunInv(tr, es, i - 1);
      assert Next(tr[i - 1], es[i - 1], tr[i - 1 + 1]);
      OnlyAbortsDoHarm(tr[i - 1], es[i - 1], tr[i]);
    }
  }

  /** The receive tokens: the semaphore and the readers together never hold more than the one
      token of a non-empty ring, and they hold exactly it if and only if no echoing reader has
      been aborted before it had emptied the ring. */
  lemma ReceiveTokenConserved(tr: seq<System>, es: seq<Event>, i: nat)
    requires Run(tr, es) && i < |tr| && !tr[i].terminating
    ensures var s := tr[i];
      var tokens := s.port.receiveSem + Count(s.tasks, HoldsReceive);
      var slot := if s.port.receive.count > 0 then 1 else 0;
      && tokens <= slot
      && (tokens == slot <==> forall j :: 0 <= j < i ==> !AbandonsToken(tr[j], es[j]))
  {
    RunInv(tr, es, i);
    LostTokensExactly(tr, es, i);
  }

  /** The unchecked fetch never meets an empty ring, so the count never wraps. */
  lemma FetchIsSafe(tr: seq<System>, es: seq<Event>, i: nat, t: nat)
    requires Run(tr, es) && i < |tr| && !tr[i].terminating && t < |tr[i].tasks|
    requires tr[i].tasks[t].Reading? && tr[i].tasks[t].rpc.Get?
    ensures 0 < tr[i].port.receive.count <= tr[i].port.receive.Size()
  {
    RunInv(tr, es, i);
    CountUpdate(tr[i].tasks, HoldsReceive, t, tr[i].tasks[t]);
  }

  lemma LostTokenStep(s: System, e: Event, s': System)
    requires Inv(s) && Next(s, e, s') && s.h.lostTokens > 0
    ensures s'.h.lostTokens > 0 && s'.h.delivered == s.h.delivered
  {
    if e.Advance? {
      var k := s.tasks[e.t];
      CountUpdate(s.tasks, HoldsReceive, e.t, k);
    }
  }

  lemma {:induction false} Starving(tr: seq<System>, es: seq<Event>, i: nat, j: nat)
    requires Run(tr, es) && i <= j < |tr| && tr[i].h.lostTokens > 0
    ensures tr[j].h.lostTokens > 0 && tr[j].h.delivered == tr[i].h.delivered
  {
    if i == j {
      assert tr[j] == tr[i];
    } else {
      Starving(tr, es, i, j - 1);
      RunInv(tr, es, j - 1);
      LostTokenStep(tr[j - 1], es[j - 1], tr[j]);
    }
  }

  /** A lost token is never made good: once an echoing reader has been aborted like that, no
      reader gets a character in the rest of the run. */
  lemma LostTokenStarvesReaders(tr: seq<System>, es: seq<Event>, h: nat, i: nat, j: nat)
    requires Run(tr, es) && h < i <= j < |tr| && AbandonsToken(tr[h], es[h])
    ensures tr[j].h.delivered == tr[i].h.delivered
  {
    LostTokensExactly(tr, es, i);
    Starving(tr, es, i, j);
  }

  // ---------- how calls end ----------

  /** What the task's call reports when it has ended. */
  function Code(o: Outcome): Ercd
    requires !o.NoCall?
  {
    if o.Wrote? then o.wercd else o.rercd
  }

  function Done(o: Outcome): nat
    requires !o.NoCall?
  {
    if o.Wrote? then o.wricnt else o.reacnt
  }

  /** A call that goes on by itself ends well: no signal fails. */
  lemma AdvanceEndsWell(s: System, t: nat, free: bool, s': System)
    requires Inv(s) && Next(s, Advance(t, free), s') && s'.tasks[t].Ready?
    ensures !s'.tasks[t].last.NoCall? && Code(s'.tasks[t].last) == E_OK
  {
    var k := s.tasks[t];
    CountUpdate(s.tasks, HoldsSend, t, k);
    CountUpdate(s.tasks, HoldsReceive, t, k);
  }

  /** A call whose wait is aborted ends at once with what it has done; three errors are passed on,
      any other becomes E_SYS. */
  lemma AbortEndsCall(s: System, t: nat, ercd: Ercd, s': System)
    requires Next(s, Abort(t, ercd), s')
    ensures s'.tasks[t].Ready? && !s'.tasks[t].last.NoCall?
    ensures var k, o := s.tasks[t], s'.tasks[t].last;
      && Code(o) == (if ercd.E_RLWAI? || ercd.E_DLT? || ercd.E_RASTER? then ercd else E_SYS)
      && Done(o) == (if k.Writing? then k.n else if k.Reading? then k.m else 0)
  {
  }

  /** The options change only when they are set, and only while no wait has failed. */
  lemma OptionsChange(s: System, e: Event, s': System)
    requires Inv(s) && Next(s, e, s')
    ensures s'.port.io == if e.Control? && !s.port.errorFlag then e.io else s.port.io
  {
    match e
    case Advance(t, free) => TaskStepMoves(s, t, free);
    case Abort(t, ercd) => AbortLeaves(s.port, s.tasks[t], ercd);
    case SendCallback => ReadySendKeeps(s.port, Count(s.tasks, HoldsSend), Count(s.tasks, HoldsReceive) + s.h.lostTokens);
    case ReceiveCallback(c, room) =>
      ReadyReceiveKeeps(s.port, c, room, Count(s.tasks, HoldsSend), Count(s.tasks, HoldsReceive) + s.h.lostTokens);
    case _ =>
  }

  lemma RunOpen(tr: seq<System>, es: seq<Event>, i: nat)
    requires Run(tr, es) && i < |tr|
    ensures tr[i].port.openFlag
  {
    RunInv(tr, es, i);
  }

  /** Once a wait has failed, every later call is refused with E_SYS and does nothing. */
  lemma RefusedAfterFailure(tr: seq<System>, es: seq<Event>, h: nat, i: nat)
    requires Run(tr, es) && h < i < |es| && FailsWait(es[h]) && (es[i].StartWrite? || es[i].StartRead?)
    ensures var k := tr[i + 1].tasks[es[i].t];
      k.Ready? && !k.last.NoCall? && Code(k.last) == E_SYS && Done(k.last) == 0
    ensures tr[i + 1].port == tr[i].port
  {
    ErrorFlagExactly(tr, es, i);
    assert Next(tr[i], es[i], tr[i + 1]);
    RunOpen(tr, es, i);
  }

  // ---------- output ----------

  /** Whatever mix of direct hand-over, callback and resume loop sends them, the data
      characters leave in the order they were accepted; flow-control characters only
      come in between, and the termination routine hands out the rest in order. */
  lemma OutputInOrder(tr: seq<System>, es: seq<Event>, i: nat)
    requires Run(tr, es) && i < |tr|
    ensures tr[i].port.send.Ok()
    ensures DataOf(tr[i].port.wire) + tr[i].h.drained + tr[i].port.send.Contents() == Chars(tr[i].h.accepted)
  {
    RunInv(tr, es, i);
    if !tr[i].terminating {
      assert DataOf(tr[i].port.wire) + [] == DataOf(tr[i].port.wire);
    }
  }

  /** No lost wake-up: while anything waits to be sent and may be, the callback is on. */
  lemma NoLostWakeUp(tr: seq<System>, es: seq<Event>, i: nat)
    requires Run(tr, es) && i < |tr|
    ensures (tr[i].port.send.count > 0 && !tr[i].port.sendStopped) || tr[i].port.receiveFlowControl != NUL
            ==> tr[i].port.sendReady
  {
    RunInv(tr, es, i);
  }
}
