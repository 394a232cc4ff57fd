/** Flow control of the receiving side: when the driver decides to stop its peer and to let it go
    on, and when a character is discarded all the same. */
module SerialFlow {
  import opened Basics
  import opened Rings
  import opened SerialPort
  import opened SerialSystem
  import opened SerialInvariant
  import opened SerialInput
  import opened SerialWire

  // ---------- one step ----------

  /** A character arrives that is for readers. */
  predicate Arrives(s: System, e: Event) {
    e.ReceiveCallback? && ForReaders(s.port.io, s.port.sendStopped, e.c)
  }

  /** It finds no room. */
  predicate Overruns(s: System, e: Event) { Arrives(s, e) && s.port.receive.count == s.port.receive.Size() }

  /** A reader takes a character. */
  predicate Takes(s: System, e: Event) {
    e.Advance? && e.t < |s.tasks| && s.tasks[e.t].Reading? && s.tasks[e.t].rpc.Get?
  }

  /** The ring grows by what arrives and finds room and shrinks by what is taken. The decision to
      stop the peer falls exactly when the ring grows to three quarters or more of its size, in
      the 32-bit arithmetic of the driver, with the option on; it is lifted exactly when a
      character is taken that leaves half the size or less. */
  ghost predicate ReceiveSide(s: System, e: Event, s': System) {
    var p, q, size := s.port, s'.port, s.port.receive.Size();
    var grows := Arrives(s, e) && !Overruns(s, e);
    && q.receive.Size() == size
    && q.receive.count == p.receive.count + One(grows) - One(Takes(s, e))
    && (q.receiveStopped <==>
          if grows then p.receiveStopped || (p.io.fcrcv && q.receive.count >= size * 3 % 0x1_0000_0000 / 4)
          else p.receiveStopped && !(Takes(s, e) && q.receive.count <= size / 2))
  }

  lemma SendStepReceives(p: Port, pc: SendPc, c: char, free: bool)
    requires InRange(p) && !pc.Signal? && (Waiting(pc) ==> p.sendSem > 0)
    ensures var q := SendStep(p, pc, c, free).port;
      q.receive == p.receive && q.receiveStopped == p.receiveStopped
  {
  }

  /** Of a task's steps only Get touches the receiving side. */
  lemma TaskStepReceives(p: Port, k: Task, free: bool)
    requires InRange(p) && !k.Ready? && Shaped(k) && !(k.Reading? && k.rpc.Get?)
    requires (WaitsForSend(k) ==> p.sendSem > 0) && (WaitsForReceive(k) ==> p.receiveSem > 0)
    ensures var q := TaskStep(p, k, free).port; q.receive == p.receive && q.receiveStopped == p.receiveStopped
  {
    if k.Writing? {
      if !k.pc.Signal? { SendStepReceives(p, k.pc, k.buf[k.n], free); }
    } else if k.rpc.Echo? {
      if !k.rpc.spc.Signal? { SendStepReceives(p, k.rpc.spc, k.rpc.ec, free); }
    }
  }

  lemma AdvanceReceives(s: System, t: nat, free: bool)
    requires Inv(s) && Enabled(s, Advance(t, free))
    ensures ReceiveSide(s, Advance(t, free), Step(s, Advance(t, free)))
  {
    var k := s.tasks[t];
    CountUpdate(s.tasks, HoldsReceive, t, k);
    if !(k.Reading? && k.rpc.Get?) {
      TaskStepReceives(s.port, k, free);
    }
  }

  lemma StoreReceives(p: Port, c: char, free: bool)
    requires PortOk(p) && !p.receive.Full()
    ensures var q, size := StoreReceived(p, c, free), p.receive.Size();
      && q.receive.Size() == size && q.receive.count == p.receive.count + 1
      && (q.receiveStopped <==> p.receiveStopped || (p.io.fcrcv && q.receive.count >= size * 3 % 0x1_0000_0000 / 4))
  {
  }

  lemma ReadyReceiveReceives(p: Port, c: char, room: nat)
    requires PortOk(p)
    ensures var q, size := ReadyReceive(p, c, room), p.receive.Size();
      if ForReaders(p.io, p.sendStopped, c) && p.receive.count < size then
        && q.receive.Size() == size && q.receive.count == p.receive.count + 1
        && (q.receiveStopped <==> p.receiveStopped || (p.io.fcrcv && q.receive.count >= size * 3 % 0x1_0000_0000 / 4))
      else q.receive == p.receive && q.receiveStopped == p.receiveStopped
  {
    match Classify(p.io, p.sendStopped, p.receive.Full(), c)
    case Restart => ResumeExactly(p.(sendStopped := false), room);
    case Stored => StoreReceives(p, c, room > 0);
    case _ =>
  }

  lemma ArrivalReceives(s: System, c: char, room: nat)
    requires Inv(s) && !s.terminating
    ensures ReceiveSide(s, ReceiveCallback(c, room), Step(s, ReceiveCallback(c, room)))
  {
    ReadyReceiveReceives(s.port, c, room);
  }

  lemma DecisionsExactly(s: System, e: Event, s': System)
    requires Inv(s) && Next(s, e, s')
    ensures ReceiveSide(s, e, s')
  {
    match e
    case Advance(t, free) => AdvanceReceives(s, t, free);
    case Abort(t, ercd) => AbortLeaves(s.port, s.tasks[t], ercd);
    case SendCallback => ReadySendExactly(s.port);
    case ReceiveCallback(c, room) => ArrivalReceives(s, c, room);
    case _ =>
  }

  /** Everything that an arriving character does. Control-S with flow control stops sending and
      Control-Q is dropped, whether the ring has room or not; what resumes sending hands over the
      queue and is dropped; any other character joins the end of the ring if it has room. */
  lemma ArrivalExactly(p: Port, c: char, room: nat)
    requires PortOk(p)
    ensures var q, n := ReadyReceive(p, c, room), Min(room, p.send.count);
      if p.io.fcsnd && c == 19 as char then q == p.(sendStopped := true)
      else if p.sendStopped && (c == 17 as char || p.io.fcany) then
        && HandedOver(p.(sendStopped := false), q, n)
        && (q.sendReady <==> p.sendReady || n < p.send.count)
      else if (p.io.fcsnd && c == 17 as char) || p.receive.count == p.receive.Size() then q == p
      else q.receive.Ok() && q.receive.Contents() == p.receive.Contents() + [c]
  {
    match Classify(p.io, p.sendStopped, p.receive.Full(), c)
    case Restart => ResumeExactly(p.(sendStopped := false), room);
    case Stored => PutAppends(p.receive, c);
    case _ =>
  }

  // ---------- over runs ----------

  /** The sizes for which the STOP threshold does not wrap and lies above the START threshold. */
  predicate Thresholds(size: nat) { 3 <= size <= 0x5555_5555 }

  lemma Modulo3(x: nat, n: nat)
    requires 0 < n && x < 3 * n
    ensures x % n == if x < n then x else if x < 2 * n then x - n else x - 2 * n
  {
    if x < n {
      Modulo(x, x, n);
    } else if x < 2 * n {
      Modulo(x, x - n, n);
    } else {
      assert x / n == 2;
    }
  }

  /** Of all 32-bit sizes, exactly these put the STOP threshold above the START threshold. */
  lemma ThresholdsExact(size: nat)
    requires 1 <= size < UINT_MODULUS
    ensures StopCount(size) == size * 3 % 0x1_0000_0000 / 4 && StartCount(size) == size / 2
    ensures StopCount(size) > StartCount(size) <==> Thresholds(size)
    ensures StopCount(size) < size && (Thresholds(size) ==> StopCount(size) == size * 3 / 4)
  {
    var x := size * 3;
    Modulo3(x, UINT_MODULUS);
  }

  /** What has arrived for readers since the last decision to stop the peer. */
  function ArrivedSince(tr: seq<System>, es: seq<Event>, n: nat): nat
    requires n <= |es| < |tr|
  {
    if n == 0 || (!tr[n - 1].port.receiveStopped && tr[n].port.receiveStopped) then 0
    else ArrivedSince(tr, es, n - 1) + One(Arrives(tr[n - 1], es[n - 1]))
  }

  /** What readers have taken since then. */
  function TakenSince(tr: seq<System>, es: seq<Event>, n: nat): nat
    requires n <= |es| < |tr|
  {
    if n == 0 || (!tr[n - 1].port.receiveStopped && tr[n].port.receiveStopped) then 0
    else TakenSince(tr, es, n - 1) + One(Takes(tr[n - 1], es[n - 1]))
  }

  /** STOP is in force from its threshold on and is lifted at the START threshold; until the
      first overrun the ring holds the STOP threshold plus what has arrived since, less what
      has been taken since. */
  predicate FlowControlled(p: Port, clean: bool, arrived: nat, taken: nat) {
    var n, size := p.receive.count, p.receive.Size();
    && (n >= StopCount(size) ==> p.receiveStopped)
    && (p.receiveStopped ==> n > StartCount(size))
    && (p.receiveStopped && clean ==> n + taken == StopCount(size) + arrived)
  }

  lemma FlowStep(s: System, e: Event, s': System, clean: bool, arrived: nat, taken: nat)
    requires Inv(s) && Next(s, e, s') && s.port.io.fcrcv && Thresholds(s.port.receive.Size())
    requires FlowControlled(s.port, clean, arrived, taken)
    ensures s'.port.receive.Size() == s.port.receive.Size()
    ensures var decided := !s.port.receiveStopped && s'.port.receiveStopped;
      && (decided ==> s'.port.receive.count == StopCount(s.port.receive.Size()))
      && FlowControlled(s'.port, clean && !Overruns(s, e),
           if decided then 0 else arrived + One(Arrives(s, e)), if decided then 0 else taken + One(Takes(s, e)))
  {
    DecisionsExactly(s, e, s');
    ThresholdsExact(s.port.receive.Size());
  }

  /** No character has been discarded in the first i events. */
  predicate Clean(tr: seq<System>, es: seq<Event>, i: nat)
    requires i <= |es| < |tr|
  {
    forall j :: 0 <= j < i ==> !Overruns(tr[j], es[j])
  }

  lemma {:induction false} RunFlow(tr: seq<System>, es: seq<Event>, i: nat)
    requires Run(tr, es) && i < |tr| && Thresholds(tr[0].port.receive.Size())
    requires forall j :: 0 <= j < i ==> tr[j].port.io.fcrcv
    ensures FlowControlled(tr[i].port, Clean(tr, es, i), ArrivedSince(tr, es, i), TakenSince(tr, es, i))
    ensures tr[i].port.receive.Size() == tr[0].port.receive.Size()
  {
    if i == 0 {
      ThresholdsExact(tr[0].port.receive.Size());
    } else {
      RunFlow(tr, es, i - 1);
      RunInv(tr, es, i - 1);
      assert Next(tr[i - 1], es[i - 1], tr[i - 1 + 1]);
      FlowStep(tr[i - 1], es[i - 1], tr[i], Clean(tr, es, i - 1), ArrivedSince(tr, es, i - 1), TakenSince(tr, es, i - 1));
      assert Clean(tr, es, i) <==> Clean(tr, es, i - 1) && !Overruns(tr[i - 1], es[i - 1]);
    }
  }

  /** With receive flow control on, STOP is in force whenever the ring is at its threshold or
      above, the decision falls exactly at the threshold, and the peer is never left stopped
      once the ring is down to the START threshold. */
  lemma StopInForce(tr: seq<System>, es: seq<Event>, i: nat)
    requires Run(tr, es) && i < |es| && Thresholds(tr[0].port.receive.Size())
    requires forall j :: 0 <= j <= i ==> tr[j].port.io.fcrcv
    ensures var size := tr[0].port.receive.Size();
      && (tr[i + 1].port.receive.count >= size * 3 / 4 ==> tr[i + 1].port.receiveStopped)
      && (!tr[i].port.receiveStopped && tr[i + 1].port.receiveStopped ==> tr[i + 1].port.receive.count == size * 3 / 4)
      && (tr[i + 1].port.receive.count <= size / 2 ==> !tr[i + 1].port.receiveStopped)
  {
    RunFlow(tr, es, i);
    RunInv(tr, es, i);
    FlowStep(tr[i], es[i], tr[i + 1], Clean(tr, es, i), ArrivedSince(tr, es, i), TakenSince(tr, es, i));
    ThresholdsExact(tr[0].port.receive.Size());
  }

  /** At the first overrun more has arrived than there is room for above the threshold. */
  lemma OverrunNeedsMore(tr: seq<System>, es: seq<Event>, n: nat)
    requires Run(tr, es) && n < |es| && Thresholds(tr[0].port.receive.Size())
    requires forall j :: 0 <= j <= n ==> tr[j].port.io.fcrcv
    requires Clean(tr, es, n) && Overruns(tr[n], es[n])
    ensures tr[n + 1].port.receiveStopped
    ensures ArrivedSince(tr, es, n + 1) > tr[0].port.receive.Size() - tr[0].port.receive.Size() * 3 / 4
  {
    RunFlow(tr, es, n);
    RunInv(tr, es, n);
    ThresholdsExact(tr[0].port.receive.Size());
    assert Next(tr[n], es[n], tr[n + 1]);
    DecisionsExactly(tr[n], es[n], tr[n + 1]);
  }

  /** No receive overrun: if, while stopped, the peer sends no more characters for readers than
      the ring has room for above the threshold, none is ever discarded. */
  lemma {:induction false} NoReceiveOverrun(tr: seq<System>, es: seq<Event>, i: nat)
    requires Run(tr, es) && i < |tr| && Thresholds(tr[0].port.receive.Size())
    requires forall j :: 0 <= j < |tr| ==> tr[j].port.io.fcrcv
    requires forall j :: 0 <= j < |tr| && tr[j].port.receiveStopped ==>
               ArrivedSince(tr, es, j) <= tr[0].port.receive.Size() - tr[0].port.receive.Size() * 3 / 4
    ensures forall j :: 0 <= j < i ==> !Overruns(tr[j], es[j])
  {
    if i == 0 {
      assert Clean(tr, es, 0);
    } else {
      var n := i - 1;
      NoReceiveOverrun(tr, es, n);
      if Overruns(tr[n], es[n]) {
        OverrunNeedsMore(tr, es, n);
      }
    }
  }

  /** The exact condition of the first overrun: of a character for readers, the ring is left as it
      is if and only if STOP is in force and what has arrived since the decision, less what readers
      took, has used up the room above the threshold; otherwise the character joins the end. */
  lemma FirstOverrunExactly(tr: seq<System>, es: seq<Event>, i: nat, c: char, room: nat)
    requires Run(tr, es) && i < |tr| && Thresholds(tr[0].port.receive.Size())
    requires forall j :: 0 <= j < i ==> tr[j].port.io.fcrcv && !Overruns(tr[j], es[j])
    requires ForReaders(tr[i].port.io, tr[i].port.sendStopped, c)
    ensures InRange(tr[i].port)
    ensures var r, r' := tr[i].port.receive, ReadyReceive(tr[i].port, c, room).receive;
      && r.Ok() && r'.Ok()
      && r'.Contents() == if tr[i].port.receiveStopped
              && ArrivedSince(tr, es, i) == r.Size() - r.Size() * 3 / 4 + TakenSince(tr, es, i)
           then r.Contents() else r.Contents() + [c]
  {
    RunFlow(tr, es, i);
    RunInv(tr, es, i);
    ThresholdsExact(tr[0].port.receive.Size());
    assert Clean(tr, es, i);
    ArrivalExactly(tr[i].port, c, room);
  }
}
