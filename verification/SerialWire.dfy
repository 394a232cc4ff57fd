/** What every step gives to the SIO port: which data characters, which flow-control character,
    and when the send-ready callback is asked for instead. */
module SerialWire {
  import opened Basics
  import opened Rings
  import opened SerialPort
  import opened SerialSystem
  import opened SerialInvariant

  // ---------- data characters ----------

  function AsData(text: seq<char>): seq<Sent> {
    seq(|text|, i requires 0 <= i < |text| => Data(text[i]))
  }

  /** A written character goes out at once exactly when nothing is queued, sending is not stopped
      and the register takes it; otherwise it is queued, and the callback asked for if the register
      was tried. */
  lemma WriteExactly(p: Port, c: char, free: bool)
    requires PortOk(p) && !p.send.Full()
    ensures var q := WriteRegion(p, c, free);
      var tried := p.send.count == 0 && !p.sendStopped;
      if tried && free then q == p.(wire := p.wire + [Data(c)])
      else
        && q.send.Ok() && q.send.Contents() == p.send.Contents() + [c]
        && q == p.(send := q.send, sendReady := p.sendReady || tried)
  {
    PutAppends(p.send, c);
  }

  /** The oldest queued character is handed over. */
  lemma PopExactly(p: Port)
    requires PortOk(p) && p.send.count > 0
    ensures var q, queued := PopSend(p), p.send.Contents();
      && PortOk(q) && q.send.count == p.send.count - 1 && q.send.Contents() == queued[1..]
      && q.wire == p.wire + [Data(queued[0])]
      && q == p.(wire := q.wire, send := q.send, sendSem := q.sendSem, errorFlag := q.errorFlag)
  {
    TakeRemovesFront(p.send);
  }

  /** The send-ready callback hands over one character: the pending flow-control character before
      anything else, then the oldest queued one unless sending is stopped. Only when there is
      neither does it turn itself off. */
  lemma ReadySendExactly(p: Port)
    requires PortOk(p)
    ensures var q := ReadySend(p);
      if p.receiveFlowControl != '\0' then
        q == p.(wire := p.wire + [Flow(p.receiveFlowControl)], receiveFlowControl := '\0')
      else if !p.sendStopped && p.send.count > 0 then
        && q.wire == p.wire + [Data(p.send.Contents()[0])]
        && q.send.Ok() && q.send.Contents() == p.send.Contents()[1..]
        && q == p.(wire := q.wire, send := q.send, sendSem := q.sendSem, errorFlag := q.errorFlag)
      else q == p.(sendReady := false)
  {
    if p.send.count > 0 {
      PopExactly(p);
    }
  }

  lemma AsDataSplit(text: seq<char>, n: nat)
    requires 0 < n <= |text|
    ensures AsData(text[..n]) == [Data(text[0])] + AsData(text[1..][..n - 1]) && text[1..][n - 1..] == text[n..]
  {
  }

  /** From p to q the n oldest queued characters have been handed over. */
  ghost predicate HandedOver(p: Port, q: Port, n: nat) {
    && PortOk(p) && PortOk(q) && n <= p.send.count
    && q.wire == p.wire + AsData(p.send.Contents()[..n])
    && q.send.Contents() == p.send.Contents()[n..]
    && q == p.(wire := q.wire, send := q.send, sendSem := q.sendSem, errorFlag := q.errorFlag, sendReady := q.sendReady)
  }

  lemma OneMore(p: Port, r: Port, q: Port, n: nat)
    requires HandedOver(p, r, 1) && HandedOver(r, q, n)
    ensures HandedOver(p, q, n + 1)
  {
    var queued := p.send.Contents();
    AsDataSplit(queued, n + 1);
    assert AsData(queued[..1]) == [Data(queued[0])];
    assert p.wire + [Data(queued[0])] + AsData(queued[1..][..n]) == p.wire + ([Data(queued[0])] + AsData(queued[1..][..n]));
  }

  lemma PopHandsOver(p: Port)
    requires PortOk(p) && p.send.count > 0
    ensures HandedOver(p, PopSend(p), 1) && PopSend(p).sendReady == p.sendReady
    ensures PopSend(p).send.count == p.send.count - 1
  {
    PopExactly(p);
    assert AsData(p.send.Contents()[..1]) == [Data(p.send.Contents()[0])];
  }

  lemma NothingHandedOver(p: Port, ready: bool)
    requires PortOk(p)
    ensures HandedOver(p, p.(sendReady := ready), 0)
  {
    assert AsData(p.send.Contents()[..0]) == [];
  }

  /** Resuming hands over the oldest queued characters, as many as there are or as the register
      takes, and asks for the callback exactly if some are left. */
  lemma {:induction false} ResumeExactly(p: Port, room: nat)
    requires PortOk(p)
    ensures var q, n := Resume(p, room), Min(room, p.send.count);
      HandedOver(p, q, n) && (q.sendReady <==> p.sendReady || n < p.send.count)
    decreases room
  {
    if p.send.count > 0 && room > 0 {
      var r := PopSend(p);
      PopHandsOver(p);
      ResumeExactly(r, room - 1);
      OneMore(p, r, Resume(r, room - 1), Min(room - 1, r.send.count));
    } else {
      NothingHandedOver(p, Resume(p, room).sendReady);
    }
  }

  /** No character of the text joins the wire: what does is flow control. */
  predicate NoData(was: seq<Sent>, now: seq<Sent>) {
    was <= now && forall i :: |was| <= i < |now| ==> now[i].Flow?
  }

  predicate NoFlow(was: seq<Sent>, now: seq<Sent>) {
    was <= now && forall i :: |was| <= i < |now| ==> now[i].Data?
  }

  /** The peer is told by a character that is handed over at once, or kept for the callback. */
  predicate Announces(p: Port, q: Port, c: char) {
    || (q.wire == p.wire + [Flow(c)] && q.receiveFlowControl == p.receiveFlowControl && q.sendReady == p.sendReady)
    || (q.wire == p.wire && q.receiveFlowControl == c && q.sendReady)
  }

  lemma ReadRegionFlow(p: Port, free: bool)
    ensures var q := ReadRegion(p, free);
      && NoData(p.wire, q.wire) && q.io == p.io && q.sendStopped == p.sendStopped && q.send == p.send
      && (if q.receiveStopped == p.receiveStopped then q.wire == p.wire && q.receiveFlowControl == p.receiveFlowControl
          else p.receiveStopped && Announces(p, q, 17 as char))
  {
  }

  lemma StoreLeaves(p: Port, c: char)
    requires InRange(p)
    ensures var r := (if p.receive.count == 0 then SignalReceive(p) else p).(receive := p.receive.Put(c));
      r == p.(receive := r.receive, receiveSem := r.receiveSem, errorFlag := r.errorFlag)
  {
  }

  lemma StoreFlow(p: Port, c: char, free: bool)
    requires InRange(p)
    ensures var q := StoreReceived(p, c, free);
      && NoData(p.wire, q.wire) && q.send == p.send && q.sendStopped == p.sendStopped
      && (if q.receiveStopped == p.receiveStopped then q.wire == p.wire && q.receiveFlowControl == p.receiveFlowControl
          else q.receiveStopped && Announces(p, q, 19 as char))
  {
    StoreLeaves(p, c);
    var r := (if p.receive.count == 0 then SignalReceive(p) else p).(receive := p.receive.Put(c));
    if StopDecision(p) {
      assert StoreReceived(p, c, free).wire == if free then r.wire + [Flow(19 as char)] else r.wire;
    }
  }

  /** The step leaves the peer's side alone. */
  predicate LeavesFlow(p: Port, q: Port) {
    && q.receiveStopped == p.receiveStopped && q.receiveFlowControl == p.receiveFlowControl
    && NoFlow(p.wire, q.wire)
  }

  /** It does so too, and gives no data to the SIO port while sending is stopped. */
  predicate SendsOnly(p: Port, q: Port) {
    LeavesFlow(p, q) && q.sendStopped == p.sendStopped && (p.sendStopped ==> NoData(p.wire, q.wire))
  }

  lemma SendStepFlow(p: Port, pc: SendPc, c: char, free: bool)
    requires InRange(p) && !pc.Signal? && (Waiting(pc) ==> p.sendSem > 0)
    ensures SendsOnly(p, SendStep(p, pc, c, free).port)
  {
  }

  lemma WriterStepFlow(p: Port, k: Task, free: bool)
    requires InRange(p) && k.Writing? && Shaped(k) && (WaitsForSend(k) ==> p.sendSem > 0)
    ensures SendsOnly(p, WriterStep(p, k, free).port)
  {
    if !k.pc.Signal? { SendStepFlow(p, k.pc, k.buf[k.n], free); }
  }

  lemma EchoStepFlow(p: Port, k: Task, free: bool)
    requires InRange(p) && k.Reading? && k.rpc.Echo? && (WaitsForSend(k) ==> p.sendSem > 0)
    ensures SendsOnly(p, ReaderStep(p, k, free).port)
  {
    if !k.rpc.spc.Signal? { SendStepFlow(p, k.rpc.spc, k.rpc.ec, free); }
  }

  /** Of a task's steps, only the one that takes a character from the receive ring is not like that. */
  lemma TaskStepFlow(p: Port, k: Task, free: bool)
    requires InRange(p) && !k.Ready? && Shaped(k)
    requires (WaitsForSend(k) ==> p.sendSem > 0) && (WaitsForReceive(k) ==> p.receiveSem > 0)
    ensures var q := TaskStep(p, k, free).port;
      if k.Reading? && k.rpc.Get? then q == ReadRegion(p, free) else SendsOnly(p, q)
  {
    if k.Writing? {
      WriterStepFlow(p, k, free);
    } else if k.rpc.Echo? {
      EchoStepFlow(p, k, free);
    }
  }

  lemma ArrivalFlow(p: Port, c: char, room: nat)
    requires PortOk(p)
    ensures var q := ReadyReceive(p, c, room);
      && (q.sendStopped ==> NoData(p.wire, q.wire))
      && (if q.receiveStopped == p.receiveStopped then LeavesFlow(p, q)
          else q.receiveStopped && Announces(p, q, 19 as char))
  {
    match Classify(p.io, p.sendStopped, p.receive.Full(), c)
    case Restart => ResumeExactly(p.(sendStopped := false), room);
    case Stored => StoreFlow(p, c, room > 0);
    case _ =>
  }

  /** While the peer has stopped this side, no character of the text is given to the SIO port. */
  lemma StoppedSendsNothing(s: System, e: Event, s': System)
    requires Inv(s) && Next(s, e, s') && s'.port.sendStopped
    ensures NoData(s.port.wire, s'.port.wire)
  {
    match e
    case Advance(t, free) =>
      TaskStepFlow(s.port, s.tasks[t], free);
      ReadRegionFlow(s.port, free);
    case Abort(t, ercd) => AbortLeaves(s.port, s.tasks[t], ercd);
    case SendCallback => ReadySendExactly(s.port);
    case ReceiveCallback(c, room) => ArrivalFlow(s.port, c, room);
    case _ =>
  }

  // ---------- flow-control characters ----------

  /** The decision to stop the peer or to let it go on has changed. */
  predicate Decides(p: Port, q: Port) { q.receiveStopped != p.receiveStopped }

  /** The character that tells the peer of the decision: Control-S or Control-Q. */
  function DecisionCode(p: Port): char { if p.receiveStopped then 19 as char else 17 as char }

  /** Every change of the decision announces its own character. Otherwise no flow-control character
      joins the wire, but for the pending one, which the callback hands over and forgets. */
  lemma DecisionsAreAnnounced(s: System, e: Event, s': System)
    requires Inv(s) && Next(s, e, s')
    ensures var p, q := s.port, s'.port;
      if p.receiveStopped && !q.receiveStopped then Announces(p, q, 17 as char)
      else if !p.receiveStopped && q.receiveStopped then Announces(p, q, 19 as char)
      else if e.SendCallback? && p.receiveFlowControl != '\0' then
        q.wire == p.wire + [Flow(p.receiveFlowControl)] && q.receiveFlowControl == '\0'
      else LeavesFlow(p, q)
  {
    match e
    case Advance(t, free) =>
      TaskStepFlow(s.port, s.tasks[t], free);
      ReadRegionFlow(s.port, free);
    case Abort(t, ercd) => AbortLeaves(s.port, s.tasks[t], ercd);
    case SendCallback => ReadySendExactly(s.port);
    case ReceiveCallback(c, room) => ArrivalFlow(s.port, c, room);
    case _ =>
  }

  // ---------- what the peer is told last ----------

  /** The last flow-control character on the wire; a peer that has been sent none may send. */
  function LastFlow(wire: seq<Sent>): char {
    if wire == [] then 17 as char
    else
      match wire[|wire| - 1]
      case Flow(c) => c
      case Data(_) => LastFlow(wire[..|wire| - 1])
  }

  /** The flow-control character that the peer gets last, once the pending one is gone, is that of
      the decision. */
  predicate PeerTold(p: Port) {
    (if p.receiveFlowControl != '\0' then p.receiveFlowControl else LastFlow(p.wire)) == DecisionCode(p)
  }

  /** A decision's character is handed over directly while another one is still pending. */
  predicate Overtakes(p: Port, q: Port) {
    && Decides(p, q) && q.wire == p.wire + [Flow(DecisionCode(q))]
    && p.receiveFlowControl != '\0' && p.receiveFlowControl != DecisionCode(q)
  }

  lemma {:induction false} LastFlowStays(was: seq<Sent>, now: seq<Sent>)
    requires NoFlow(was, now)
    ensures LastFlow(now) == LastFlow(was)
    decreases |now|
  {
    if |now| == |was| {
      assert now == was;
    } else {
      LastFlowStays(was, now[..|now| - 1]);
    }
  }

  lemma LastFlowSnoc(wire: seq<Sent>, c: char)
    ensures LastFlow(wire + [Flow(c)]) == c
  {
  }

  lemma PeerToldStep(s: System, e: Event, s': System)
    requires Inv(s) && Next(s, e, s')
    ensures PeerTold(s'.port) <==> if Decides(s.port, s'.port) then !Overtakes(s.port, s'.port) else PeerTold(s.port)
  {
    var p, q := s.port, s'.port;
    DecisionsAreAnnounced(s, e, s');
    LastFlowSnoc(p.wire, DecisionCode(q));
    LastFlowSnoc(p.wire, p.receiveFlowControl);
    if LeavesFlow(p, q) {
      LastFlowStays(p.wire, q.wire);
    }
  }

  predicate DecidesAt(tr: seq<System>, j: nat)
    requires j + 1 < |tr|
  {
    Decides(tr[j].port, tr[j + 1].port)
  }

  predicate OvertakesAt(tr: seq<System>, j: nat)
    requires j + 1 < |tr|
  {
    Overtakes(tr[j].port, tr[j + 1].port)
  }

  /** The last decision before state i overtook a pending character. */
  predicate LastOvertook(tr: seq<System>, i: nat)
    requires i < |tr|
  {
    exists j :: 0 <= j < i && OvertakesAt(tr, j) && forall k :: j < k < i ==> !DecidesAt(tr, k)
  }

  lemma LastOvertookNext(tr: seq<System>, i: nat)
    requires 0 < i < |tr|
    ensures LastOvertook(tr, i) <==> if DecidesAt(tr, i - 1) then OvertakesAt(tr, i - 1) else LastOvertook(tr, i - 1)
  {
    if LastOvertook(tr, i - 1) && !DecidesAt(tr, i - 1) {
      var j :| 0 <= j < i - 1 && OvertakesAt(tr, j) && forall k :: j < k < i - 1 ==> !DecidesAt(tr, k);
      assert forall k :: j < k < i ==> !DecidesAt(tr, k);
    }
    if LastOvertook(tr, i) && !DecidesAt(tr, i - 1) {
      var j :| 0 <= j < i && OvertakesAt(tr, j) && forall k :: j < k < i ==> !DecidesAt(tr, k);
      assert j < i - 1;
    }
  }

  /** The peer is told the decision in force, now or by the pending character, if and only if the
      last decision's character did not overtake a pending one: that one goes out later, and the
      peer then does the opposite. */
  lemma {:induction false} PeerToldExactly(tr: seq<System>, es: seq<Event>, i: nat)
    requires Run(tr, es) && i < |tr|
    ensures PeerTold(tr[i].port) <==> !LastOvertook(tr, i)
  {
    if i == 0 {
      assert PeerTold(tr[0].port);
    } else {
      PeerToldExactly(tr, es, i - 1);
      RunInv(tr, es, i - 1);
      assert Next(tr[i - 1], es[i - 1], tr[i - 1 + 1]);
      PeerToldStep(tr[i - 1], es[i - 1], tr[i]);
      LastOvertookNext(tr, i);
    }
  }
}
