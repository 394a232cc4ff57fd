/** The state that the tasks and the interrupt callbacks of the serial
    interface driver share, and its atomic steps: one function for each
    region the driver runs with the CPU locked, each callback and each
    semaphore operation. What the hardware decides is an argument: `free`
    says that the transmit register takes a character, `room` how many
    characters it takes one after the other. */
module SerialPort {
  import opened Basics
  import opened Rings

  const FC_STOP: char := 19 as char   // Control-S
  const FC_START: char := 17 as char  // Control-Q
  const NUL: char := '\0'

  /** The IOCTL_* option bits. */
  datatype IoControl = IoControl(echo: bool, crlf: bool, fcsnd: bool, fcany: bool, fcrcv: bool)

  /** What the SIO port is given: a data or a flow-control character. */
  datatype Sent = Data(c: char) | Flow(c: char)

  datatype Port = Port(
    openFlag: bool,
    errorFlag: bool,
    io: IoControl,
    receive: Ring<char>,
    receiveFlowControl: char,
    receiveStopped: bool,
    send: Ring<char>,
    sendStopped: bool,
    sendSem: nat,
    receiveSem: nat,
    sendReady: bool,        // the send-ready callback is enabled
    wire: seq<Sent>)        // everything the SIO port accepted

  const SEM_MAX: nat := 1

  /** BUFCNT_STOP and BUFCNT_START, in the 32-bit unsigned arithmetic of the source. */
  function StopCount(size: nat): nat { size * 3 % UINT_MODULUS / 4 }
  function StartCount(size: nat): nat { size / 2 }

  /** The four ring pointers are array positions; every step keeps this by INC_PTR alone. */
  predicate InRange(p: Port) {
    && p.send.rp < p.send.Size() && p.send.wp < p.send.Size()
    && p.receive.rp < p.receive.Size() && p.receive.wp < p.receive.Size()
  }

  ghost predicate PortOk(p: Port) {
    p.openFlag && p.send.Ok() && p.receive.Ok()
  }

  function SignalSend(p: Port): Port {
    if p.sendSem == SEM_MAX then p.(errorFlag := true) else p.(sendSem := p.sendSem + 1)
  }

  function SignalReceive(p: Port): Port {
    if p.receiveSem == SEM_MAX then p.(errorFlag := true) else p.(receiveSem := p.receiveSem + 1)
  }

  /** serialPort_sendChar: hand over the character, or ask for the send-ready callback. */
  function SendChar(p: Port, x: Sent, free: bool): Port {
    if free then p.(wire := p.wire + [x]) else p.(sendReady := true)
  }

  /** The locked region of serialPort_writeChar. */
  function WriteRegion(p: Port, c: char, free: bool): Port
    requires p.send.wp < p.send.Size()
  {
    var attempt := p.send.count == 0 && !p.sendStopped;
    var q := if attempt then SendChar(p, Data(c), free) else p;
    if attempt && free then q else q.(send := q.send.Put(c))
  }

  /** buffer_full as that region computes it. */
  function WriteFull(p: Port, c: char, free: bool): bool
    requires p.send.wp < p.send.Size()
  {
    !(p.send.count == 0 && !p.sendStopped && free) && p.send.Put(c).Full()
  }

  /** The locked region of serialPort_readChar. */
  function ReadRegion(p: Port, free: bool): Port {
    var q := p.(receive := p.receive.Take());
    if q.receiveStopped && q.receive.count <= StartCount(q.receive.Size()) then
      var r := SendChar(q, Flow(FC_START), free);
      r.(receiveFlowControl := if free then r.receiveFlowControl else FC_START, receiveStopped := false)
    else q
  }

  /** The oldest character leaves the send ring; a ring that was full gets its token back. */
  function DropSend(p: Port): Port {
    (if p.send.Full() then SignalSend(p) else p).(send := p.send.Take())
  }

  /** It is given to the SIO port. */
  function PopSend(p: Port): Port
    requires InRange(p)
  {
    DropSend(p.(wire := p.wire + [Data(p.send.Front())]))
  }

  /** eiSIOCBR_readySend, which the SIO driver calls when the register is free. */
  function ReadySend(p: Port): Port
    requires InRange(p)
  {
    if p.receiveFlowControl != NUL then
      p.(wire := p.wire + [Flow(p.receiveFlowControl)], receiveFlowControl := NUL)
    else if !p.sendStopped && p.send.count > 0 then PopSend(p)
    else p.(sendReady := false)
  }

  /** The loop that empties the send ring when sending resumes. */
  function Resume(p: Port, room: nat): Port
    requires InRange(p)
    decreases room
  {
    if p.send.count == 0 then p
    else if room == 0 then p.(sendReady := true)
    else Resume(PopSend(p), room - 1)
  }

  /** How eiSIOCBR_readyReceive sorts an incoming character. */
  datatype Arrival = Stop | Restart | Ignored | Discarded | Stored

  function Classify(io: IoControl, stopped: bool, full: bool, c: char): Arrival {
    if io.fcsnd && c == FC_STOP then Stop
    else if stopped && (c == FC_START || io.fcany) then Restart
    else if io.fcsnd && c == FC_START then Ignored
    else if full then Discarded
    else Stored
  }

  /** True when storing one more character makes the driver decide to send STOP. */
  predicate StopDecision(p: Port) {
    p.io.fcrcv && !p.receiveStopped && p.receive.count + 1 >= StopCount(p.receive.Size())
  }

  /** The branch that stores a character. */
  function StoreReceived(p: Port, c: char, free: bool): Port
    requires p.receive.wp < p.receive.Size()
  {
    var q := if p.receive.count == 0 then SignalReceive(p) else p;
    var r := q.(receive := p.receive.Put(c));
    if StopDecision(p) then
      var s := SendChar(r, Flow(FC_STOP), free);
      s.(receiveFlowControl := if free then s.receiveFlowControl else FC_STOP, receiveStopped := true)
    else r
  }

  /** eiSIOCBR_readyReceive. */
  function ReadyReceive(p: Port, c: char, room: nat): Port
    requires InRange(p)
  {
    match Classify(p.io, p.sendStopped, p.receive.Full(), c)
    case Stop => p.(sendStopped := true)
    case Restart => Resume(p.(sendStopped := false), room)
    case Ignored => p
    case Discarded => p
    case Stored => StoreReceived(p, c, room > 0)
  }

  /** enSerialPortManage_getChar, used when the system terminates. */
  function Drain(p: Port): Port {
    if p.openFlag && p.send.count > 0 then p.(send := p.send.Take()) else p
  }

  /** eSerialPort_open on a closed port. What is sent is counted from here on. */
  function Opened(p: Port): Port {
    p.(openFlag := true, errorFlag := false,
       io := IoControl(true, true, true, false, true),
       receive := Ring(p.receive.buf, 0, 0, 0), receiveFlowControl := NUL, receiveStopped := false,
       send := Ring(p.send.buf, 0, 0, 0), sendStopped := false,
       wire := [])
  }

  /** eSerialPort_close on an open port: both semaphores are re-initialised. */
  function Closed(p: Port): Port {
    p.(openFlag := false, sendSem := 1, receiveSem := 0)
  }

  /** What holds just after a port has been opened. */
  ghost predicate JustOpened(p: Port) {
    && PortOk(p) && !p.errorFlag
    && p.send.count == 0 && p.receive.count == 0
    && p.receiveFlowControl == NUL && !p.receiveStopped && !p.sendStopped
    && p.sendSem == 1 && p.receiveSem == 0 && p.wire == []
  }

  // ---------- what one atomic step keeps ----------

  /** The data characters among those given to the SIO port. */
  function DataOf(wire: seq<Sent>): seq<char> {
    if wire == [] then []
    else DataOf(wire[..|wire| - 1]) + (match wire[|wire| - 1] case Data(c) => [c] case Flow(_) => [])
  }

  /** Everything written so far that is not lost: sent, or still in the ring. */
  ghost function Backlog(p: Port): seq<char>
    requires p.send.Ok()
  {
    DataOf(p.wire) + p.send.Contents()
  }

  /** One token for the writers while the send ring has room. */
  function SendSlot(p: Port): nat { if p.send.count == p.send.Size() then 0 else 1 }

  /** One token for the readers while the receive ring holds something. */
  function ReceiveSlot(p: Port): nat { if p.receive.count == 0 then 0 else 1 }

  /** Something is waiting to be sent only while the send-ready callback is on. */
  predicate WakeUpArmed(p: Port) {
    (p.send.count > 0 && !p.sendStopped) || p.receiveFlowControl != NUL ==> p.sendReady
  }

  lemma DataOfSnoc(wire: seq<Sent>, x: Sent)
    ensures DataOf(wire + [x]) == DataOf(wire) + (match x case Data(c) => [c] case Flow(_) => [])
  {
    assert (wire + [x])[..|wire|] == wire;
  }

  /** What writing c did: it joined the end of the backlog, and the rest is as it was. */
  ghost predicate Written(p: Port, q: Port, c: char) {
    && PortOk(p) && PortOk(q) && Backlog(q) == Backlog(p) + [c]
    && (WakeUpArmed(p) ==> WakeUpArmed(q))
    && q == p.(send := q.send, wire := q.wire, sendReady := q.sendReady)
    && q.send.Size() == p.send.Size()
  }

  lemma HandOverWrites(p: Port, c: char)
    requires PortOk(p) && p.send.count == 0
    ensures Written(p, SendChar(p, Data(c), true), c)
  {
    DataOfSnoc(p.wire, Data(c));
    assert p.send.Contents() == [];
  }

  lemma StoreWrites(p: Port, c: char, ready: bool)
    requires PortOk(p) && !p.send.Full() && (p.sendReady ==> ready)
    requires WakeUpArmed(p) && !p.sendStopped ==> ready
    ensures Written(p, p.(send := p.send.Put(c), sendReady := ready), c)
  {
    PutAppends(p.send, c);
    var q := p.(send := p.send.Put(c), sendReady := ready);
    assert Backlog(q) == DataOf(p.wire) + (p.send.Contents() + [c]);
  }

  /** Whichever of the two ways a character is written, it joins the end of the backlog. */
  lemma WriteKeepsOrder(p: Port, c: char, free: bool)
    requires PortOk(p) && !p.send.Full()
    ensures Written(p, WriteRegion(p, c, free), c)
    ensures WriteFull(p, c, free) <==> WriteRegion(p, c, free).send.Full()
  {
    if p.send.count == 0 && !p.sendStopped && free {
      HandOverWrites(p, c);
    } else {
      StoreWrites(p, c, WriteRegion(p, c, free).sendReady);
    }
  }

  /** The oldest character of the ring is the next one on the wire. */
  lemma BacklogMoves(wire: seq<Sent>, send: Ring<char>)
    requires send.Ok() && send.count > 0
    ensures send.Take().Ok()
    ensures DataOf(wire + [Data(send.Front())]) + send.Take().Contents() == DataOf(wire) + send.Contents()
  {
    DataOfSnoc(wire, Data(send.Front()));
    TakeRemovesFront(send);
    var data, c, rest := DataOf(wire), send.Front(), send.Take().Contents();
    assert data + ([c] + rest) == data + [c] + rest;
  }

  lemma DropSendFields(p: Port)
    requires p.send.count > 0 && p.send.count <= p.send.Size() && (p.send.Full() ==> p.sendSem == 0)
    ensures var q := DropSend(p);
      && q.send == p.send.Take() && q.wire == p.wire
      && q == p.(send := q.send, sendSem := p.sendSem + SendSlot(q) - SendSlot(p))
  {
  }

  /** Moving the oldest character of a non-empty ring to the SIO port keeps the backlog,
      and frees a full ring with exactly one signal. */
  lemma PopKeepsOrder(p: Port)
    requires PortOk(p) && p.send.count > 0
    requires p.send.Full() ==> p.sendSem == 0
    ensures var q := PopSend(p);
      && PortOk(q) && Backlog(q) == Backlog(p)
      && q.send.count == p.send.count - 1 && q.send.Size() == p.send.Size()
      && q == p.(send := q.send, wire := q.wire, sendSem := p.sendSem + SendSlot(q) - SendSlot(p))
  {
    DropSendFields(p.(wire := p.wire + [Data(p.send.Front())]));
    TakeRemovesFront(p.send);
    BacklogMoves(p.wire, p.send);
  }

  lemma DropSendLeavesWire(p: Port, wire: seq<Sent>)
    ensures DropSend(p.(wire := wire)).(wire := p.wire) == DropSend(p)
  {
    var q := p.(wire := wire);
    assert SignalSend(q).(wire := p.wire) == SignalSend(p);
    if p.send.Full() {
      assert DropSend(q) == SignalSend(q).(send := p.send.Take());
    } else {
      assert DropSend(q) == q.(send := p.send.Take());
    }
  }
}
