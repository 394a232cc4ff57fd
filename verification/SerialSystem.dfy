/** Any number of tasks that write to and read from one open serial port,
    interleaved with the interrupt callbacks. A task is a program counter with
    its local variables; one event is one atomic step of one task or callback.
    The history records what went in and what came out. */
module SerialSystem {
  import opened SerialPort

  const CR: char := '\r'
  const LF: char := '\n'

  datatype Ercd = E_OK | E_SYS | E_OBJ | E_RLWAI | E_DLT | E_RASTER | E_OTHER

  /** Where a task is while it sends one character; the token is the send
      semaphore's count, taken by Wait and WaitLf, given back by Signal. */
  datatype SendPc = Wait | Check | PutCr | WaitLf | Put(afterCr: bool) | Signal

  datatype ReadPc = WaitReceive | Get | EchoTest(c: char) | Echo(ec: char, spc: SendPc) | GiveBack

  datatype Outcome =
    | NoCall
    | Wrote(wbuf: seq<char>, wmark: nat, wricnt: nat, wercd: Ercd)
    | ReadBack(rlen: nat, rbuf: seq<char>, rmark: nat, remark: nat, reacnt: nat, rercd: Ercd)

  /** What a call returns: how much it has done, or else its error. */
  datatype Answer = Amount(n: nat) | Result(e: Ercd)

  function Returned(o: Outcome): Answer
    requires !o.NoCall?
  {
    var (done, ercd) := if o.Wrote? then (o.wricnt, o.wercd) else (o.reacnt, o.rercd);
    if done > 0 then Amount(done) else Result(ercd)
  }

  datatype Task =
    | Ready(last: Outcome)
    | Writing(buf: seq<char>, n: nat, pc: SendPc, mark: nat)
    | Reading(len: nat, got: seq<char>, mark: nat, emark: nat, m: nat, empty: bool, rpc: ReadPc)

  /** An incoming character, with the options and the ring's state it met. */
  datatype Input = Input(c: char, io: IoControl, full: bool)

  datatype History = History(
    accepted: seq<(nat, char)>,   // characters written, with the task that wrote them
    input: seq<Input>,
    delivered: seq<(nat, char)>,  // characters that readers took, with the task that took them
    drained: seq<char>,           // characters taken by the termination routine
    lostTokens: nat)              // readers that left without returning the receive token

  datatype System = System(port: Port, tasks: seq<Task>, terminating: bool, h: History)

  datatype Event =
    | StartWrite(t: nat, text: seq<char>)
    | StartRead(t: nat, length: nat)
    | Advance(t: nat, free: bool)
    | Abort(t: nat, ercd: Ercd)
    | SendCallback
    | ReceiveCallback(c: char, room: nat)
    | Control(io: IoControl)
    | Terminate
    | DrainChar

  // ---------- the steps of a task ----------

  predicate Waiting(pc: SendPc) { pc.Wait? || pc.WaitLf? }

  predicate HoldsSendPc(pc: SendPc) { pc.Check? || pc.PutCr? || pc.Put? || pc.Signal? }

  predicate HoldsSend(k: Task) {
    match k
    case Ready(_) => false
    case Writing(_, _, pc, _) => HoldsSendPc(pc)
    case Reading(_, _, _, _, _, _, rpc) => rpc.Echo? && HoldsSendPc(rpc.spc)
  }

  predicate HoldsReceive(k: Task) {
    k.Reading? && (k.rpc.Get? || k.rpc.GiveBack? || ((k.rpc.EchoTest? || k.rpc.Echo?) && !k.empty))
  }

  predicate WaitsForSend(k: Task) {
    (k.Writing? && Waiting(k.pc)) || (k.Reading? && k.rpc.Echo? && Waiting(k.rpc.spc))
  }

  predicate WaitsForReceive(k: Task) { k.Reading? && k.rpc.WaitReceive? }

  /** A writer's index stays inside its buffer, by the loop test. */
  predicate Shaped(k: Task) {
    k.Writing? ==> if k.pc.Signal? then k.n == |k.buf| else k.n < |k.buf|
  }

  datatype Note = Silent | Accepted(c: char) | Delivered(c: char) | LostToken

  datatype SendNext = Goto(pc: SendPc) | Finished(full: bool)

  datatype SendResult = SendResult(port: Port, next: SendNext, note: Note)

  /** One step of serialPort_writeChar, or of the wait that precedes it. */
  function SendStep(p: Port, pc: SendPc, c: char, free: bool): SendResult
    requires InRange(p) && !pc.Signal?
    requires Waiting(pc) ==> p.sendSem > 0
  {
    match pc
    case Wait => SendResult(p.(sendSem := p.sendSem - 1), Goto(Check), Silent)
    case Check => SendResult(p, Goto(if c == LF && p.io.crlf then PutCr else Put(false)), Silent)
    case PutCr => SendResult(WriteRegion(p, CR, free), Goto(if WriteFull(p, CR, free) then WaitLf else Put(true)), Accepted(CR))
    case WaitLf => SendResult(p.(sendSem := p.sendSem - 1), Goto(Put(true)), Silent)
    case Put(_) => SendResult(WriteRegion(p, c, free), Finished(WriteFull(p, c, free)), Accepted(c))
  }

  /** eSerialPort_write at its loop test, with n characters done. */
  function WriterNext(buf: seq<char>, n: nat, full: bool, mark: nat): Task {
    if n < |buf| then Writing(buf, n, if full then Wait else Check, mark)
    else if full then Ready(Wrote(buf, mark, n, E_OK))
    else Writing(buf, |buf|, Signal, mark)
  }

  /** A read that ends with the characters it has. */
  function ReadEnds(k: Task, ercd: Ercd): Task
    requires k.Reading?
  {
    Ready(ReadBack(k.len, k.got, k.mark, k.emark, k.m, ercd))
  }

  /** eSerialPort_read at its loop test. */
  function ReaderNext(k: Task): Task
    requires k.Reading?
  {
    if k.m < k.len then k.(rpc := if k.empty then WaitReceive else Get)
    else if k.empty then ReadEnds(k, E_OK)
    else k.(rpc := GiveBack)
  }

  datatype Effect = Effect(port: Port, task: Task, note: Note)

  function WriterStep(p: Port, k: Task, free: bool): Effect
    requires InRange(p) && k.Writing? && Shaped(k)
    requires WaitsForSend(k) ==> p.sendSem > 0
  {
    if k.pc.Signal? then
      Effect(SignalSend(p), Ready(Wrote(k.buf, k.mark, k.n, if p.sendSem == SEM_MAX then E_SYS else E_OK)), Silent)
    else
      var r := SendStep(p, k.pc, k.buf[k.n], free);
      Effect(r.port,
        match r.next
        case Goto(pc) => k.(pc := pc)
        case Finished(full) => WriterNext(k.buf, k.n + 1, full, k.mark),
        r.note)
  }

  function ReaderStep(p: Port, k: Task, free: bool): Effect
    requires InRange(p) && k.Reading?
    requires WaitsForSend(k) ==> p.sendSem > 0
    requires WaitsForReceive(k) ==> p.receiveSem > 0
  {
    match k.rpc
    case WaitReceive => Effect(p.(receiveSem := p.receiveSem - 1), k.(rpc := Get), Silent)
    case Get =>
      var q := ReadRegion(p, free);
      var c := p.receive.Front();
      Effect(q, k.(got := k.got + [c], m := k.m + 1, empty := q.receive.count == 0, rpc := EchoTest(c)), Delivered(c))
    case EchoTest(c) =>
      Effect(p, if p.io.echo then k.(rpc := Echo(c, Wait)) else ReaderNext(k), Silent)
    case Echo(c, spc) =>
      if spc.Signal? then
        if p.sendSem == SEM_MAX then
          Effect(SignalSend(p), ReadEnds(k, E_SYS), if k.empty then Silent else LostToken)
        else Effect(SignalSend(p), ReaderNext(k), Silent)
      else
        var r := SendStep(p, spc, c, free);
        Effect(r.port,
          match r.next
          case Goto(pc) => k.(rpc := Echo(c, pc))
          case Finished(full) => if full then ReaderNext(k) else k.(rpc := Echo(c, Signal)),
          r.note)
    case GiveBack =>
      Effect(SignalReceive(p), ReadEnds(k, if p.receiveSem == SEM_MAX then E_SYS else E_OK), Silent)
  }

  function TaskStep(p: Port, k: Task, free: bool): Effect
    requires InRange(p) && !k.Ready? && Shaped(k)
    requires WaitsForSend(k) ==> p.sendSem > 0
    requires WaitsForReceive(k) ==> p.receiveSem > 0
  {
    if k.Writing? then WriterStep(p, k, free) else ReaderStep(p, k, free)
  }

  /** gen_ercd_wait: an unexpected error of a wait becomes E_SYS and sets the error flag. */
  predicate Expected(e: Ercd) { e.E_RLWAI? || e.E_DLT? || e.E_RASTER? }

  function AbortStep(p: Port, k: Task, e: Ercd): Effect
    requires WaitsForSend(k) || WaitsForReceive(k)
  {
    var q := if Expected(e) then p else p.(errorFlag := true);
    var code := if Expected(e) then e else E_SYS;
    if k.Writing? then Effect(q, Ready(Wrote(k.buf, k.mark, k.n, code)), Silent)
    else Effect(q, ReadEnds(k, code), if HoldsReceive(k) then LostToken else Silent)
  }

  // ---------- the whole system ----------

  predicate Structural(s: System) {
    InRange(s.port) && forall i :: 0 <= i < |s.tasks| ==> Shaped(s.tasks[i])
  }

  predicate Enabled(s: System, e: Event) {
    match e
    case StartWrite(t, _) => !s.terminating && t < |s.tasks| && s.tasks[t].Ready?
    case StartRead(t, _) => !s.terminating && t < |s.tasks| && s.tasks[t].Ready?
    case Advance(t, _) =>
      && !s.terminating && t < |s.tasks| && !s.tasks[t].Ready?
      && (WaitsForSend(s.tasks[t]) ==> s.port.sendSem > 0)
      && (WaitsForReceive(s.tasks[t]) ==> s.port.receiveSem > 0)
    case Abort(t, e) =>
      !s.terminating && t < |s.tasks| && (WaitsForSend(s.tasks[t]) || WaitsForReceive(s.tasks[t])) && !e.E_OK?
    case SendCallback => !s.terminating
    case ReceiveCallback(_, _) => !s.terminating
    case Control(_) => !s.terminating
    case Terminate => !s.terminating
    case DrainChar => s.terminating
  }

  function Noted(h: History, t: nat, n: Note): History {
    match n
    case Silent => h
    case Accepted(c) => h.(accepted := h.accepted + [(t, c)])
    case Delivered(c) => h.(delivered := h.delivered + [(t, c)])
    case LostToken => h.(lostTokens := h.lostTokens + 1)
  }

  function Applied(s: System, t: nat, f: Effect): System
    requires t < |s.tasks|
  {
    System(f.port, s.tasks[t := f.task], s.terminating, Noted(s.h, t, f.note))
  }

  function StartWriteTask(s: System, text: seq<char>): Task {
    var mark := |s.h.accepted|;
    if !s.port.openFlag then Ready(Wrote(text, mark, 0, E_OBJ))
    else if s.port.errorFlag then Ready(Wrote(text, mark, 0, E_SYS))
    else WriterNext(text, 0, true, mark)
  }

  function StartReadTask(s: System, length: nat): Task {
    var k := Reading(length, [], |s.h.delivered|, |s.h.accepted|, 0, true, WaitReceive);
    if !s.port.openFlag then ReadEnds(k, E_OBJ)
    else if s.port.errorFlag then ReadEnds(k, E_SYS)
    else ReaderNext(k)
  }

  function Received(h: History, p: Port, c: char): History {
    h.(input := h.input + [Input(c, p.io, p.receive.Full())])
  }

  function Step(s: System, e: Event): System
    requires Structural(s) && Enabled(s, e)
  {
    match e
    case StartWrite(t, text) => s.(tasks := s.tasks[t := StartWriteTask(s, text)])
    case StartRead(t, length) => s.(tasks := s.tasks[t := StartReadTask(s, length)])
    case Advance(t, free) => Applied(s, t, TaskStep(s.port, s.tasks[t], free))
    case Abort(t, e) => Applied(s, t, AbortStep(s.port, s.tasks[t], e))
    case SendCallback => s.(port := ReadySend(s.port))
    case ReceiveCallback(c, room) =>
      s.(port := ReadyReceive(s.port, c, room), h := Received(s.h, s.port, c))
    case Control(io) => if s.port.openFlag && !s.port.errorFlag then s.(port := s.port.(io := io)) else s
    case Terminate => s.(terminating := true)
    case DrainChar =>
      s.(port := Drain(s.port),
         h := if s.port.openFlag && s.port.send.count > 0 then s.h.(drained := s.h.drained + [s.port.send.Front()]) else s.h)
  }

  const NO_HISTORY := History([], [], [], [], 0)

  ghost predicate Init(s: System) {
    && JustOpened(s.port)
    && (forall i :: 0 <= i < |s.tasks| ==> s.tasks[i] == Ready(NoCall))
    && !s.terminating && s.h == NO_HISTORY
  }

  ghost predicate Next(s: System, e: Event, s': System) {
    Structural(s) && Enabled(s, e) && s' == Step(s, e)
  }

  /** A run of the system: the states tr, one more than the events es that lead through them. */
  ghost predicate Run(tr: seq<System>, es: seq<Event>) {
    && |tr| == |es| + 1
    && Init(tr[0])
    && forall i :: 0 <= i < |es| ==> Next(tr[i], es[i], tr[i + 1])
  }

  /** A new port that is opened, and a port that is closed while no task is inside and opened
      again, is at the start of a run, with however many tasks. */
  lemma OpeningStartsARun(p: Port, tasks: seq<Task>)
    requires InRange(p) && forall i :: 0 <= i < |tasks| ==> tasks[i] == Ready(NoCall)
    requires p.openFlag || (p.sendSem == 1 && p.receiveSem == 0)
    ensures var q := if p.openFlag then Closed(p) else p;
      && !q.openFlag && Init(System(Opened(q), tasks, false, NO_HISTORY))
      && Opened(q).openFlag && Opened(q).io == IoControl(true, true, true, false, true)
      && Opened(q).send.buf == p.send.buf && Opened(q).receive.buf == p.receive.buf
  {
  }
}
