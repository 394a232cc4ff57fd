/** What every atomic step keeps: the two semaphore tokens, the order of the
    output, the input filter and the armed wake-up, in one invariant. */
module SerialInvariant {
  import opened Basics
  import opened Rings
  import opened SerialPort
  import opened SerialSystem

  /** How many of the tasks satisfy a predicate. */
  function Count(tasks: seq<Task>, holds: Task -> bool): nat {
    if tasks == [] then 0 else Count(tasks[..|tasks| - 1], holds) + One(holds(tasks[|tasks| - 1]))
  }

  lemma {:induction false} CountUpdate(tasks: seq<Task>, holds: Task -> bool, t: nat, k: Task)
    requires t < |tasks|
    ensures Count(tasks, holds) >= One(holds(tasks[t]))
    ensures Count(tasks[t := k], holds) == Count(tasks, holds) - One(holds(tasks[t])) + One(holds(k))
  {
    var n := |tasks| - 1;
    if t == n {
      assert tasks[t := k][..n] == tasks[..n];
    } else {
      assert tasks[t := k][..n] == tasks[..n][t := k];
      CountUpdate(tasks[..n], holds, t, k);
    }
  }

  lemma {:induction false} CountAtMostOne(tasks: seq<Task>, holds: Task -> bool, t: nat, u: nat)
    requires t < u < |tasks| && holds(tasks[t]) && holds(tasks[u])
    ensures Count(tasks, holds) >= 2
  {
    var n := |tasks| - 1;
    if u == n {
      CountUpdate(tasks[..n], holds, t, tasks[t]);
    } else {
      CountAtMostOne(tasks[..n], holds, t, u);
    }
  }

  lemma {:induction false} CountNone(tasks: seq<Task>, holds: Task -> bool)
    requires forall i :: 0 <= i < |tasks| ==> !holds(tasks[i])
    ensures Count(tasks, holds) == 0
  {
    if tasks == [] {
    } else {
      CountNone(tasks[..|tasks| - 1], holds);
    }
  }

  // ---------- token balance ----------

  /** The send token is in the semaphore or with one task, while the ring has room. */
  predicate SendBalance(p: Port, held: int) { p.sendSem + held == SendSlot(p) }

  /** The receive token likewise, while the ring is not empty; lost tokens count as held. */
  predicate ReceiveBalance(p: Port, held: int) { p.receiveSem + held == ReceiveSlot(p) }

  /** The pure transducer of the input: whether sending is stopped, and the characters kept. */
  datatype Filtered = Filtered(stopped: bool, kept: seq<char>)

  function FilterStep(f: Filtered, x: Input): Filtered {
    match Classify(x.io, f.stopped, x.full, x.c)
    case Stop => f.(stopped := true)
    case Restart => f.(stopped := false)
    case Stored => f.(kept := f.kept + [x.c])
    case _ => f
  }

  function Filter(xs: seq<Input>): Filtered {
    if xs == [] then Filtered(false, []) else FilterStep(Filter(xs[..|xs| - 1]), xs[|xs| - 1])
  }

  lemma FilterSnoc(xs: seq<Input>, x: Input)
    ensures Filter(xs + [x]) == FilterStep(Filter(xs), x)
  {
    assert (xs + [x])[..|xs|] == xs;
  }

  /** The characters of a record that also says whose they are. */
  function Chars(record: seq<(nat, char)>): seq<char> {
    seq(|record|, i requires 0 <= i < |record| => record[i].1)
  }

  // ---------- one step of one task ----------

  function AcceptedBy(n: Note): seq<char> { if n.Accepted? then [n.c] else [] }
  function DeliveredBy(n: Note): seq<char> { if n.Delivered? then [n.c] else [] }

  /** What the step from p to q with note n does to the queues and leaves alone. */
  ghost predicate Moved(p: Port, q: Port, n: Note) {
    && PortOk(p) && PortOk(q)
    && q.send.Size() == p.send.Size() && q.receive.Size() == p.receive.Size()
    && q.io == p.io && q.sendStopped == p.sendStopped
    && (WakeUpArmed(p) ==> WakeUpArmed(q))
    && Backlog(q) == Backlog(p) + AcceptedBy(n)
    && p.receive.Contents() == DeliveredBy(n) + q.receive.Contents()
  }

  lemma SendStepMoves(p: Port, pc: SendPc, c: char, free: bool, others: nat)
    requires PortOk(p) && !pc.Signal? && (Waiting(pc) ==> p.sendSem > 0)
    requires SendBalance(p, others + One(HoldsSendPc(pc)))
    ensures var r := SendStep(p, pc, c, free);
      && Moved(p, r.port, r.note) && !r.note.Delivered? && !r.note.LostToken?
      && SendBalance(r.port, others + One(if r.next.Goto? then HoldsSendPc(r.next.pc) else !r.next.full))
      && r.port == p.(send := r.port.send, wire := r.port.wire, sendReady := r.port.sendReady, sendSem := r.port.sendSem)
      && (pc.PutCr? || pc.Put? ==> !p.send.Full())
  {
    if pc.PutCr? { WriteKeepsOrder(p, CR, free); }
    if pc.Put? { WriteKeepsOrder(p, c, free); }
  }

  lemma WriterStepMoves(p: Port, k: Task, free: bool, others: nat)
    requires PortOk(p) && k.Writing? && Shaped(k) && (WaitsForSend(k) ==> p.sendSem > 0)
    requires SendBalance(p, others + One(HoldsSend(k)))
    ensures var f := WriterStep(p, k, free);
      && Moved(p, f.port, f.note) && Shaped(f.task) && !f.note.Delivered? && !f.note.LostToken?
      && SendBalance(f.port, others + One(HoldsSend(f.task))) && !HoldsReceive(f.task)
      && f.port == p.(send := f.port.send, wire := f.port.wire, sendReady := f.port.sendReady, sendSem := f.port.sendSem)
  {
    if !k.pc.Signal? {
      SendStepMoves(p, k.pc, k.buf[k.n], free, others);
    }
  }

  lemma GetMoves(p: Port, free: bool)
    requires PortOk(p) && p.receive.count > 0
    ensures Moved(p, ReadRegion(p, free), Delivered(p.receive.Front()))
    ensures var q := ReadRegion(p, free);
      && q.receive == p.receive.Take() && q.receive.count == p.receive.count - 1
      && q.send == p.send && q.sendSem == p.sendSem && q.receiveSem == p.receiveSem && q.errorFlag == p.errorFlag
  {
    TakeRemovesFront(p.receive);
    var q := ReadRegion(p, free);
    if q.wire != p.wire {
      DataOfSnoc(p.wire, Flow(FC_START));
    }
    assert Backlog(q) == Backlog(p);
  }

  /** What a task's step keeps; `others` and `otherReaders` hold the rest of the tokens. */
  ghost predicate StepKeeps(p: Port, k: Task, f: Effect, others: nat, otherReaders: nat) {
    && Moved(p, f.port, f.note) && Shaped(f.task) && !f.note.LostToken?
    && SendBalance(f.port, others + One(HoldsSend(f.task)))
    && ReceiveBalance(f.port, otherReaders + One(HoldsReceive(f.task)))
    && f.port.errorFlag == p.errorFlag
  }

  lemma GetStepMoves(p: Port, k: Task, free: bool, others: nat, otherReaders: nat)
    requires PortOk(p) && k.Reading? && k.rpc.Get?
    requires SendBalance(p, others) && ReceiveBalance(p, otherReaders + 1)
    ensures StepKeeps(p, k, ReaderStep(p, k, free), others, otherReaders)
  {
    GetMoves(p, free);
  }

  lemma EchoStepMoves(p: Port, k: Task, free: bool, others: nat, otherReaders: nat)
    requires PortOk(p) && k.Reading? && k.rpc.Echo? && (WaitsForSend(k) ==> p.sendSem > 0)
    requires SendBalance(p, others + One(HoldsSend(k)))
    requires ReceiveBalance(p, otherReaders + One(!k.empty))
    ensures StepKeeps(p, k, ReaderStep(p, k, free), others, otherReaders)
  {
    if !k.rpc.spc.Signal? {
      SendStepMoves(p, k.rpc.spc, k.rpc.ec, free, others);
    }
  }

  lemma ReaderStepMoves(p: Port, k: Task, free: bool, others: nat, otherReaders: nat)
    requires PortOk(p) && k.Reading?
    requires (WaitsForSend(k) ==> p.sendSem > 0) && (WaitsForReceive(k) ==> p.receiveSem > 0)
    requires SendBalance(p, others + One(HoldsSend(k)))
    requires ReceiveBalance(p, otherReaders + One(HoldsReceive(k)))
    ensures StepKeeps(p, k, ReaderStep(p, k, free), others, otherReaders)
  {
    match k.rpc
    case Get => GetStepMoves(p, k, free, others, otherReaders);
    case Echo(_, _) => EchoStepMoves(p, k, free, others, otherReaders);
    case _ =>
  }

  // ---------- one callback ----------

  /** What a callback keeps: tokens, backlog, armed wake-up. */
  ghost predicate CallbackKeeps(p: Port, q: Port, writers: nat, readers: nat) {
    && PortOk(p) && PortOk(q) && Backlog(q) == Backlog(p)
    && SendBalance(q, writers) && ReceiveBalance(q, readers)
    && (WakeUpArmed(p) ==> WakeUpArmed(q))
    && q.errorFlag == p.errorFlag && q.io == p.io
    && q.send.Size() == p.send.Size() && q.receive.Size() == p.receive.Size()
  }

  lemma ReadySendKeeps(p: Port, writers: nat, readers: nat)
    requires PortOk(p) && SendBalance(p, writers) && ReceiveBalance(p, readers)
    ensures var q := ReadySend(p);
      CallbackKeeps(p, q, writers, readers) && q.receive == p.receive && q.sendStopped == p.sendStopped
  {
    if p.receiveFlowControl != NUL {
      DataOfSnoc(p.wire, Flow(p.receiveFlowControl));
    } else if !p.sendStopped && p.send.count > 0 {
      PopKeepsOrder(p);
    }
  }

  lemma {:induction false} ResumeKeeps(p: Port, room: nat, writers: nat, readers: nat)
    requires PortOk(p) && SendBalance(p, writers) && ReceiveBalance(p, readers) && !p.sendStopped
    requires p.receiveFlowControl != NUL ==> p.sendReady
    ensures var q := Resume(p, room);
      && PortOk(q) && Backlog(q) == Backlog(p) && SendBalance(q, writers) && WakeUpArmed(q)
      && q.send.Size() == p.send.Size()
      && q == p.(send := q.send, wire := q.wire, sendSem := q.sendSem, sendReady := q.sendReady)
    decreases room
  {
    if p.send.count > 0 && room > 0 {
      PopKeepsOrder(p);
      ResumeKeeps(PopSend(p), room - 1, writers, readers);
    }
  }

  lemma StoreFields(p: Port, c: char, free: bool)
    requires InRange(p) && (p.receive.count == 0 ==> p.receiveSem == 0)
    ensures var q := StoreReceived(p, c, free);
      && q.receive == p.receive.Put(c) && (q.wire == p.wire || q.wire == p.wire + [Flow(FC_STOP)])
      && (q.sendReady <==> p.sendReady || (StopDecision(p) && !free))
      && q.receiveFlowControl == (if StopDecision(p) && !free then FC_STOP else p.receiveFlowControl)
      && q.receiveSem == p.receiveSem + (if p.receive.count == 0 then 1 else 0)
      && q == p.(receive := q.receive, wire := q.wire, sendReady := q.sendReady, receiveSem := q.receiveSem,
                 receiveFlowControl := q.receiveFlowControl, receiveStopped := q.receiveStopped)
  {
  }

  lemma StoreKeeps(p: Port, c: char, free: bool, writers: nat, readers: nat)
    requires PortOk(p) && SendBalance(p, writers) && ReceiveBalance(p, readers) && !p.receive.Full()
    ensures var q := StoreReceived(p, c, free);
      && CallbackKeeps(p, q, writers, readers) && q.sendStopped == p.sendStopped
      && q.receive.Contents() == p.receive.Contents() + [c]
  {
    PutAppends(p.receive, c);
    var q := StoreReceived(p, c, free);
    StoreFields(p, c, free);
    DataOfSnoc(p.wire, Flow(FC_STOP));
    assert DataOf(q.wire) == DataOf(p.wire);
  }

  lemma ReadyReceiveKeeps(p: Port, c: char, room: nat, writers: nat, readers: nat)
    requires PortOk(p) && SendBalance(p, writers) && ReceiveBalance(p, readers) && WakeUpArmed(p)
    ensures var q := ReadyReceive(p, c, room);
      var f := FilterStep(Filtered(p.sendStopped, p.receive.Contents()), Input(c, p.io, p.receive.Full()));
      && CallbackKeeps(p, q, writers, readers)
      && q.sendStopped == f.stopped && q.receive.Contents() == f.kept
  {
    match Classify(p.io, p.sendStopped, p.receive.Full(), c)
    case Restart => ResumeKeeps(p.(sendStopped := false), room, writers, readers);
    case Stored => StoreKeeps(p, c, room > 0, writers, readers);
    case _ =>
  }

  // ---------- the invariant ----------

  /** Output in order: what was written is what was sent, drained or is still queued. */
  ghost predicate OutputRecorded(p: Port, h: History, terminating: bool) {
    && p.send.Ok()
    && (if terminating then DataOf(p.wire) + h.drained + p.send.Contents() == Chars(h.accepted)
        else h.drained == [] && Backlog(p) == Chars(h.accepted))
  }

  /** Input filtered: what passed the filter is what was delivered or is still queued. */
  ghost predicate InputRecorded(p: Port, h: History) {
    && p.receive.Ok()
    && Filter(h.input) == Filtered(p.sendStopped, Chars(h.delivered) + p.receive.Contents())
  }

  ghost predicate Balanced(p: Port, tasks: seq<Task>, lost: nat) {
    && SendBalance(p, Count(tasks, HoldsSend))
    && ReceiveBalance(p, Count(tasks, HoldsReceive) + lost)
  }

  ghost predicate Inv(s: System) {
    && Structural(s) && PortOk(s.port) && WakeUpArmed(s.port)
    && OutputRecorded(s.port, s.h, s.terminating) && InputRecorded(s.port, s.h)
    && (!s.terminating ==> Balanced(s.port, s.tasks, s.h.lostTokens))
  }

  lemma InitInv(s: System)
    requires Init(s)
    ensures Inv(s)
  {
    CountNone(s.tasks, HoldsSend);
    CountNone(s.tasks, HoldsReceive);
  }

  /** Replacing one task replaces its share of the tokens. */
  lemma TaskBalance(p: Port, q: Port, tasks: seq<Task>, t: nat, k: Task, lost: nat, lost': nat)
    requires t < |tasks| && Balanced(p, tasks, lost)
    requires SendBalance(q, Count(tasks, HoldsSend) - One(HoldsSend(tasks[t])) + One(HoldsSend(k)))
    requires ReceiveBalance(q, Count(tasks, HoldsReceive) + lost' - One(HoldsReceive(tasks[t])) + One(HoldsReceive(k)))
    ensures Balanced(q, tasks[t := k], lost')
  {
    CountUpdate(tasks, HoldsSend, t, k);
    CountUpdate(tasks, HoldsReceive, t, k);
  }

  lemma NotedHistory(h: History, t: nat, n: Note)
    ensures var g := Noted(h, t, n);
      && Chars(g.accepted) == Chars(h.accepted) + AcceptedBy(n)
      && Chars(g.delivered) == Chars(h.delivered) + DeliveredBy(n)
  {
  }

  lemma MovedOutput(p: Port, q: Port, h: History, t: nat, n: Note)
    requires OutputRecorded(p, h, false) && q.send.Ok() && Backlog(q) == Backlog(p) + AcceptedBy(n)
    ensures OutputRecorded(q, Noted(h, t, n), false)
  {
    NotedHistory(h, t, n);
  }

  lemma Associates(x: seq<char>, y: seq<char>, z: seq<char>)
    ensures x + (y + z) == x + y + z
  {
  }

  lemma MovedInput(p: Port, q: Port, h: History, t: nat, n: Note)
    requires InputRecorded(p, h) && q.receive.Ok() && q.sendStopped == p.sendStopped
    requires p.receive.Contents() == DeliveredBy(n) + q.receive.Contents()
    ensures InputRecorded(q, Noted(h, t, n))
  {
    NotedHistory(h, t, n);
    Associates(Chars(h.delivered), DeliveredBy(n), q.receive.Contents());
  }

  lemma BalancedStep(p: Port, k: Task, free: bool, others: nat, otherReaders: nat)
    requires PortOk(p) && !k.Ready? && Shaped(k)
    requires (WaitsForSend(k) ==> p.sendSem > 0) && (WaitsForReceive(k) ==> p.receiveSem > 0)
    requires SendBalance(p, others + One(HoldsSend(k)))
    requires ReceiveBalance(p, otherReaders + One(HoldsReceive(k)))
    ensures StepKeeps(p, k, TaskStep(p, k, free), others, otherReaders)
  {
    if k.Writing? {
      WriterStepMoves(p, k, free, others);
    } else {
      ReaderStepMoves(p, k, free, others, otherReaders);
    }
  }

  /** The tokens and the port after a step of a task. */
  lemma TaskStepMoves(s: System, t: nat, free: bool)
    requires Inv(s) && Enabled(s, Advance(t, free))
    ensures var f := TaskStep(s.port, s.tasks[t], free);
      && Moved(s.port, f.port, f.note) && Shaped(f.task) && !f.note.LostToken?
      && Balanced(f.port, s.tasks[t := f.task], s.h.lostTokens)
      && f.port.errorFlag == s.port.errorFlag
  {
    var k := s.tasks[t];
    CountUpdate(s.tasks, HoldsSend, t, k);
    CountUpdate(s.tasks, HoldsReceive, t, k);
    var others := Count(s.tasks, HoldsSend) - One(HoldsSend(k));
    var otherReaders := Count(s.tasks, HoldsReceive) + s.h.lostTokens - One(HoldsReceive(k));
    BalancedStep(s.port, k, free, others, otherReaders);
    var f := TaskStep(s.port, k, free);
    CountUpdate(s.tasks, HoldsSend, t, f.task);
    CountUpdate(s.tasks, HoldsReceive, t, f.task);
  }

  /** A task's step keeps the invariant. */
  lemma AdvanceKeeps(s: System, t: nat, free: bool)
    requires Inv(s) && Enabled(s, Advance(t, free))
    ensures Inv(Step(s, Advance(t, free)))
  {
    var f := TaskStep(s.port, s.tasks[t], free);
    TaskStepMoves(s, t, free);
    MovedOutput(s.port, f.port, s.h, t, f.note);
    MovedInput(s.port, f.port, s.h, t, f.note);
    var s' := Step(s, Advance(t, free));
    assert s'.h.lostTokens == s.h.lostTokens;
  }

  /** A task that leaves while it holds the receive token loses it. */
  lemma AbortBalance(p: Port, q: Port, tasks: seq<Task>, t: nat, k: Task, lost: nat)
    requires t < |tasks| && Balanced(p, tasks, lost) && !HoldsSend(tasks[t]) && k.Ready?
    requires q == p.(errorFlag := q.errorFlag)
    ensures Balanced(q, tasks[t := k], lost + One(HoldsReceive(tasks[t])))
  {
    CountUpdate(tasks, HoldsSend, t, k);
    CountUpdate(tasks, HoldsReceive, t, k);
  }

  /** An aborted call changes no queue; it may set the error flag and lose the receive token. */
  lemma AbortLeaves(p: Port, k: Task, e: Ercd)
    requires WaitsForSend(k) || WaitsForReceive(k)
    ensures var f := AbortStep(p, k, e);
      && f.task.Ready? && f.note == (if HoldsReceive(k) then LostToken else Silent)
      && f.port == p.(errorFlag := p.errorFlag || !Expected(e)) && !HoldsSend(k)
  {
  }

  lemma AbortKeeps(s: System, t: nat, e: Ercd)
    requires Inv(s) && Enabled(s, Abort(t, e))
    ensures Inv(Step(s, Abort(t, e)))
  {
    AbortLeaves(s.port, s.tasks[t], e);
    var f := AbortStep(s.port, s.tasks[t], e);
    AbortBalance(s.port, f.port, s.tasks, t, f.task, s.h.lostTokens);
  }

  lemma StartKeeps(s: System, t: nat, k: Task)
    requires Inv(s) && !s.terminating && t < |s.tasks| && s.tasks[t].Ready?
    requires Shaped(k) && !HoldsSend(k) && !HoldsReceive(k)
    ensures Inv(s.(tasks := s.tasks[t := k]))
  {
    TaskBalance(s.port, s.port, s.tasks, t, k, s.h.lostTokens, s.h.lostTokens);
  }

  lemma SendCallbackKeeps(s: System)
    requires Inv(s) && !s.terminating
    ensures Inv(Step(s, SendCallback))
  {
    ReadySendKeeps(s.port, Count(s.tasks, HoldsSend), Count(s.tasks, HoldsReceive) + s.h.lostTokens);
  }

  lemma FilterAfter(f: Filtered, before: seq<char>, x: Input)
    ensures FilterStep(Filtered(f.stopped, before + f.kept), x)
         == Filtered(FilterStep(f, x).stopped, before + FilterStep(f, x).kept)
  {
    assert before + (f.kept + [x.c]) == before + f.kept + [x.c];
  }

  lemma ReceiveKeeps(s: System, c: char, room: nat)
    requires Inv(s) && !s.terminating
    ensures Inv(Step(s, ReceiveCallback(c, room)))
  {
    var p, h := s.port, s.h;
    var x := Input(c, p.io, p.receive.Full());
    ReadyReceiveKeeps(p, c, room, Count(s.tasks, HoldsSend), Count(s.tasks, HoldsReceive) + h.lostTokens);
    FilterSnoc(h.input, x);
    FilterAfter(Filtered(p.sendStopped, p.receive.Contents()), Chars(h.delivered), x);
  }

  lemma DrainKeeps(s: System)
    requires Inv(s) && s.terminating
    ensures Inv(Step(s, DrainChar))
  {
    if s.port.send.count > 0 {
      TakeRemovesFront(s.port.send);
      var s' := Step(s, DrainChar);
      assert DataOf(s'.port.wire) + s'.h.drained + s'.port.send.Contents()
          == DataOf(s.port.wire) + s.h.drained + ([s.port.send.Front()] + s'.port.send.Contents());
    }
  }

  lemma TerminateKeeps(s: System)
    requires Inv(s) && !s.terminating
    ensures Inv(Step(s, Terminate))
  {
    assert DataOf(s.port.wire) + [] + s.port.send.Contents() == Backlog(s.port);
  }

  lemma NextKeepsInv(s: System, e: Event, s': System)
    requires Inv(s) && Next(s, e, s')
    ensures Inv(s')
  {
    match e
    case StartWrite(t, text) => StartKeeps(s, t, StartWriteTask(s, text));
    case StartRead(t, length) => StartKeeps(s, t, StartReadTask(s, length));
    case Advance(t, free) => AdvanceKeeps(s, t, free);
    case Abort(t, ercd) => AbortKeeps(s, t, ercd);
    case SendCallback => SendCallbackKeeps(s);
    case ReceiveCallback(c, room) => ReceiveKeeps(s, c, room);
    case Control(_) =>
    case Terminate => TerminateKeeps(s);
    case DrainChar => DrainKeeps(s);
  }

  lemma {:induction false} RunInv(tr: seq<System>, es: seq<Event>, i: nat)
    requires Run(tr, es) && i < |tr|
    ensures Inv(tr[i])
  {
    if i == 0 {
      InitInv(tr[0]);
    } else {
      RunInv(tr, es, i - 1);
      NextKeepsInv(tr[i - 1], es[i - 1], tr[i]);
    }
  }
}
