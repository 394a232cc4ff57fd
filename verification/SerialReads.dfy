/** What a call of the read service has taken from the input and echoed when it returns, and at
    every point before. */
module SerialReads {
  import opened SerialPort
  import opened SerialSystem
  import opened SerialInvariant
  import opened SerialWrites

  /** What is echoed for the characters that were read. */
  function Echoed(echo: bool, crlf: bool, text: seq<char>): seq<char> {
    if echo then Expand(crlf, text) else []
  }

  /** A reader has as many characters as it counts, and they are the ones it took. */
  predicate Reader(k: Task, taken: seq<char>)
    requires k.Reading?
  {
    && k.got == taken && k.m == |taken| <= k.len
    && match k.rpc
       case WaitReceive => k.m < k.len
       case Get => k.m < k.len
       case EchoTest(c) => k.m > 0 && c == taken[k.m - 1]
       case Echo(c, _) => k.m > 0 && c == taken[k.m - 1]
       case GiveBack => k.m == k.len
  }

  /** What it has echoed: all, or all but the last and perhaps that one's CR. */
  predicate Echoer(echo: bool, crlf: bool, k: Task, echoed: seq<char>)
    requires k.Reading? && ((k.rpc.EchoTest? || k.rpc.Echo?) ==> |k.got| > 0)
  {
    match k.rpc
    case EchoTest(_) => echoed == Echoed(echo, crlf, k.got[..|k.got| - 1])
    case Echo(c, pc) =>
      var needsCr := crlf && c == LF;
      && echo
      && (if pc.Signal? then echoed == Expand(crlf, k.got)
          else echoed == Expand(crlf, k.got[..|k.got| - 1]) + (if pc.WaitLf? || pc == Put(true) then [CR] else []))
      && (pc.PutCr? || pc.WaitLf? || pc == Put(true) ==> needsCr)
      && (pc == Put(false) ==> !needsCr)
    case _ => echoed == Echoed(echo, crlf, k.got)
  }

  /** All but the last character is echoed, and of that at most its CR. */
  predicate LastUnechoed(crlf: bool, taken: seq<char>, echoed: seq<char>)
    requires taken != []
  {
    var before := Expand(crlf, taken[..|taken| - 1]);
    echoed == before || (crlf && taken[|taken| - 1] == LF && echoed == before + [CR])
  }

  /** What a finished read has taken and echoed. */
  predicate Read(echo: bool, crlf: bool, o: Outcome, taken: seq<char>, echoed: seq<char>)
    requires o.ReadBack?
  {
    && o.rbuf == taken && o.reacnt == |taken| <= o.rlen
    && (o.rercd.E_OK? ==> o.reacnt == o.rlen && echoed == Echoed(echo, crlf, taken))
    && (|| echoed == Echoed(echo, crlf, taken)
        || (echo && taken != [] && LastUnechoed(crlf, taken, echoed)))
  }

  predicate TaskReads(echo: bool, crlf: bool, k: Task, t: nat, h: History) {
    match k
    case Reading(_, _, mark, emark, _, _, _) =>
      && mark <= |h.delivered| && emark <= |h.accepted|
      && Reader(k, By(h.delivered[mark..], t))
      && Echoer(echo, crlf, k, By(h.accepted[emark..], t))
    case Ready(o) =>
      o.ReadBack? ==>
        && o.rmark <= |h.delivered| && o.remark <= |h.accepted|
        && Read(echo, crlf, o, By(h.delivered[o.rmark..], t), By(h.accepted[o.remark..], t))
    case Writing(_, _, _, _) => true
  }

  ghost predicate Reads(echo: bool, crlf: bool, s: System) {
    forall t :: 0 <= t < |s.tasks| ==> TaskReads(echo, crlf, s.tasks[t], t, s.h)
  }

  /** What another task takes or writes does not count for this one. */
  lemma OthersDoNotRead(echo: bool, crlf: bool, k: Task, t: nat, h: History, u: nat, n: Note)
    requires TaskReads(echo, crlf, k, t, h) && u != t
    ensures TaskReads(echo, crlf, k, t, Noted(h, u, n))
  {
    var mark, emark := if k.Reading? then k.mark else if k.Ready? && k.last.ReadBack? then k.last.rmark else 0,
                       if k.Reading? then k.emark else if k.Ready? && k.last.ReadBack? then k.last.remark else 0;
    match n
    case Accepted(c) => if emark <= |h.accepted| { BySnoc(h.accepted, emark, u, c, t); }
    case Delivered(c) => if mark <= |h.delivered| { BySnoc(h.delivered, mark, u, c, t); }
    case _ =>
  }

  /** A character comes out of the ring. */
  lemma GetReads(echo: bool, crlf: bool, p: Port, k: Task, free: bool, t: nat, h: History)
    requires InRange(p) && k.Reading? && k.rpc.Get? && TaskReads(echo, crlf, k, t, h)
    ensures var f := ReaderStep(p, k, free); TaskReads(echo, crlf, f.task, t, Noted(h, t, f.note))
  {
    var c := p.receive.Front();
    BySnoc(h.delivered, k.mark, t, c, t);
    assert (k.got + [c])[..|k.got|] == k.got;
  }

  lemma EchoPutTask(p: Port, k: Task, free: bool)
    requires InRange(p) && k.Reading? && k.rpc.Echo? && k.rpc.spc.Put?
    ensures var f := ReaderStep(p, k, free);
      f.note == Accepted(k.rpc.ec) && (f.task == ReaderNext(k) || f.task == k.(rpc := Echo(k.rpc.ec, Signal)))
  {
  }

  /** A reader that has echoed all it has got is at its loop test. */
  lemma AtLoopTest(echo: bool, crlf: bool, k: Task, t: nat, h: History)
    requires k.Reading? && k.mark <= |h.delivered| && k.emark <= |h.accepted|
    requires k.got == By(h.delivered[k.mark..], t) && k.m == |k.got| <= k.len
    requires By(h.accepted[k.emark..], t) == Echoed(echo, crlf, k.got)
    ensures TaskReads(echo, crlf, ReaderNext(k), t, h)
  {
  }

  /** The echo of the last character is complete. */
  lemma EchoPut(echo: bool, crlf: bool, p: Port, k: Task, free: bool, t: nat, h: History)
    requires InRange(p) && k.Reading? && k.rpc.Echo? && k.rpc.spc.Put? && TaskReads(echo, crlf, k, t, h)
    requires p.io.crlf == crlf
    ensures var f := ReaderStep(p, k, free); TaskReads(echo, crlf, f.task, t, Noted(h, t, f.note))
  {
    var h' := Noted(h, t, Accepted(k.rpc.ec));
    EchoPutTask(p, k, free);
    PutCompletes(crlf, h.accepted, k.emark, t, k.got, k.rpc.spc.afterCr);
    AtLoopTest(echo, crlf, k, t, h');
  }

  /** Its CR goes out first. */
  lemma EchoCr(echo: bool, crlf: bool, p: Port, k: Task, free: bool, t: nat, h: History)
    requires InRange(p) && k.Reading? && k.rpc.Echo? && k.rpc.spc.PutCr? && TaskReads(echo, crlf, k, t, h)
    ensures var f := ReaderStep(p, k, free); TaskReads(echo, crlf, f.task, t, Noted(h, t, f.note))
  {
    BySnoc(h.accepted, k.emark, t, CR, t);
  }

  lemma SignalReads(echo: bool, crlf: bool, p: Port, k: Task, free: bool, t: nat, h: History)
    requires InRange(p) && k.Reading? && k.rpc.Echo? && k.rpc.spc.Signal? && TaskReads(echo, crlf, k, t, h)
    ensures var f := ReaderStep(p, k, free); TaskReads(echo, crlf, f.task, t, Noted(h, t, f.note))
  {
  }

  /** A semaphore operation or a test, which writes nothing. */
  lemma EchoSilent(echo: bool, crlf: bool, p: Port, k: Task, free: bool, t: nat, h: History)
    requires InRange(p) && k.Reading? && k.rpc.Echo? && !k.rpc.spc.Put? && !k.rpc.spc.PutCr?
    requires (WaitsForSend(k) ==> p.sendSem > 0) && TaskReads(echo, crlf, k, t, h) && p.io.crlf == crlf
    ensures var f := ReaderStep(p, k, free); TaskReads(echo, crlf, f.task, t, Noted(h, t, f.note))
  {
    if k.rpc.spc.Signal? {
      SignalReads(echo, crlf, p, k, free, t, h);
    }
  }

  lemma EchoReads(echo: bool, crlf: bool, p: Port, k: Task, free: bool, t: nat, h: History)
    requires InRange(p) && k.Reading? && k.rpc.Echo? && (WaitsForSend(k) ==> p.sendSem > 0)
    requires TaskReads(echo, crlf, k, t, h) && p.io.crlf == crlf
    ensures var f := ReaderStep(p, k, free); TaskReads(echo, crlf, f.task, t, Noted(h, t, f.note))
  {
    match k.rpc.spc
    case Put(_) => EchoPut(echo, crlf, p, k, free, t, h);
    case PutCr => EchoCr(echo, crlf, p, k, free, t, h);
    case _ => EchoSilent(echo, crlf, p, k, free, t, h);
  }

  /** With the echo off, the character is done. */
  lemma EchoTestReads(echo: bool, crlf: bool, p: Port, k: Task, free: bool, t: nat, h: History)
    requires InRange(p) && k.Reading? && k.rpc.EchoTest?
    requires TaskReads(echo, crlf, k, t, h) && p.io.echo == echo
    ensures var f := ReaderStep(p, k, free); TaskReads(echo, crlf, f.task, t, Noted(h, t, f.note))
  {
  }

  /** A reader's own step. */
  lemma ReaderStepReads(echo: bool, crlf: bool, p: Port, k: Task, free: bool, t: nat, h: History)
    requires InRange(p) && k.Reading?
    requires (WaitsForSend(k) ==> p.sendSem > 0) && (WaitsForReceive(k) ==> p.receiveSem > 0)
    requires TaskReads(echo, crlf, k, t, h) && p.io.crlf == crlf && p.io.echo == echo
    ensures var f := ReaderStep(p, k, free); TaskReads(echo, crlf, f.task, t, Noted(h, t, f.note))
  {
    match k.rpc
    case Get => GetReads(echo, crlf, p, k, free, t, h);
    case Echo(_, _) => EchoReads(echo, crlf, p, k, free, t, h);
    case EchoTest(c) => EchoTestReads(echo, crlf, p, k, free, t, h);
    case _ =>
  }

  lemma WriterIsNoReader(p: Port, k: Task, free: bool)
    requires InRange(p) && k.Writing? && Shaped(k) && (WaitsForSend(k) ==> p.sendSem > 0)
    ensures var f := WriterStep(p, k, free); f.task.Writing? || (f.task.Ready? && f.task.last.Wrote?)
  {
  }

  lemma AdvanceReads(echo: bool, crlf: bool, s: System, t: nat, free: bool)
    requires Structural(s) && Enabled(s, Advance(t, free)) && Reads(echo, crlf, s)
    requires s.port.io.crlf == crlf && s.port.io.echo == echo
    ensures Reads(echo, crlf, Step(s, Advance(t, free)))
  {
    var k := s.tasks[t];
    var f := TaskStep(s.port, k, free);
    var s' := Step(s, Advance(t, free));
    forall u | 0 <= u < |s.tasks|
      ensures TaskReads(echo, crlf, s'.tasks[u], u, s'.h)
    {
      if u != t {
        OthersDoNotRead(echo, crlf, s.tasks[u], u, s.h, t, f.note);
      } else if k.Reading? {
        ReaderStepReads(echo, crlf, s.port, k, free, t, s.h);
      } else {
        WriterIsNoReader(s.port, k, free);
      }
    }
  }

  /** An aborted reader has echoed all but at most the last character. */
  lemma AbortedReads(echo: bool, crlf: bool, p: Port, k: Task, e: Ercd, t: nat, h: History)
    requires (WaitsForSend(k) || WaitsForReceive(k)) && !e.E_OK? && TaskReads(echo, crlf, k, t, h)
    ensures TaskReads(echo, crlf, AbortStep(p, k, e).task, t, h)
  {
  }

  lemma AbortReads(echo: bool, crlf: bool, s: System, t: nat, e: Ercd)
    requires Structural(s) && Enabled(s, Abort(t, e)) && Reads(echo, crlf, s)
    ensures Reads(echo, crlf, Step(s, Abort(t, e)))
  {
    var k := s.tasks[t];
    AbortLeaves(s.port, k, e);
    AbortedReads(echo, crlf, s.port, k, e, t, s.h);
    var s' := Step(s, Abort(t, e));
    forall u | 0 <= u < |s.tasks|
      ensures TaskReads(echo, crlf, s'.tasks[u], u, s'.h)
    {
      assert TaskReads(echo, crlf, s.tasks[u], u, s.h);
    }
  }

  lemma StartReads(echo: bool, crlf: bool, s: System, t: nat, length: nat)
    requires Structural(s) && Enabled(s, StartRead(t, length)) && Reads(echo, crlf, s)
    ensures Reads(echo, crlf, Step(s, StartRead(t, length)))
  {
    assert s.h.delivered[|s.h.delivered|..] == [] && s.h.accepted[|s.h.accepted|..] == [];
  }

  lemma ReceiveReads(echo: bool, crlf: bool, s: System, c: char, room: nat)
    requires Structural(s) && !s.terminating && Reads(echo, crlf, s)
    ensures Reads(echo, crlf, Step(s, ReceiveCallback(c, room)))
  {
  }

  lemma NextKeepsReads(echo: bool, crlf: bool, s: System, e: Event, s': System)
    requires Next(s, e, s') && Reads(echo, crlf, s) && s.port.io.crlf == crlf && s.port.io.echo == echo
    ensures Reads(echo, crlf, s')
  {
    match e
    case Advance(t, free) => AdvanceReads(echo, crlf, s, t, free);
    case Abort(t, ercd) => AbortReads(echo, crlf, s, t, ercd);
    case StartRead(t, length) => StartReads(echo, crlf, s, t, length);
    case ReceiveCallback(c, room) => ReceiveReads(echo, crlf, s, c, room);
    case _ =>
  }

  /** With the echo and CRLF options fixed, in every reachable state every read call, in progress
      or finished, has got exactly the characters it counts, which are those it took, and has
      echoed their expansion, up to the character it is at. */
  lemma {:induction false} ReadsAreExact(tr: seq<System>, es: seq<Event>, echo: bool, crlf: bool, i: nat)
    requires Run(tr, es) && i < |tr|
    requires forall j :: 0 <= j < |tr| ==> tr[j].port.io.echo == echo && tr[j].port.io.crlf == crlf
    ensures Reads(echo, crlf, tr[i])
  {
    if i == 0 {
      assert forall t :: 0 <= t < |tr[0].tasks| ==> tr[0].tasks[t] == Ready(NoCall);
    } else {
      ReadsAreExact(tr, es, echo, crlf, i - 1);
      NextKeepsReads(echo, crlf, tr[i - 1], es[i - 1], tr[i]);
    }
  }

  /** The result of a finished read: its count is that of the characters it took since it
      started, and these are what its buffer holds; with E_OK it is the length asked for, and all
      of them are echoed if the echo is on. Otherwise the echo lacks the last one at most. The
      caller sees the count if there is one; without one, nothing was taken or echoed. */
  lemma ReadResult(tr: seq<System>, es: seq<Event>, echo: bool, crlf: bool, i: nat, t: nat)
    requires Run(tr, es) && i < |tr| && t < |tr[i].tasks|
    requires forall j :: 0 <= j < |tr| ==> tr[j].port.io.echo == echo && tr[j].port.io.crlf == crlf
    requires tr[i].tasks[t].Ready? && tr[i].tasks[t].last.ReadBack?
    ensures var o := tr[i].tasks[t].last;
      && o.rmark <= |tr[i].h.delivered| && o.remark <= |tr[i].h.accepted|
      && var taken, echoed := By(tr[i].h.delivered[o.rmark..], t), By(tr[i].h.accepted[o.remark..], t);
      && o.rbuf == taken && o.reacnt == |taken| <= o.rlen
      && (o.rercd.E_OK? ==> o.reacnt == o.rlen && echoed == if echo then Expand(crlf, taken) else [])
      && (!echo ==> echoed == [])
      && (echo ==> echoed == Expand(crlf, taken) || (taken != [] && LastUnechoed(crlf, taken, echoed)))
      && (Returned(o).Amount? ==> 0 < Returned(o).n == |taken|)
      && (Returned(o).Result? ==> taken == [] && echoed == [] && (Returned(o).e.E_OK? ==> o.rlen == 0))
  {
    ReadsAreExact(tr, es, echo, crlf, i);
    assert TaskReads(echo, crlf, tr[i].tasks[t], t, tr[i].h);
  }
}
