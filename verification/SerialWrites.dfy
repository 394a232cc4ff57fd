/** What a call of the write service has contributed to the output when it
    returns, and at every point before. */
module SerialWrites {
  import opened SerialPort
  import opened SerialSystem
  import opened SerialInvariant

  /** The characters that task t got accepted. */
  function By(accepted: seq<(nat, char)>, t: nat): seq<char> {
    if accepted == [] then []
    else
      var x := accepted[|accepted| - 1];
      By(accepted[..|accepted| - 1], t) + (if x.0 == t then [x.1] else [])
  }

  /** The text with a CR before each LF, if the option is on. */
  function Expand(crlf: bool, text: seq<char>): seq<char> {
    if text == [] then []
    else
      var c := text[|text| - 1];
      Expand(crlf, text[..|text| - 1]) + (if crlf && c == LF then [CR, LF] else [c])
  }

  lemma BySnoc(accepted: seq<(nat, char)>, mark: nat, u: nat, c: char, t: nat)
    requires mark <= |accepted|
    ensures By((accepted + [(u, c)])[mark..], t) == By(accepted[mark..], t) + (if u == t then [c] else [])
  {
    assert (accepted + [(u, c)])[mark..][..|accepted| - mark] == accepted[mark..];
  }

  /** Where a writer is, and what it has contributed so far. */
  predicate Writer(crlf: bool, k: Task, sent: seq<char>)
    requires k.Writing? && Shaped(k)
  {
    var needsCr := crlf && k.n < |k.buf| && k.buf[k.n] == LF;
    && sent == Expand(crlf, k.buf[..k.n]) + (if k.pc.WaitLf? || k.pc == Put(true) then [CR] else [])
    && (k.pc.PutCr? || k.pc.WaitLf? || k.pc == Put(true) ==> needsCr)
    && (k.pc == Put(false) ==> !needsCr)
  }

  /** What a finished write has contributed: the expansion of the characters it counts, plus
      one CR if it was aborted between a CR and its LF. */
  predicate Written(crlf: bool, o: Outcome, sent: seq<char>)
    requires o.Wrote?
  {
    && o.wricnt <= |o.wbuf|
    && (o.wercd.E_OK? ==> o.wricnt == |o.wbuf|)
    && (|| sent == Expand(crlf, o.wbuf[..o.wricnt])
        || (&& crlf && o.wricnt < |o.wbuf| && o.wbuf[o.wricnt] == LF
            && sent == Expand(crlf, o.wbuf[..o.wricnt]) + [CR]))
  }

  predicate TaskWrites(crlf: bool, k: Task, t: nat, accepted: seq<(nat, char)>) {
    match k
    case Writing(_, _, _, mark) => Shaped(k) && mark <= |accepted| && Writer(crlf, k, By(accepted[mark..], t))
    case Ready(o) => o.Wrote? ==> o.wmark <= |accepted| && Written(crlf, o, By(accepted[o.wmark..], t))
    case Reading(_, _, _, _, _, _, _) => true
  }

  ghost predicate Writes(crlf: bool, s: System) {
    forall t :: 0 <= t < |s.tasks| ==> TaskWrites(crlf, s.tasks[t], t, s.h.accepted)
  }

  /** What another task writes does not count for this one. */
  lemma OthersDoNotCount(crlf: bool, k: Task, t: nat, accepted: seq<(nat, char)>, u: nat, c: char)
    requires TaskWrites(crlf, k, t, accepted) && u != t
    ensures TaskWrites(crlf, k, t, accepted + [(u, c)])
  {
    if k.Writing? {
      BySnoc(accepted, k.mark, u, c, t);
    } else if k.Ready? && k.last.Wrote? {
      BySnoc(accepted, k.last.wmark, u, c, t);
    }
  }

  lemma WriterNextWrites(crlf: bool, buf: seq<char>, n: nat, full: bool, mark: nat, t: nat, accepted: seq<(nat, char)>)
    requires n <= |buf| && mark <= |accepted| && By(accepted[mark..], t) == Expand(crlf, buf[..n])
    ensures TaskWrites(crlf, WriterNext(buf, n, full, mark), t, accepted)
  {
  }

  /** With its last character, and the CR before it that it needs, a text is expanded. */
  lemma PutCompletes(crlf: bool, accepted: seq<(nat, char)>, mark: nat, t: nat, text: seq<char>, afterCr: bool)
    requires mark <= |accepted| && text != [] && (afterCr <==> crlf && text[|text| - 1] == LF)
    requires By(accepted[mark..], t) == Expand(crlf, text[..|text| - 1]) + (if afterCr then [CR] else [])
    ensures By((accepted + [(t, text[|text| - 1])])[mark..], t) == Expand(crlf, text)
  {
    BySnoc(accepted, mark, t, text[|text| - 1], t);
    if afterCr {
      assert Expand(crlf, text[..|text| - 1]) + [CR] + [LF] == Expand(crlf, text[..|text| - 1]) + [CR, LF];
    }
  }

  lemma PutWrites(p: Port, k: Task, free: bool, t: nat, accepted: seq<(nat, char)>)
    requires InRange(p) && k.Writing? && k.pc.Put? && TaskWrites(p.io.crlf, k, t, accepted)
    ensures WriterStep(p, k, free).note == Accepted(k.buf[k.n])
    ensures TaskWrites(p.io.crlf, WriterStep(p, k, free).task, t, accepted + [(t, k.buf[k.n])])
  {
    var c, crlf := k.buf[k.n], p.io.crlf;
    assert k.buf[..k.n + 1][..k.n] == k.buf[..k.n];
    PutCompletes(crlf, accepted, k.mark, t, k.buf[..k.n + 1], k.pc.afterCr);
    WriterNextWrites(crlf, k.buf, k.n + 1, WriteFull(p, c, free), k.mark, t, accepted + [(t, c)]);
  }

  /** A writer's own step: the characters it gets accepted extend its contribution by
      exactly the expansion of the character it is at. */
  lemma WriterStepWrites(p: Port, k: Task, free: bool, t: nat, h: History)
    requires InRange(p) && k.Writing? && Shaped(k) && (WaitsForSend(k) ==> p.sendSem > 0)
    requires TaskWrites(p.io.crlf, k, t, h.accepted)
    ensures var f := WriterStep(p, k, free);
      TaskWrites(p.io.crlf, f.task, t, Noted(h, t, f.note).accepted)
  {
    match k.pc
    case Put(_) => PutWrites(p, k, free, t, h.accepted);
    case PutCr => BySnoc(h.accepted, k.mark, t, CR, t);
    case _ =>
  }

  lemma ReaderIsNoWriter(p: Port, k: Task, free: bool)
    requires InRange(p) && k.Reading?
    requires (WaitsForSend(k) ==> p.sendSem > 0) && (WaitsForReceive(k) ==> p.receiveSem > 0)
    ensures var f := ReaderStep(p, k, free); f.task.Reading? || (f.task.Ready? && f.task.last.ReadBack?)
  {
  }

  lemma AdvanceWrites(s: System, t: nat, free: bool)
    requires Structural(s) && Enabled(s, Advance(t, free)) && Writes(s.port.io.crlf, s)
    ensures Writes(s.port.io.crlf, Step(s, Advance(t, free)))
  {
    var k, crlf := s.tasks[t], s.port.io.crlf;
    var f := TaskStep(s.port, k, free);
    var s' := Step(s, Advance(t, free));
    forall u | 0 <= u < |s.tasks|
      ensures TaskWrites(crlf, s'.tasks[u], u, s'.h.accepted)
    {
      if u == t {
        if k.Writing? { WriterStepWrites(s.port, k, free, t, s.h); }
        else { ReaderIsNoWriter(s.port, k, free); }
      } else if f.note.Accepted? {
        OthersDoNotCount(crlf, s.tasks[u], u, s.h.accepted, t, f.note.c);
      }
    }
  }

  lemma AbortWrites(s: System, t: nat, e: Ercd)
    requires Structural(s) && Enabled(s, Abort(t, e)) && Writes(s.port.io.crlf, s)
    ensures Writes(s.port.io.crlf, Step(s, Abort(t, e)))
  {
    var k, crlf := s.tasks[t], s.port.io.crlf;
    AbortLeaves(s.port, k, e);
    assert TaskWrites(crlf, k, t, s.h.accepted);
    assert TaskWrites(crlf, AbortStep(s.port, k, e).task, t, s.h.accepted);
  }

  lemma StartWrites(s: System, t: nat, text: seq<char>)
    requires Structural(s) && Enabled(s, StartWrite(t, text)) && Writes(s.port.io.crlf, s)
    ensures Writes(s.port.io.crlf, Step(s, StartWrite(t, text)))
  {
    var mark := |s.h.accepted|;
    assert s.h.accepted[mark..] == [] && text[..0] == [];
  }

  lemma NextKeepsWrites(s: System, e: Event, s': System)
    requires Next(s, e, s') && Writes(s.port.io.crlf, s)
    ensures Writes(s.port.io.crlf, s')
  {
    match e
    case Advance(t, free) => AdvanceWrites(s, t, free);
    case Abort(t, ercd) => AbortWrites(s, t, ercd);
    case StartWrite(t, text) => StartWrites(s, t, text);
    case _ =>
  }

  /** With the CRLF option fixed, in every reachable state every write call, in progress
      or finished, has contributed exactly the expansion of the characters it has counted,
      plus a CR whose LF is still due or was given up. */
  lemma {:induction false} WritesAreExact(tr: seq<System>, es: seq<Event>, crlf: bool, i: nat)
    requires Run(tr, es) && i < |tr|
    requires forall j :: 0 <= j < |tr| ==> tr[j].port.io.crlf == crlf
    ensures Writes(crlf, tr[i])
  {
    if i == 0 {
    } else {
      WritesAreExact(tr, es, crlf, i - 1);
      NextKeepsWrites(tr[i - 1], es[i - 1], tr[i]);
    }
  }

  /** The result of a finished write: all of the text after E_OK; otherwise the counted
      characters, and at most the CR of the next one. The caller sees a count if there is one, and
      then cannot tell an error; without one, nothing of the text has gone out but perhaps a CR. */
  lemma WriteResult(tr: seq<System>, es: seq<Event>, crlf: bool, i: nat, t: nat)
    requires Run(tr, es) && i < |tr| && t < |tr[i].tasks|
    requires forall j :: 0 <= j < |tr| ==> tr[j].port.io.crlf == crlf
    requires tr[i].tasks[t].Ready? && tr[i].tasks[t].last.Wrote?
    ensures var o := tr[i].tasks[t].last;
      && o.wmark <= |tr[i].h.accepted| && o.wricnt <= |o.wbuf|
      && var sent := By(tr[i].h.accepted[o.wmark..], t);
      && (o.wercd.E_OK? ==> sent == Expand(crlf, o.wbuf))
      && (sent == Expand(crlf, o.wbuf[..o.wricnt]) || sent == Expand(crlf, o.wbuf[..o.wricnt]) + [CR])
      && (Returned(o).Amount? ==> 0 < Returned(o).n == o.wricnt && (o.wercd.E_OK? ==> Returned(o).n == |o.wbuf|))
      && (Returned(o).Result? ==> (sent == [] || sent == [CR]) && (Returned(o).e.E_OK? ==> o.wbuf == []))
  {
    WritesAreExact(tr, es, crlf, i);
    var o := tr[i].tasks[t].last;
    assert TaskWrites(crlf, tr[i].tasks[t], t, tr[i].h.accepted);
    assert o.wricnt == |o.wbuf| ==> o.wbuf[..o.wricnt] == o.wbuf;
  }
}
