/** What becomes of the incoming characters: which of them stop and resume the sending side, and
    which reach the readers, said in terms of the characters, the options and the room they met. */
module SerialInput {
  import opened SerialPort
  import opened SerialSystem
  import opened SerialInvariant

  /** Control-S stops sending, if the sending side is flow-controlled, whether there is room or not. */
  predicate Stops(x: Input) { x.io.fcsnd && x.c == 19 as char }

  /** Control-Q, or any character with that option, resumes sending that was stopped, even after
      flow control was turned off. */
  predicate Resumes(x: Input) { x.c == 17 as char || x.io.fcany }

  /** After the input xs sending is stopped: a character stopped it, and none since resumed it. */
  predicate SendingStopped(xs: seq<Input>) {
    exists i :: 0 <= i < |xs| && Stops(xs[i]) && forall j :: i < j < |xs| ==> !Resumes(xs[j])
  }

  /** A character that readers are to get: with flow control not one of its two, and not the one
      that resumes sending. */
  predicate ForReaders(io: IoControl, stopped: bool, c: char) {
    && !(io.fcsnd && (c == 17 as char || c == 19 as char))
    && !(stopped && (c == 17 as char || io.fcany))
  }

  /** The characters of the input that are for readers and met a ring with room, in order. */
  function Kept(xs: seq<Input>): seq<char> {
    if xs == [] then []
    else
      var n := |xs| - 1;
      var x := xs[n];
      Kept(xs[..n]) + (if ForReaders(x.io, SendingStopped(xs[..n]), x.c) && !x.full then [x.c] else [])
  }

  lemma StoppedNext(xs: seq<Input>)
    requires xs != []
    ensures var n := |xs| - 1;
      SendingStopped(xs) <==> Stops(xs[n]) || (SendingStopped(xs[..n]) && !Resumes(xs[n]))
  {
    var n := |xs| - 1;
    var before := xs[..n];
    if SendingStopped(before) && !Resumes(xs[n]) {
      var i :| 0 <= i < n && Stops(before[i]) && forall j :: i < j < n ==> !Resumes(before[j]);
      assert Stops(xs[i]);
      forall j | i < j < |xs|
        ensures !Resumes(xs[j])
      {
        assert j < n ==> xs[j] == before[j];
      }
    }
    if SendingStopped(xs) && !Stops(xs[n]) {
      var i :| 0 <= i < |xs| && Stops(xs[i]) && forall j :: i < j < |xs| ==> !Resumes(xs[j]);
      assert Stops(before[i]);
    }
  }

  /** The driver's filter, for any input and any changes of the options on the way. */
  lemma {:induction false} FilterExactly(xs: seq<Input>)
    ensures Filter(xs).stopped <==> SendingStopped(xs)
    ensures Filter(xs).kept == Kept(xs)
  {
    if xs == [] {
      assert Filter(xs) == Filtered(false, []);
    } else {
      FilterExactly(xs[..|xs| - 1]);
      StoppedNext(xs);
    }
  }

  /** The input without some characters, and without those that met a full ring. */
  function Without(xs: seq<Input>, drop: set<char>): seq<char> {
    if xs == [] then []
    else
      var x := xs[|xs| - 1];
      Without(xs[..|xs| - 1], drop) + (if x.c in drop || x.full then [] else [x.c])
  }

  /** The last of the two flow-control characters, if there is one, is Control-S. */
  predicate StopCameLast(xs: seq<Input>) {
    exists i :: 0 <= i < |xs| && xs[i].c == 19 as char && forall j :: i < j < |xs| ==> xs[j].c != 17 as char
  }

  /** With flow control of the sending side the filter removes exactly the two characters and
      what met a full ring; sending is stopped if and only if Control-S came last of the two,
      whether there was room for it or not. */
  lemma {:induction false} FilterRemovesFlowControl(xs: seq<Input>)
    requires forall i :: 0 <= i < |xs| ==> xs[i].io.fcsnd && !xs[i].io.fcany
    ensures Filter(xs).kept == Without(xs, {17 as char, 19 as char})
    ensures Filter(xs).stopped <==> StopCameLast(xs)
  {
    if xs == [] {
      assert Filter(xs).kept == [];
    } else {
      FilterRemovesFlowControl(xs[..|xs| - 1]);
      FilterExactly(xs);
    }
  }

  /** What is kept when any character resumes sending: neither of the two, nor the character that
      follows a Control-S, whatever it is, nor what met a full ring. */
  function KeptWithAny(xs: seq<Input>): seq<char> {
    if xs == [] then []
    else
      var n := |xs| - 1;
      var c := xs[n].c;
      var dropped := c == 19 as char || c == 17 as char || (n > 0 && xs[n - 1].c == 19 as char) || xs[n].full;
      KeptWithAny(xs[..n]) + (if dropped then [] else [c])
  }

  /** With flow control by any character the filter removes the two characters, just the one
      behind each Control-S, and what met a full ring; sending is stopped if and only if Control-S
      came last of all. */
  lemma {:induction false} FilterWithAnyCharacter(xs: seq<Input>)
    requires forall i :: 0 <= i < |xs| ==> xs[i].io.fcsnd && xs[i].io.fcany
    ensures Filter(xs).kept == KeptWithAny(xs)
    ensures Filter(xs).stopped <==> xs != [] && xs[|xs| - 1].c == 19 as char
  {
    if xs == [] {
      assert Filter(xs).kept == [];
    } else {
      FilterWithAnyCharacter(xs[..|xs| - 1]);
    }
  }

  /** Without flow control of the sending side only what meets a full ring is removed. */
  lemma {:induction false} FilterKeepsAll(xs: seq<Input>)
    requires forall i :: 0 <= i < |xs| ==> !xs[i].io.fcsnd
    ensures Filter(xs).kept == Without(xs, {}) && !Filter(xs).stopped
  {
    if xs == [] {
      assert Filter(xs).kept == [];
    } else {
      FilterKeepsAll(xs[..|xs| - 1]);
    }
  }

  // ---------- over runs ----------

  /** The characters that arrived in the first n events, with the options and the ring they met. */
  function Arrivals(tr: seq<System>, es: seq<Event>, n: nat): seq<Input>
    requires n <= |es| <= |tr|
  {
    if n == 0 then []
    else
      var p := tr[n - 1].port;
      Arrivals(tr, es, n - 1)
      + if es[n - 1].ReceiveCallback? then [Input(es[n - 1].c, p.io, p.receive.count == p.receive.Size())] else []
  }

  lemma InputStep(s: System, e: Event, s': System)
    requires Next(s, e, s')
    ensures s'.h.input == s.h.input
      + if e.ReceiveCallback? then [Input(e.c, s.port.io, s.port.receive.count == s.port.receive.Size())] else []
  {
    match e
    case Advance(t, free) =>
    case Abort(t, ercd) =>
    case _ =>
  }

  lemma {:induction false} InputIsArrivals(tr: seq<System>, es: seq<Event>, i: nat)
    requires Run(tr, es) && i < |tr|
    ensures tr[i].h.input == Arrivals(tr, es, i)
  {
    if i == 0 {
      assert tr[0].h.input == [];
    } else {
      InputIsArrivals(tr, es, i - 1);
      assert Next(tr[i - 1], es[i - 1], tr[i - 1 + 1]);
      InputStep(tr[i - 1], es[i - 1], tr[i]);
    }
  }

  /** What readers got, followed by what they can still get, is what has arrived for them; and
      sending is stopped exactly when what has arrived says so. */
  lemma InputFiltered(tr: seq<System>, es: seq<Event>, i: nat)
    requires Run(tr, es) && i < |tr|
    ensures tr[i].port.receive.Ok()
    ensures Chars(tr[i].h.delivered) + tr[i].port.receive.Contents() == Kept(Arrivals(tr, es, i))
    ensures tr[i].port.sendStopped <==> SendingStopped(Arrivals(tr, es, i))
  {
    RunInv(tr, es, i);
    InputIsArrivals(tr, es, i);
    FilterExactly(tr[i].h.input);
  }
}
