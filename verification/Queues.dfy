/** The intrusive circular doubly linked queue. A queue is a ring of nodes, its
    header among them; rings are described by sequences with the header first,
    and any number of disjoint rings share one heap. */
module Queues {
  import opened Basics

  class Queue {
    var next: Queue
    var prev: Queue

    constructor ()
      ensures next == this && prev == this
    {
      next, prev := this, this;
    }
  }

  function Succ(i: nat, n: nat): nat { if i + 1 >= n then 0 else i + 1 }

  /** The node at i and the one after it point at each other. */
  ghost predicate Linked(c: seq<Queue>, i: nat)
    requires i < |c|
    reads c
  {
    c[i].next == c[Succ(i, |c|)] && c[Succ(i, |c|)].prev == c[i]
  }

  ghost predicate Distinct(c: seq<Queue>) { forall i, j :: 0 <= i < j < |c| ==> c[i] != c[j] }

  /** The nodes of c, in order, form a ring in both directions. */
  ghost predicate IsRing(c: seq<Queue>)
    reads c
  {
    && |c| > 0
    && Distinct(c)
    && (forall i :: 0 <= i < |c| ==> Linked(c, i))
  }

  ghost function Nodes(rs: seq<seq<Queue>>): set<Queue> { set r, i | 0 <= r < |rs| && 0 <= i < |rs[r]| :: rs[r][i] }

  ghost predicate Disjoint(rs: seq<seq<Queue>>) {
    forall r, s, q :: 0 <= r < s < |rs| && q in rs[r] ==> q !in rs[s]
  }

  /** Several rings with no node in common. */
  ghost predicate AllRings(rs: seq<seq<Queue>>)
    reads Nodes(rs)
  {
    Disjoint(rs) && forall r :: 0 <= r < |rs| ==> IsRing(rs[r])
  }

  function Insert(c: seq<Queue>, i: nat, e: Queue): seq<Queue>
    requires i <= |c|
  {
    c[..i] + [e] + c[i..]
  }

  function Remove(c: seq<Queue>, i: nat): seq<Queue>
    requires i < |c|
  {
    c[..i] + c[i + 1..]
  }

  /** In a ring the node before position i is at Pred(i). */
  function Pred(i: nat, n: nat): nat { if i > 0 then i - 1 else if n > 0 then n - 1 else 0 }

  lemma RingPrev(c: seq<Queue>, i: nat)
    requires IsRing(c) && i < |c|
    ensures var p := Pred(i, |c|); p < |c| && Succ(p, |c|) == i && Linked(c, p) && c[i].prev == c[p]
  {
    assert Linked(c, Pred(i, |c|));
  }

  /** How positions shift when an entry is inserted behind the node at `at - 1`. */
  lemma InsertedAt(c: seq<Queue>, at: nat, e: Queue, k: nat)
    requires 0 < at <= |c| && k <= |c|
    ensures var d := Insert(c, at, e);
      && d[k] == (if k < at then c[k] else if k == at then e else c[k - 1])
      && d[Succ(k, |d|)] ==
           (if k == at - 1 then e else if k < at then c[Succ(k, |c|)] else c[Succ(k - 1, |c|)])
  {
  }

  lemma InsertDistinct(c: seq<Queue>, at: nat, e: Queue)
    requires Distinct(c) && at <= |c| && e !in c
    ensures Distinct(Insert(c, at, e))
  {
    var d := Insert(c, at, e);
    forall i, j | 0 <= i < j < |d|
      ensures d[i] != d[j]
    {
      assert d[i] == (if i < at then c[i] else if i == at then e else c[i - 1]);
      assert d[j] == (if j < at then c[j] else if j == at then e else c[j - 1]);
    }
  }

  /** queue_insert_prev: the entry comes before q; before the header means at the end. */
  method InsertPrev(q: Queue, e: Queue, ghost c: seq<Queue>, ghost i: nat)
    requires IsRing(c) && i < |c| && c[i] == q && e !in c
    modifies e, q`prev, q.prev`next
    ensures IsRing(Insert(c, if i == 0 then |c| else i, e))
  {
    RingPrev(c, i);
    ghost var p := Pred(i, |c|);
    ghost var at := if i == 0 then |c| else i;
    e.prev := q.prev;
    e.next := q;
    q.prev.next := e;
    q.prev := e;
    ghost var d := Insert(c, at, e);
    InsertDistinct(c, at, e);
    forall k | 0 <= k < |d|
      ensures Linked(d, k)
    {
      InsertedAt(c, at, e, k);
      ghost var j := if k < at then k else k - 1;
      if k != at && j != p {
        assert old(Linked(c, j));
        assert c[j] != c[p] && c[Succ(j, |c|)] != c[i];
      }
    }
  }

  /** queue_insert_next: the entry comes after q; after the header means at the front. */
  method InsertNext(q: Queue, e: Queue, ghost c: seq<Queue>, ghost i: nat)
    requires IsRing(c) && i < |c| && c[i] == q && e !in c
    modifies e, q`next, q.next`prev
    ensures IsRing(Insert(c, i + 1, e))
  {
    assert Linked(c, i);
    e.prev := q;
    e.next := q.next;
    q.next.prev := e;
    q.next := e;
    ghost var d := Insert(c, i + 1, e);
    InsertDistinct(c, i + 1, e);
    forall k | 0 <= k < |d|
      ensures Linked(d, k)
    {
      InsertedAt(c, i + 1, e, k);
      ghost var j := if k <= i then k else k - 1;
      if k == i {
        assert d[k] == q && d[Succ(k, |d|)] == e;
      } else if k == i + 1 {
        assert d[k] == e && d[Succ(k, |d|)] == c[Succ(i, |c|)];
      } else {
        assert old(Linked(c, j));
        assert c[j] != c[i] && c[Succ(j, |c|)] != c[Succ(i, |c|)];
      }
    }
  }

  /** How positions shift when the node at i is removed. */
  lemma RemoveAt(c: seq<Queue>, i: nat, k: nat)
    requires i < |c| && 1 < |c| && k < |c| - 1
    ensures var d := Remove(c, i); var j := if k < i then k else k + 1;
      && d[k] == c[j]
      && d[Succ(k, |d|)] == (if j == Pred(i, |c|) then c[Succ(i, |c|)] else c[Succ(j, |c|)])
  {
  }

  lemma RemoveDistinct(c: seq<Queue>, i: nat)
    requires Distinct(c) && i < |c|
    ensures Distinct(Remove(c, i))
  {
  }

  /** queue_delete: the entry leaves its ring, which must hold something else. */
  method Delete(e: Queue, ghost c: seq<Queue>, ghost i: nat)
    requires IsRing(c) && i < |c| && c[i] == e && |c| > 1
    modifies e.prev`next, e.next`prev
    ensures IsRing(Remove(c, i))
  {
    RingPrev(c, i);
    assert Linked(c, i);
    ghost var p := Pred(i, |c|);
    e.prev.next := e.next;
    e.next.prev := e.prev;
    ghost var d := Remove(c, i);
    RemoveDistinct(c, i);
    forall k | 0 <= k < |d|
      ensures Linked(d, k)
    {
      RemoveAt(c, i, k);
      ghost var j := if k < i then k else k + 1;
      if j != p {
        assert old(Linked(c, j));
        assert c[j] != c[p] && c[Succ(j, |c|)] != c[Succ(i, |c|)];
      }
    }
  }

  /** queue_delete_next: the node after q leaves the ring and is returned; the ring must hold
      something besides q, as the source's assertion demands. */
  method DeleteNext(q: Queue, ghost c: seq<Queue>, ghost i: nat) returns (e: Queue)
    requires IsRing(c) && i < |c| && c[i] == q && |c| > 1
    modifies q`next, q.next.next`prev
    ensures e == c[Succ(i, |c|)] && IsRing(Remove(c, Succ(i, |c|)))
  {
    ghost var at := Succ(i, |c|);
    assert Linked(c, i) && Linked(c, at);
    e := q.next;
    q.next := e.next;
    e.next.prev := q;
    ghost var d := Remove(c, at);
    RemoveDistinct(c, at);
    forall k | 0 <= k < |d|
      ensures Linked(d, k)
    {
      RemoveAt(c, at, k);
      ghost var j := if k < at then k else k + 1;
      if j != i {
        assert old(Linked(c, j));
        assert c[j] != c[i] && c[Succ(j, |c|)] != c[Succ(at, |c|)];
      }
    }
  }

  /** queue_empty: true exactly for a lone header, and then the other link agrees. */
  method Empty(q: Queue, ghost c: seq<Queue>) returns (b: bool)
    requires IsRing(c) && c[0] == q
    ensures b <==> |c| == 1
    ensures b ==> q.prev == q
  {
    assert Linked(c, 0) && Linked(c, |c| - 1);
    b := q.next == q;
  }

  // ---------- walks ----------

  /** The nodes met by following k links from q, in either direction. */
  ghost function Walk(c: seq<Queue>, q: Queue, k: nat, forward: bool): seq<Queue>
    reads c
  {
    if k == 0 || q !in c then []
    else
      var x := if forward then q.next else q.prev;
      [x] + Walk(c, x, k - 1, forward)
  }

  lemma {:induction false} WalkForward(c: seq<Queue>, i: nat, k: nat)
    requires IsRing(c) && i + k < |c|
    ensures Walk(c, c[i], k, true) == c[i + 1..i + 1 + k]
    decreases k
  {
    if k == 0 {
    } else {
      assert Linked(c, i);
      WalkForward(c, i + 1, k - 1);
      assert c[i].next == c[i + 1] && [c[i + 1]] + c[i + 2..i + 1 + k] == c[i + 1..i + 1 + k];
    }
  }

  lemma {:induction false} WalkBackward(c: seq<Queue>, from: nat, i: nat)
    requires IsRing(c) && 0 < from <= i <= |c|
    ensures Walk(c, if i == |c| then c[0] else c[i], i - from, false) == Reverse(c[from..i])
    decreases i
  {
    if i == from {
      assert c[from..i] == [];
    } else {
      RingPrev(c, if i == |c| then 0 else i);
      WalkBackward(c, from, i - 1);
      ReverseSnoc(c[from..i - 1], c[i - 1]);
      assert c[from..i - 1] + [c[i - 1]] == c[from..i];
    }
  }

  lemma WholeForward(c: seq<Queue>)
    requires IsRing(c)
    ensures Walk(c, c[0], |c| - 1, true) == c[1..]
  {
    WalkForward(c, 0, |c| - 1);
    assert c[1..1 + (|c| - 1)] == c[1..];
  }

  lemma WholeBackward(c: seq<Queue>)
    requires IsRing(c)
    ensures Walk(c, c[0], |c| - 1, false) == Reverse(c[1..])
  {
    WalkBackward(c, 1, |c|);
    assert c[1..|c|] == c[1..];
  }

  /** From the header, the forward walk meets the entries in order and the backward walk in
      reverse, and one more link leads back to the header. */
  lemma WalksAreReverses(c: seq<Queue>)
    requires IsRing(c)
    ensures var n := |c| - 1;
      && Walk(c, c[0], n, true) == c[1..]
      && Walk(c, c[0], n, false) == Reverse(c[1..])
      && c[n].next == c[0] && (n > 0 ==> c[1].prev == c[0])
  {
    var n := |c| - 1;
    WholeForward(c);
    WholeBackward(c);
    assert Linked(c, n);
    if n > 0 { RingPrev(c, 1); }
  }

  // ---------- any number of queues, any sequence of operations ----------

  datatype Op =
    | OpInitialize(q: Queue)
    | OpInsertPrev(q: Queue, e: Queue)
    | OpInsertNext(q: Queue, e: Queue)
    | OpDelete(q: Queue)
    | OpDeleteNext(q: Queue)

  ghost function RingOf(rs: seq<seq<Queue>>, q: Queue): (r: nat)
    requires exists r :: 0 <= r < |rs| && q in rs[r]
    ensures r < |rs| && q in rs[r]
  {
    var r :| 0 <= r < |rs| && q in rs[r];
    r
  }

  ghost function PositionOf(c: seq<Queue>, q: Queue): (i: nat)
    requires q in c
    ensures i < |c| && c[i] == q
  {
    var i :| 0 <= i < |c| && c[i] == q;
    i
  }

  ghost predicate Queued(rs: seq<seq<Queue>>, q: Queue) { exists r :: 0 <= r < |rs| && q in rs[r] }

  /** What an operation needs: nodes where they should be, and something to delete. */
  ghost predicate Allowed(rs: seq<seq<Queue>>, op: Op) {
    match op
    case OpInitialize(q) => !Queued(rs, q)
    case OpInsertPrev(q, e) => Queued(rs, q) && !Queued(rs, e)
    case OpInsertNext(q, e) => Queued(rs, q) && !Queued(rs, e)
    case OpDelete(q) => Queued(rs, q) && |rs[RingOf(rs, q)]| > 1
    case OpDeleteNext(q) => Queued(rs, q) && |rs[RingOf(rs, q)]| > 1
  }

  /** What it does to the ring that holds its node. */
  ghost function Changed(c: seq<Queue>, i: nat, op: Op): seq<Queue>
    requires i < |c|
  {
    match op
    case OpInitialize(_) => c
    case OpInsertPrev(_, e) => Insert(c, if i == 0 then |c| else i, e)
    case OpInsertNext(_, e) => Insert(c, i + 1, e)
    case OpDelete(_) => Remove(c, i)
    case OpDeleteNext(_) => Remove(c, Succ(i, |c|))
  }

  /** What it does: one ring changes at one place, the others do not change at all. */
  ghost function Apply(rs: seq<seq<Queue>>, op: Op): seq<seq<Queue>>
    requires Allowed(rs, op)
  {
    if op.OpInitialize? then rs + [[op.q]]
    else
      var r := RingOf(rs, op.q);
      rs[r := Changed(rs[r], PositionOf(rs[r], op.q), op)]
  }

  ghost predicate AllAllowed(rs: seq<seq<Queue>>, ops: seq<Op>)
    decreases |ops|, 0
  {
    ops != [] ==> AllAllowed(rs, ops[..|ops| - 1]) && Allowed(ApplyAll(rs, ops[..|ops| - 1]), ops[|ops| - 1])
  }

  ghost function ApplyAll(rs: seq<seq<Queue>>, ops: seq<Op>): seq<seq<Queue>>
    requires AllAllowed(rs, ops)
    decreases |ops|, 1
  {
    if ops == [] then rs else Apply(ApplyAll(rs, ops[..|ops| - 1]), ops[|ops| - 1])
  }

  function OpNodes(op: Op): set<Queue> {
    {op.q} + if op.OpInsertPrev? || op.OpInsertNext? then {op.e} else {}
  }

  lemma ChangedNodes(c: seq<Queue>, i: nat, op: Op, q: Queue)
    requires i < |c| && q in Changed(c, i, op)
    ensures q in c || ((op.OpInsertPrev? || op.OpInsertNext?) && q == op.e)
  {
  }

  /** A node of a ring after an operation was in the same ring before, or in none. */
  lemma WhereFrom(rs: seq<seq<Queue>>, op: Op, s: nat, q: Queue)
    requires Disjoint(rs) && Allowed(rs, op) && s < |Apply(rs, op)| && q in Apply(rs, op)[s]
    ensures (s < |rs| && q in rs[s]) || (!Queued(rs, q) && q in OpNodes(op))
  {
    if !op.OpInitialize? && s == RingOf(rs, op.q) {
      ChangedNodes(rs[s], PositionOf(rs[s], op.q), op, q);
    }
  }

  lemma StillApart(rs: seq<seq<Queue>>, op: Op, s: nat, t: nat, q: Queue)
    requires Disjoint(rs) && Allowed(rs, op) && s < t < |Apply(rs, op)| && q in Apply(rs, op)[s]
    ensures q !in Apply(rs, op)[t]
  {
    WhereFrom(rs, op, s, q);
    if q in Apply(rs, op)[t] {
      WhereFrom(rs, op, t, q);
    }
  }

  lemma NodesAfter(rs: seq<seq<Queue>>, op: Op)
    requires Disjoint(rs) && Allowed(rs, op)
    ensures Nodes(Apply(rs, op)) <= Nodes(rs) + OpNodes(op)
  {
    var rs' := Apply(rs, op);
    forall s, i | 0 <= s < |rs'| && 0 <= i < |rs'[s]|
      ensures rs'[s][i] in Nodes(rs) + OpNodes(op)
    {
      WhereFrom(rs, op, s, rs'[s][i]);
    }
  }

  /** An operation keeps the rings apart. */
  lemma ApplyKeepsDisjoint(rs: seq<seq<Queue>>, op: Op)
    requires Disjoint(rs) && Allowed(rs, op)
    ensures Disjoint(Apply(rs, op)) && Nodes(Apply(rs, op)) <= Nodes(rs) + OpNodes(op)
  {
    NodesAfter(rs, op);
    forall s, t, q | 0 <= s < t < |Apply(rs, op)| && q in Apply(rs, op)[s]
      ensures q !in Apply(rs, op)[t]
    {
      StillApart(rs, op, s, t, q);
    }
  }

  /** One operation on one ring; only its nodes and a new entry are written. */
  method ExecuteOn(op: Op, ghost c: seq<Queue>, ghost i: nat)
    requires IsRing(c) && i < |c| && c[i] == op.q && !op.OpInitialize?
    requires (op.OpInsertPrev? || op.OpInsertNext?) ==> op.e !in c
    requires op.OpDelete? || op.OpDeleteNext? ==> |c| > 1
    modifies (set q | q in c), OpNodes(op)
    ensures IsRing(Changed(c, i, op))
  {
    RingPrev(c, i);
    assert Linked(c, i) && Linked(c, Succ(i, |c|));
    match op
    case OpInsertPrev(q, e) => InsertPrev(q, e, c, i);
    case OpInsertNext(q, e) => InsertNext(q, e, c, i);
    case OpDelete(q) => Delete(q, c, i);
    case OpDeleteNext(q) => var _ := DeleteNext(q, c, i);
  }

  /** One operation on one of several queues. */
  method Execute(op: Op, ghost rs: seq<seq<Queue>>)
    requires AllRings(rs) && Allowed(rs, op)
    modifies Nodes(rs) + OpNodes(op)
    ensures AllRings(Apply(rs, op))
    ensures Nodes(Apply(rs, op)) <= Nodes(rs) + OpNodes(op)
  {
    ApplyKeepsDisjoint(rs, op);
    if op.OpInitialize? {
      op.q.next, op.q.prev := op.q, op.q;
    } else {
      ghost var r := RingOf(rs, op.q);
      forall q | q in rs[r]
        ensures q in Nodes(rs)
      {
      }
      forall s, q | 0 <= s < |rs| && s != r && q in rs[s]
        ensures q !in rs[r] && q !in OpNodes(op)
      {
        assert Queued(rs, q);
      }
      ExecuteOn(op, rs[r], PositionOf(rs[r], op.q));
      forall s | 0 <= s < |rs| && s != r
        ensures IsRing(rs[s])
      {
        assert old(IsRing(rs[s]));
        assert forall q :: q in rs[s] ==> q.next == old(q.next) && q.prev == old(q.prev);
      }
    }
  }

  ghost function AllOpNodes(ops: seq<Op>): set<Queue> { set k, q | 0 <= k < |ops| && q in OpNodes(ops[k]) :: q }

  lemma {:induction false} AllowedPrefix(rs: seq<seq<Queue>>, ops: seq<Op>, n: nat)
    requires AllAllowed(rs, ops) && n <= |ops|
    ensures AllAllowed(rs, ops[..n])
  {
    if n == |ops| {
      assert ops[..n] == ops;
    } else {
      var m := |ops| - 1;
      AllowedPrefix(rs, ops[..m], n);
      assert ops[..m][..n] == ops[..n];
    }
  }

  /** Any sequence of allowed operations on any number of queues: every queue is at every point
      the ring that the operations on sequences say it is. */
  method Run(ops: seq<Op>, ghost rs: seq<seq<Queue>>)
    requires AllRings(rs) && AllAllowed(rs, ops)
    modifies Nodes(rs) + AllOpNodes(ops)
    ensures AllRings(ApplyAll(rs, ops))
  {
    var n := 0;
    ghost var now := rs;
    assert ops[..0] == [];
    while n < |ops|
      invariant n <= |ops| && AllAllowed(rs, ops[..n]) && now == ApplyAll(rs, ops[..n])
      invariant AllRings(now) && Nodes(now) <= Nodes(rs) + AllOpNodes(ops)
    {
      AllowedPrefix(rs, ops, n + 1);
      assert ops[..n + 1][..n] == ops[..n];
      assert forall q :: q in OpNodes(ops[n]) ==> q in AllOpNodes(ops);
      Execute(ops[n], now);
      now := Apply(now, ops[n]);
      n := n + 1;
    }
    assert ops[..n] == ops;
  }
}
