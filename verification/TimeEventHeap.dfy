/** The heap of time events: an array of pointers to the event blocks, each of
    which knows its own place. The earliest event, counted from the boundary,
    is at the top. The methods are proved against the clock's steps. */
module TimeEventHeap {
  import opened HeapOrder
  import opened EventClock
  import opened EventAlarm

  ghost function Times(h: seq<TMEVTB>): (ts: seq<Evttim>)
    reads (set e | e in h)`evttim
    ensures |ts| == |h| && forall i :: 0 <= i < |h| ==> ts[i] == h[i].evttim
  {
    if h == [] then [] else Times(h[..|h| - 1]) + [h[|h| - 1].evttim]
  }

  /** The times, counted from the boundary. */
  function KeysOf(ts: seq<Evttim>, boundary: Evttim): (ks: seq<nat>)
    ensures |ks| == |ts| && forall i :: 0 <= i < |ts| ==> ks[i] == Advance(ts[i], boundary)
  {
    seq(|ts|, i requires 0 <= i < |ts| => Advance(ts[i], boundary))
  }

  /** Times in heap order stay so when the boundary moves on by d exactly when it passes none of
      them, or passes them all. */
  lemma BoundaryMoves(ts: seq<Evttim>, boundary: Evttim, d: Evttim)
    requires Ordered(KeysOf(ts, boundary))
    ensures var ks := KeysOf(ts, boundary);
      Ordered(KeysOf(ts, Wrapped(boundary + d))) <==> OnOneSide(ks, d)
  {
    var ks, ks' := KeysOf(ts, boundary), KeysOf(ts, Wrapped(boundary + d));
    forall i | 0 <= i < |ts|
      ensures ks'[i] == if ks[i] < d then ks[i] - d + WRAP else ks[i] - d
    {
      AdvanceShifts(ts[i], boundary, d);
    }
    ShiftKeepsOrder(ks, ks', d, WRAP);
  }

  class TimeEvents {
    const heap: array<TMEVTB>
    var num: nat
    var current: Evttim
    var boundary: Evttim
    var monotonic: Evttim
    var offset: nat
    var inSignalTime: bool
    const bound: Bound
    var alarm: Alarm     // what the timer was asked for last

    /** An event's time, counted from the boundary. */
    ghost function Key(e: TMEVTB): nat
      reads this`boundary, e`evttim
    {
      Advance(e.evttim, boundary)
    }

    ghost function Keys(h: seq<TMEVTB>): (ks: seq<nat>)
      reads this`boundary, (set e | e in h)`evttim
      ensures |ks| == |h| && forall i :: 0 <= i < |h| ==> ks[i] == Key(h[i])
    {
      KeysOf(Times(h), boundary)
    }

    /** The blocks in h know their places, except in the hole. */
    ghost predicate Placed(h: seq<TMEVTB>, hole: nat)
      reads (set e | e in h)`index
    {
      forall i :: 0 <= i < |h| && i != hole ==> h[i].index == i
    }

    ghost function Registered(): set<TMEVTB>
      requires num <= heap.Length
      reads this`num, heap
    {
      Elements(heap[..num])
    }

    /** The first n places are a heap. */
    ghost predicate Whole(n: nat)
      requires n <= heap.Length
      reads this`boundary, heap, Elements(heap[..n])
    {
      Placed(heap[..n], n) && Ordered(Keys(heap[..n]))
    }

    ghost predicate Valid()
      reads this`num, this`boundary, heap, if num <= heap.Length then Registered() else {}
    {
      num <= heap.Length && Whole(num)
    }

    ghost function State(): Clock
      reads this`current, this`boundary, this`monotonic, this`offset
    {
      Clock(current, boundary, monotonic, offset)
    }

    /** The clock and the registered events with their times. */
    ghost function View(): Timer
      requires num <= heap.Length
      reads this`num, this`current, this`boundary, this`monotonic, this`offset, heap, Registered()`evttim
    {
      Timer(State(), map e | e in Registered() :: e.evttim)
    }

    /** initialize_tmevt; the array that it leaves alone holds `filler`. */
    constructor (capacity: nat, filler: TMEVTB, bound: Bound)
      ensures Valid() && Trailing() && fresh(heap) && heap.Length == capacity && this.bound == bound
      ensures View() == Timer(START, map[]) && num == 0 && !inSignalTime && alarm == Cleared
    {
      this.bound := bound;
      inSignalTime, alarm := false, Cleared;
      heap := new TMEVTB[capacity](_ => filler);
      num := 0;
      current, boundary := 0, Wrapped(0 - BOUNDARY_MARGIN);
      monotonic, offset := 0, 0;
    }

    // ---------- moving the hole ----------

    /** The first n places are a heap around the hole at c. */
    ghost predicate Searching(c: nat, n: nat)
      requires n <= heap.Length
      reads this`boundary, heap, Elements(heap[..n])
    {
      c < n && Placed(heap[..n], c) && Around(Keys(heap[..n]), c)
    }

    /** What is below the hole is not earlier than t. */
    ghost predicate Below(c: nat, t: Evttim, n: nat)
      requires n <= heap.Length
      reads this`boundary, heap, Elements(heap[..n])
    {
      BelowOk(Keys(heap[..n]), c, Advance(t, boundary))
    }

    /** What is above the hole is not later than t. */
    ghost predicate Above(c: nat, t: Evttim, n: nat)
      requires n <= heap.Length
      reads this`boundary, heap, Elements(heap[..n])
    {
      AboveOk(Keys(heap[..n]), c, Advance(t, boundary))
    }

    /** Different places hold different events. */
    lemma PlacesDiffer(h: seq<TMEVTB>, hole: nat, i: nat, j: nat)
      requires Placed(h, hole) && i < |h| && j < |h| && i != j && i != hole && j != hole
      ensures h[i] != h[j]
    {
    }

    /** The event at `from` moves into the hole at `to`. */
    method Move(to: nat, from: nat, ghost n: nat)
      requires to < n <= heap.Length && from < n && from != to && Placed(heap[..n], to)
      modifies heap, {heap[from]}`index
      ensures heap[..] == old(heap[..][to := heap[from]])
      ensures Placed(heap[..n], from)
      ensures Keys(heap[..n]) == old(Keys(heap[..n])[to := Keys(heap[..n])[from]])
      ensures AllBut(heap[..n], from) == old(AllBut(heap[..n], to))
    {
      ghost var h := heap[..n];
      MoveKeepsAllBut(h, to, from);
      forall i | 0 <= i < n && i != to && i != from
        ensures h[i] != h[from]
      {
        PlacesDiffer(h, to, i, from);
      }
      heap[to] := heap[from];
      heap[to].index := to;
      assert heap[..n] == h[to := h[from]];
    }

    method Rise(c: nat, parent: nat, t: Evttim, ghost n: nat)
      requires n <= heap.Length && Searching(c, n) && Below(c, t, n)
      requires c > 0 && parent == Parent(c) && Lt(t, heap[parent].evttim, boundary)
      modifies heap, {heap[parent]}`index
      ensures Searching(parent, n) && Below(parent, t, n)
      ensures AllBut(heap[..n], parent) == old(AllBut(heap[..n], c)) && heap[n..] == old(heap[n..])
    {
      MoveUp(Keys(heap[..n]), c, Advance(t, boundary));
      Move(c, parent, n);
    }

    ghost predicate EarliestBelow(c: nat, child: nat, n: nat)
      requires child < n <= heap.Length
      reads this`boundary, heap, Elements(heap[..n])
    {
      var ks := Keys(heap[..n]);
      forall i {:trigger Parent(i)} :: 0 < i < n && Parent(i) == c ==> ks[child] <= ks[i]
    }

    method Sink(c: nat, child: nat, t: Evttim, ghost n: nat)
      requires n <= heap.Length && Searching(c, n) && Above(c, t, n)
      requires 0 < child < n && Parent(child) == c && Lt(heap[child].evttim, t, boundary)
      requires EarliestBelow(c, child, n)
      modifies heap, {heap[child]}`index
      ensures Searching(child, n) && Above(child, t, n)
      ensures AllBut(heap[..n], child) == old(AllBut(heap[..n], c)) && heap[n..] == old(heap[n..])
    {
      MoveDown(Keys(heap[..n]), c, child, Advance(t, boundary));
      Move(c, child, n);
    }

    /** tmevt_up, over the first n places. */
    method Up(index: nat, t: Evttim, ghost n: nat) returns (c: nat)
      requires n <= heap.Length && Searching(index, n) && Below(index, t, n)
      modifies heap, AllBut(heap[..n], index)`index
      ensures Searching(c, n) && Below(c, t, n) && Above(c, t, n)
      ensures AllBut(heap[..n], c) == old(AllBut(heap[..n], index)) && heap[n..] == old(heap[n..])
    {
      c := index;
      while c > 0
        invariant Searching(c, n) && Below(c, t, n)
        invariant AllBut(heap[..n], c) == old(AllBut(heap[..n], index)) && heap[n..] == old(heap[n..])
      {
        var parent := Parent(c);
        if Le(heap[parent].evttim, t, boundary) {
          break;
        }
        assert heap[..n][parent] in AllBut(heap[..n], c);
        Rise(c, parent, t, n);
        c := parent;
      }
    }

    /** Of the places left and left + 1, the one with the earlier event; left when in doubt. */
    function Earlier(left: nat): nat
      requires left < num <= heap.Length
      reads this`num, this`boundary, heap, Elements(heap[..num])
    {
      if left + 1 < num && Lt(heap[left + 1].evttim, heap[left].evttim, boundary) then left + 1 else left
    }

    lemma EarlierIsEarliest(c: nat, left: nat, t: Evttim, n: nat)
      requires left == c * 2 + 1 && left < n == num <= heap.Length
      ensures var child := Earlier(left);
        && c < child < num && Parent(child) == c && EarliestBelow(c, child, n)
        && (Le(t, heap[child].evttim, boundary) ==> Below(c, t, n))
    {
      ghost var ks := Keys(heap[..num]);
      assert ks[left] == Key(heap[left]);
      if left + 1 < num {
        assert ks[left + 1] == Key(heap[left + 1]);
      }
      EarlierChild(ks, c, Earlier(left));
    }

    /** The body of the loop of tmevt_down: next is c when t fits there. */
    method SinkBelow(c: nat, t: Evttim, ghost n: nat) returns (next: nat)
      requires c * 2 + 1 < num == n <= heap.Length && Searching(c, n) && Above(c, t, n)
      modifies heap, AllBut(heap[..n], c)`index
      ensures c <= next && Searching(next, n) && Above(next, t, n) && (next == c ==> Below(c, t, n))
      ensures AllBut(heap[..n], next) == old(AllBut(heap[..n], c)) && heap[n..] == old(heap[n..])
    {
      EarlierIsEarliest(c, c * 2 + 1, t, n);
      var child := Earlier(c * 2 + 1);
      if Le(t, heap[child].evttim, boundary) {
        return c;
      }
      assert heap[..n][child] in AllBut(heap[..n], c);
      Sink(c, child, t, n);
      return child;
    }

    /** tmevt_down, over the num = n places. */
    method Down(index: nat, t: Evttim, ghost n: nat) returns (c: nat)
      requires num == n <= heap.Length && Searching(index, n) && Above(index, t, n)
      modifies heap, AllBut(heap[..n], index)`index
      ensures Searching(c, n) && Below(c, t, n) && Above(c, t, n)
      ensures AllBut(heap[..n], c) == old(AllBut(heap[..n], index)) && heap[n..] == old(heap[n..])
    {
      c := index;
      while c * 2 + 1 < num
        invariant num == n && Searching(c, n) && Above(c, t, n)
        invariant AllBut(heap[..n], c) == old(AllBut(heap[..n], index)) && heap[n..] == old(heap[n..])
        decreases n - c
      {
        var next := SinkBelow(c, t, n);
        if next == c {
          return;
        }
        c := next;
      }
      Childless(Keys(heap[..n]), c, Advance(t, boundary));
    }

    /** The event e goes into the hole at c of the first n places. */
    method Put(e: TMEVTB, c: nat, ghost n: nat)
      requires n <= heap.Length && Searching(c, n) && Below(c, e.evttim, n) && Above(c, e.evttim, n)
      requires e !in AllBut(heap[..n], c)
      modifies heap, {e}`index
      ensures Whole(n)
      ensures Elements(heap[..n]) == old(AllBut(heap[..n], c)) + {e}
    {
      Fill(Keys(heap[..n]), c, Key(e));
      FillAdds(heap[..n], c, e);
      heap[c] := e;
      e.index := c;
      assert heap[..n] == old(heap[..n])[c := e];
      assert Keys(heap[..n]) == old(Keys(heap[..n]))[c := Key(e)];
    }

    // ---------- adding and removing ----------

    /** A hole may be opened behind the last event. */
    lemma OpenEnd(t: Evttim)
      requires Valid() && num < heap.Length
      ensures Searching(num, num + 1) && Below(num, t, num + 1)
      ensures AllBut(heap[..num + 1], num) == Registered()
    {
      var h, ks := heap[..num + 1], Keys(heap[..num + 1]);
      assert h[..num] == heap[..num];
      assert ks[..num] == Keys(heap[..num]);
      LastHole(ks, num, Advance(t, boundary));
      LastIsRest(h, num);
    }

    /** The event goes where it fits when one place is added. */
    method Place(e: TMEVTB, ghost n: nat)
      requires Valid() && num + 1 == n <= heap.Length && e !in Registered()
      modifies heap, (Registered() + {e})`index
      ensures Whole(n) && Elements(heap[..n]) == old(Registered()) + {e}
    {
      OpenEnd(e.evttim);
      var index := Up(num, e.evttim, n);
      Put(e, index, n);
    }

    method Grow(ghost n: nat)
      requires num + 1 == n <= heap.Length && Whole(n)
      modifies this`num
      ensures num == n && Valid() && Registered() == old(Elements(heap[..n]))
    {
      num := num + 1;
      assert Whole(num);
    }

    /** tmevtb_insert; the array is as long as there are event blocks. */
    method Insert(e: TMEVTB)
      requires Valid() && num < heap.Length && e !in Registered()
      modifies this`num, heap, (Registered() + {e})`index
      ensures Valid() && num == old(num) + 1 && Registered() == old(Registered()) + {e}
    {
      ghost var n := num + 1;
      Place(e, n);
      Grow(n);
    }

    /** Without the last place it is still a heap, in which the place of e is a hole that the
        last event may fill; it may have to go up only if it is earlier than what is above. */
    lemma OpenAt(e: TMEVTB, n: nat)
      requires Valid() && num == n + 1 && e in Registered()
      ensures e.index <= n && heap[e.index] == e
      ensures e.index < n ==>
        && Searching(e.index, n) && AllBut(heap[..n], e.index) == Registered() - {e, heap[n]} && heap[n] != e
        && if e.index > 0 && Lt(heap[n].evttim, heap[Parent(e.index)].evttim, boundary) then
             Below(e.index, heap[n].evttim, n)
           else Above(e.index, heap[n].evttim, n)
    {
    }

    /** Without the last event it is still a heap. */
    lemma WithoutLast(n: nat)
      requires Valid() && num == n + 1
      ensures Whole(n) && Elements(heap[..n]) == Registered() - {heap[n]}
    {
      assert heap[..num][..n] == heap[..n];
      assert Keys(heap[..num])[..n] == Keys(heap[..n]);
      DropLast(Keys(heap[..num]));
    }

    /** The search of tmevtb_delete: up only when t is earlier than what is above the hole. */
    method FindPlace(index: nat, t: Evttim, ghost n: nat) returns (c: nat)
      requires num == n <= heap.Length && Searching(index, n)
      requires if index > 0 && Lt(t, heap[Parent(index)].evttim, boundary) then Below(index, t, n) else Above(index, t, n)
      modifies heap, AllBut(heap[..n], index)`index
      ensures Searching(c, n) && Below(c, t, n) && Above(c, t, n)
      ensures AllBut(heap[..n], c) == old(AllBut(heap[..n], index)) && heap[n..] == old(heap[n..])
    {
      if index > 0 && Lt(t, heap[Parent(index)].evttim, boundary) {
        var parent := Parent(index);
        assert heap[..n][parent] in AllBut(heap[..n], index);
        Rise(index, parent, t, n);
        c := Up(parent, t, n);
      } else {
        c := Down(index, t, n);
      }
    }

    /** The last event goes where it fits. */
    method Refill(index: nat, ghost n: nat)
      requires num == n < heap.Length && Searching(index, n) && heap[n] !in AllBut(heap[..n], index)
      requires var t := heap[n].evttim;
        if index > 0 && Lt(t, heap[Parent(index)].evttim, boundary) then Below(index, t, n) else Above(index, t, n)
      modifies heap, (AllBut(heap[..n], index) + {heap[n]})`index
      ensures Whole(n) && Elements(heap[..n]) == old(AllBut(heap[..n], index)) + {old(heap[n])}
    {
      var c := FindPlace(index, heap[num].evttim, n);
      assert heap[n..][0] == heap[n] == old(heap[n..])[0];
      Put(heap[num], c, n);
    }

    /** The last place is given up: e was in it, or leaves a hole for the event that was. */
    method Shrink(e: TMEVTB, ghost n: nat)
      requires Valid() && num == n + 1 && e in Registered()
      modifies this`num
      ensures num == n && e.index <= n && heap[e.index] == e
      ensures e.index == n ==> Whole(n) && Registered() == old(Registered()) - {e}
      ensures e.index < n ==>
        && Searching(e.index, n) && heap[n] !in AllBut(heap[..n], e.index)
        && AllBut(heap[..n], e.index) + {heap[n]} == old(Registered()) - {e}
        && if e.index > 0 && Lt(heap[n].evttim, heap[Parent(e.index)].evttim, boundary) then
             Below(e.index, heap[n].evttim, n)
           else Above(e.index, heap[n].evttim, n)
    {
      OpenAt(e, n);
      WithoutLast(n);
      assert heap[..num][n] == heap[n];
      num := num - 1;
    }

    /** tmevtb_delete. When e is the last event, the search goes nowhere and the event
        is put where it was; that branch is left out. */
    method Delete(e: TMEVTB)
      requires Valid() && e in Registered()
      modifies this`num, heap, Registered()`index
      ensures Valid() && num == old(num) - 1 && Registered() == old(Registered()) - {e}
    {
      var index := e.index;
      ghost var n := num - 1;
      Shrink(e, n);
      if num == 0 || index == num {
        return;
      }
      Refill(index, n);
      assert Whole(n);
    }

    ghost predicate Earliest(e: TMEVTB, all: set<TMEVTB>)
      reads this`boundary, (all + {e})`evttim
    {
      forall x :: x in all ==> Key(e) <= Key(x)
    }

    twostate predicate SameTimes(all: set<TMEVTB>)
      reads all`evttim
    {
      forall x :: x in all ==> x.evttim == old(x.evttim)
    }

    lemma TopIsEarliest(e: TMEVTB)
      requires Valid() && e in Registered()
      ensures num > 0 && Key(heap[0]) <= Key(e)
    {
      var ks := Keys(heap[..num]);
      var i :| 0 <= i < num && heap[..num][i] == e;
      TopSmallest(ks, i);
      assert ks[0] == Key(heap[0]) && ks[i] == Key(e);
    }

    lemma TopIsFirst()
      requires Valid() && num > 0
      ensures heap[0] in Registered() && heap[0].index == 0 && Earliest(heap[0], Registered())
    {
      assert heap[..num][0] == heap[0];
      forall e | e in Registered()
        ensures Key(heap[0]) <= Key(e)
      {
        TopIsEarliest(e);
      }
    }

    method RemoveFirst(top: TMEVTB, ghost n: nat)
      requires Valid() && num == n + 1 && top in Registered() && top.index == 0
      modifies this`num, heap, Registered()`index
      ensures Valid() && num == n && Registered() == old(Registered()) - {top}
    {
      Shrink(top, n);
      if num > 0 {
        Refill(0, n);
      }
      assert Whole(n);
    }

    /** tmevtb_delete_top. */
    method DeleteTop() returns (top: TMEVTB)
      requires Valid() && num > 0
      modifies this`num, heap, Registered()`index
      ensures Valid() && num == old(num) - 1 && Registered() == old(Registered()) - {top}
      ensures top == old(heap[0]) && top in old(Registered()) && Earliest(top, old(Registered()))
    {
      top := heap[0];
      TopIsFirst();
      RemoveFirst(top, num - 1);
    }

    // ---------- the clock ----------

    /** The boundary trails the current time by the margin. */
    ghost predicate Trailing()
      reads this`current, this`boundary
    {
      boundary == Wrapped(current - BOUNDARY_MARGIN)
    }

    /** No event is left behind the boundary when it moves on by d. */
    ghost predicate KeepsUp(d: Evttim)
      requires num <= heap.Length
      reads this`num, this`boundary, heap, Registered()`evttim
    {
      forall e :: e in Registered() ==> d <= Key(e)
    }

    ghost predicate AllBehind(d: Evttim)
      requires num <= heap.Length
      reads this`num, this`boundary, heap, Registered()`evttim
    {
      forall e :: e in Registered() ==> Key(e) < d
    }

    /** The boundary, moving on by d, passes no event, or passes them all. */
    ghost predicate StaysInOrder(d: Evttim)
      requires num <= heap.Length
      reads this`num, this`boundary, heap, Registered()`evttim
    {
      KeepsUp(d) || AllBehind(d)
    }

    /** What holds of the events, in terms of their keys. */
    lemma SidesByKeys(d: Evttim)
      requires num <= heap.Length
      ensures StaysInOrder(d) <==> OnOneSide(Keys(heap[..num]), d)
    {
      var ks := Keys(heap[..num]);
      forall i | 0 <= i < num
        ensures heap[i] in Registered() && ks[i] == Key(heap[i])
      {
        assert heap[..num][i] == heap[i];
      }
    }

    /** The order of the heap after the boundary has moved on by d. */
    twostate lemma OrderMoved(d: Evttim)
      requires old(num) == num <= heap.Length && old(Valid()) && heap[..] == old(heap[..])
      requires SameTimes(Registered()) && boundary == Wrapped(old(boundary) + d)
      requires forall e :: e in Registered() ==> e.index == old(e.index)
      ensures Valid() <==> OnOneSide(old(Keys(heap[..num])), d)
    {
      var h := heap[..num];
      assert h == old(heap[..num]);
      assert Times(h) == old(Times(h));
      BoundaryMoves(Times(h), old(boundary), d);
    }

    /** The current time moves on by d, and the boundary with it; the system time follows
        when this passes its highest. */
    method MoveOn(d: Evttim)
      requires Trailing()
      modifies this`current, this`boundary, this`monotonic, this`offset
      ensures State() == Forward(old(State()), d)
      ensures Trailing() && boundary == Wrapped(old(boundary) + d)
    {
      BoundaryFollows(current, d);
      var previous := current;
      current := Wrapped(current + d);
      boundary := Wrapped(current - BOUNDARY_MARGIN);
      if Wrapped(monotonic - previous) < d {
        if current < monotonic {
          offset := (offset + WRAP) % SYSTIM_WRAP;
        }
        monotonic := current;
      }
    }

    /** Time passes: the heap stays in order exactly when no event is passed, or all are. */
    method PassTime(d: Evttim)
      requires Valid() && Trailing()
      modifies this`current, this`boundary, this`monotonic, this`offset
      ensures Trailing() && State() == Forward(old(State()), d) && boundary == Wrapped(old(boundary) + d)
      ensures Valid() <==> old(StaysInOrder(d))
    {
      SidesByKeys(d);
      MoveOn(d);
      OrderMoved(d);
    }

    /** update_current_evttim. The heap stays in order exactly when the boundary passes no
        event, or passes them all. */
    method UpdateCurrentEvttim(advance: Evttim)
      requires Valid() && Trailing()
      modifies this`current, this`boundary, this`monotonic, this`offset
      ensures Trailing() && View() == Stepped(old(View()), Elapse(advance))
      ensures boundary == Wrapped(old(boundary) + advance)
      ensures Valid() <==> old(StaysInOrder(advance))
    {
      PassTime(advance);
    }

    /** The event e is set to t and added. */
    method InsertAt(e: TMEVTB, t: Evttim)
      requires Valid() && num < heap.Length && e !in Registered()
      modifies this`num, heap, Registered()`index, e
      ensures Valid() && num == old(num) + 1 && e.evttim == t && Registered() == old(Registered()) + {e}
    {
      e.evttim := t;
      assert Whole(num);
      Insert(e);
    }

    twostate lemma ViewGrows(e: TMEVTB)
      requires old(num) <= heap.Length && num <= heap.Length
      requires Registered() == old(Registered()) + {e}
      requires SameTimes(old(Registered()) - {e})
      ensures View().events == old(View()).events[e := e.evttim]
    {
    }

    /** The event e, just added to those of t, is at the top and the earliest, or behind one that
        is not later. */
    lemma FirstOrBehind(e: TMEVTB, t: Timer)
      requires Valid() && t.clock.boundary == boundary
      requires e !in t.events && View().events == t.events[e := e.evttim]
      ensures if e.index == 0 then IsTop(View(), e.evttim) else NotFirst(t, e.evttim)
    {
      assert e in View().events;
      var i :| 0 <= i < num && heap[..num][i] == e;
      var first := heap[..num][0];
      forall x | x in Registered()
        ensures Key(first) <= Key(x)
      {
        TopIsEarliest(x);
      }
      assert first.index == 0 && first in View().events;
      if e.index != 0 {
        assert first in t.events && t.events[first] == first.evttim;
      }
    }

    /** The event is set to come `time` from now, rounded up to a step of the counter, and added. */
    method Register(e: TMEVTB, time: nat, tstep: nat)
      requires Valid() && num < heap.Length && e !in Registered()
      requires time <= TMAX_RELTIM && tstep <= TSTEP_LIMIT
      modifies this`num, heap, Registered()`index, e
      ensures Valid() && Registering(old(View()), e, time, tstep, View(), e.index == 0)
      ensures num == old(num) + 1 && Registered() == old(Registered()) + {e} && e.evttim == FromNow(current, time, tstep)
    {
      ghost var t := View();
      InsertAt(e, FromNow(current, time, tstep));
      ViewGrows(e);
      RegisterStep(t, e, time, tstep, View());
      FirstOrBehind(e, t);
    }

    /** What set_hrt_event asks for. */
    function ChosenAlarm(): Alarm
      requires num <= heap.Length
      reads this`num, this`current, this`boundary, heap, if num > 0 then {heap[0]} else {}
    {
      if num == 0 then
        if bound.Unbounded? then Cleared else After(bound.limit)
      else if Le(heap[0].evttim, current, boundary) then AtOnce
      else
        var hrtcnt := Wrapped(heap[0].evttim - current);
        if bound.Unbounded? || hrtcnt <= bound.limit then After(hrtcnt) else After(bound.limit)
    }

    lemma ChosenAlarmIsRight()
      requires Valid()
      ensures AlarmSet(View(), bound, ChosenAlarm())
    {
      if num > 0 {
        TopStep(0, heap[0]);
        assert ChosenAlarm() == EventAlarmFor(View(), heap[0], bound);
      }
    }

    /** set_hrt_event. */
    method SetHrtEvent()
      requires Valid()
      modifies this`alarm
      ensures Valid() && View() == old(View()) && AlarmSet(old(View()), bound, alarm)
    {
      ChosenAlarmIsRight();
      alarm := ChosenAlarm();
    }

    /** The alarm is set, but not in the timer interrupt, at the end of which it is set anyway. */
    method SetIf(needed: bool)
      requires Valid()
      modifies this`alarm
      ensures Valid() && View() == old(View())
      ensures if !inSignalTime && needed then AlarmSet(View(), bound, alarm) else alarm == old(alarm)
    {
      if !inSignalTime && needed {
        SetHrtEvent();
      }
    }

    /** The first part of tmevtb_enqueue_reltim. */
    method Enqueue(e: TMEVTB, time: nat, tstep: nat, advance: Evttim)
      requires Valid() && Trailing() && num < heap.Length && e !in Registered() && StaysInOrder(advance)
      requires time <= TMAX_RELTIM && tstep <= TSTEP_LIMIT
      modifies this`num, this`current, this`boundary, this`monotonic, this`offset, heap, Registered()`index, e
      ensures Valid() && Trailing()
      ensures Enqueued(old(View()), e, time, tstep, advance, View(), e.index == 0)
    {
      UpdateCurrentEvttim(advance);
      Register(e, time, tstep);
    }

    /** tmevtb_enqueue_reltim. Outside the timer interrupt the alarm is set for an event that came
        to the top, and is kept only for one behind another that is not later. */
    method EnqueueReltim(e: TMEVTB, time: nat, tstep: nat, advance: Evttim)
      requires Valid() && Trailing() && num < heap.Length && e !in Registered() && StaysInOrder(advance)
      requires time <= TMAX_RELTIM && tstep <= TSTEP_LIMIT
      modifies this`num, this`current, this`boundary, this`monotonic, this`offset, this`alarm, heap, Registered()`index, e
      ensures Valid() && Trailing()
      ensures Enqueued(old(View()), e, time, tstep, advance, View(), e.index == 0)
      ensures if !inSignalTime && e.index == 0 then AlarmSet(View(), bound, alarm) else alarm == old(alarm)
    {
      Enqueue(e, time, tstep, advance);
      SetIf(e.index == 0);
    }

    twostate lemma ViewShrinks(e: TMEVTB)
      requires old(num) <= heap.Length && num <= heap.Length
      requires Registered() == old(Registered()) - {e} && SameTimes(old(Registered()))
      ensures View().events == old(View()).events - {e}
    {
    }

    /** The first part of tmevtb_dequeue. */
    method Unregister(e: TMEVTB)
      requires Valid() && e in Registered()
      modifies this`num, heap, Registered()`index
      ensures Valid() && View() == Stepped(old(View()), Remove(e)) && Registered() == old(Registered()) - {e}
    {
      ghost var t := View();
      Delete(e);
      ViewShrinks(e);
      RemoveStep(t, e, View());
    }

    /** The time is updated and the alarm set. */
    method UpdateAndSet(advance: Evttim)
      requires Valid() && Trailing() && StaysInOrder(advance)
      modifies this`current, this`boundary, this`monotonic, this`offset, this`alarm
      ensures Valid() && Trailing() && View() == Stepped(old(View()), Elapse(advance))
      ensures AlarmSet(View(), bound, alarm)
    {
      UpdateCurrentEvttim(advance);
      SetHrtEvent();
    }

    /** No event but e is left behind the boundary when it moves on by d. */
    ghost predicate OthersKeepUp(e: TMEVTB, d: Evttim)
      requires num <= heap.Length
      reads this`num, this`boundary, heap, Registered()`evttim
    {
      forall x :: x in Registered() && x != e ==> d <= Key(x)
    }

    /** tmevtb_dequeue. Outside the timer interrupt, when the event was at the top, the time is
        updated and the alarm is set. */
    method Dequeue(e: TMEVTB, advance: Evttim)
      requires Valid() && Trailing() && e in Registered()
      requires !inSignalTime && e.index == 0 ==> OthersKeepUp(e, advance)
      modifies this`num, this`current, this`boundary, this`monotonic, this`offset, this`alarm, heap, Registered()`index
      ensures Valid() && Trailing()
      ensures !inSignalTime && old(e.index) == 0 ==>
          View() == Stepped(Stepped(old(View()), Remove(e)), Elapse(advance)) && AlarmSet(View(), bound, alarm)
      ensures inSignalTime || old(e.index) != 0 ==> View() == Stepped(old(View()), Remove(e)) && alarm == old(alarm)
    {
      var index := e.index;
      Unregister(e);
      if !inSignalTime && index == 0 {
        UpdateAndSet(advance);
      }
    }

    // ---------- adjusting the time ----------

    /** check_adjtim. */
    predicate RefusesAdjtim(adjtim: int)
      requires num <= heap.Length
      reads this, heap, if num > 0 then {heap[0]} else {}
    {
      if adjtim > 0 then num > 0 && Le(Wrapped(heap[0].evttim + TMAX_ADJTIM), current, boundary)
      else adjtim < 0 && Wrapped(monotonic - current) >= TMAX_ADJTIM
    }

    /** No event is so far ahead that the boundary moving back could pass it. */
    ghost predicate WithinReach()
      requires num <= heap.Length
      reads this`num, this`boundary, heap, Registered()`evttim
    {
      forall e :: e in Registered() ==> Key(e) < WRAP - TMAX_ADJTIM
    }

    lemma TopStep(adjtim: int, top: TMEVTB)
      requires Valid() && -TMAX_ADJTIM <= adjtim <= TMAX_ADJTIM && (num > 0 ==> top == heap[0])
      ensures Decided(View(), adjtim, top, RefusesAdjtim(adjtim))
    {
      if num > 0 {
        assert heap[..num][0] in Registered();
      }
      forall e | e in Registered()
        ensures num > 0 && Key(heap[0]) <= Key(e)
      {
        TopIsEarliest(e);
      }
    }

    /** An adjustment that is not refused leaves no event behind. */
    lemma NoneLeftBehind(adjtim: int)
      requires Valid() && Trailing() && WithinReach()
      requires 0 < adjtim <= TMAX_ADJTIM && !RefusesAdjtim(adjtim)
      ensures KeepsUp(adjtim)
    {
      forall e | e in Registered()
        ensures adjtim <= Key(e)
      {
        TopIsEarliest(e);
        LateTop(heap[0].evttim, current);
      }
    }

    /** adj_tim ahead. */
    method AdjustAhead(d: Evttim)
      requires Valid() && Trailing() && KeepsUp(d)
      modifies this`current, this`boundary, this`monotonic, this`offset
      ensures Valid() && Trailing() && State() == Forward(old(State()), d)
    {
      PassTime(d);
    }

    /** How far the boundary moves on, modulo 2^32, when it moves back by d. */
    function Ahead(d: Evttim): Evttim {
      if d == 0 then 0 else WRAP - d
    }

    lemma ReachIsBehind(d: Evttim)
      requires num <= heap.Length && WithinReach() && d <= TMAX_ADJTIM
      ensures StaysInOrder(Ahead(d))
    {
    }

    method StepBack(d: Evttim)
      requires Trailing()
      modifies this`current, this`boundary
      ensures Trailing() && State() == Backward(old(State()), d)
      ensures boundary == Wrapped(old(boundary) + Ahead(d))
    {
      BoundaryGoesBack(current, boundary, d);
      current := Wrapped(current - d);
      boundary := Wrapped(current - BOUNDARY_MARGIN);
    }

    method StepBackInOrder(d: Evttim)
      requires Valid() && Trailing()
      modifies this`current, this`boundary
      ensures Trailing() && State() == Backward(old(State()), d)
      ensures Valid() <==> old(StaysInOrder(Ahead(d)))
    {
      SidesByKeys(Ahead(d));
      StepBack(d);
      OrderMoved(Ahead(d));
    }

    /** adj_tim back: the system time stays. */
    method AdjustBack(d: Evttim)
      requires Valid() && Trailing() && WithinReach() && d <= TMAX_ADJTIM
      modifies this`current, this`boundary
      ensures Valid() && Trailing() && State() == Backward(old(State()), d)
    {
      ReachIsBehind(d);
      StepBackInOrder(d);
    }

    /** adj_tim, after its update. */
    method AdjustClock(adjtim: int) returns (ercd: Ercd)
      requires Valid() && Trailing() && WithinReach() && -TMAX_ADJTIM <= adjtim <= TMAX_ADJTIM
      modifies this`current, this`boundary, this`monotonic, this`offset
      ensures Valid() && Trailing()
      ensures State() == if old(RefusesAdjtim(adjtim)) then old(State()) else Adjusted(old(State()), adjtim)
      ensures ercd == if old(RefusesAdjtim(adjtim)) then E_OBJ else E_OK
    {
      if RefusesAdjtim(adjtim) {
        return E_OBJ;
      }
      if adjtim > 0 {
        NoneLeftBehind(adjtim);
        AdjustAhead(adjtim);
      } else {
        AdjustBack(-adjtim);
      }
      return E_OK;
    }

    twostate lemma SameEvents()
      requires old(num) == num <= heap.Length && Registered() == old(Registered()) && SameTimes(Registered())
      ensures View().events == old(View()).events
    {
    }

    method Adjust(adjtim: int, ghost top: TMEVTB) returns (ercd: Ercd)
      requires Valid() && Trailing() && WithinReach() && (num > 0 ==> top == heap[0])
      requires -TMAX_ADJTIM <= adjtim <= TMAX_ADJTIM
      modifies this`current, this`boundary, this`monotonic, this`offset
      ensures Valid() && Trailing() && Adjusting(old(View()), adjtim, top, View(), ercd)
    {
      ghost var v, refused := View(), RefusesAdjtim(adjtim);
      TopStep(adjtim, top);
      ercd := AdjustClock(adjtim);
      SameEvents();
      AdjustingClock(v, adjtim, top, refused, View(), ercd);
    }

    twostate lemma NearerStillWithinReach(advance: Evttim)
      requires num == old(num) <= heap.Length && heap[..] == old(heap[..])
      requires old(KeepsUp(advance)) && old(WithinReach()) && boundary == Wrapped(old(boundary) + advance)
      requires forall e :: e in Registered() ==> e.evttim == old(e.evttim)
      ensures WithinReach()
    {
      forall e | e in Registered()
        ensures Key(e) < WRAP - TMAX_ADJTIM
      {
        assert e in old(Registered()) && advance <= old(Key(e)) < WRAP - TMAX_ADJTIM;
        AdvanceShifts(e.evttim, old(boundary), advance);
      }
    }

    method UpdateWithinReach(advance: Evttim)
      requires Valid() && Trailing() && KeepsUp(advance) && WithinReach()
      modifies this`current, this`boundary, this`monotonic, this`offset
      ensures Valid() && Trailing() && WithinReach() && View() == Stepped(old(View()), Elapse(advance))
    {
      UpdateCurrentEvttim(advance);
      NearerStillWithinReach(advance);
    }

    method UpdateAndAdjust(adjtim: int, advance: Evttim, ghost top: TMEVTB) returns (ercd: Ercd)
      requires Valid() && Trailing() && KeepsUp(advance) && WithinReach() && (num > 0 ==> top == heap[0])
      requires -TMAX_ADJTIM <= adjtim <= TMAX_ADJTIM
      modifies this`current, this`boundary, this`monotonic, this`offset
      ensures Valid() && Trailing() && AdjTimStep(old(View()), adjtim, advance, top, View(), ercd)
    {
      UpdateWithinReach(advance);
      ercd := Adjust(adjtim, top);
    }

    /** adj_tim. Outside the timer interrupt the alarm is set after an adjustment. */
    method AdjTim(adjtim: int, advance: Evttim, ghost top: TMEVTB) returns (ercd: Ercd)
      requires Valid() && Trailing() && KeepsUp(advance) && WithinReach() && (num > 0 ==> top == heap[0])
      modifies this`current, this`boundary, this`monotonic, this`offset, this`alarm
      ensures Valid() && Trailing()
      ensures AdjTimStep(old(View()), adjtim, advance, top, View(), ercd)
      ensures if !inSignalTime && ercd == E_OK then AlarmSet(View(), bound, alarm) else alarm == old(alarm)
    {
      if !(-TMAX_ADJTIM <= adjtim <= TMAX_ADJTIM) {
        return E_PAR;
      }
      ercd := UpdateAndAdjust(adjtim, advance, top);
      SetIf(ercd == E_OK);
    }

    // ---------- the interrupt ----------

    ghost function KeyMap(): map<TMEVTB, nat>
      requires num <= heap.Length
      reads this`num, this`boundary, heap, Registered()`evttim
    {
      map e | e in Registered() :: Key(e)
    }

    predicate Due(e: TMEVTB)
      reads this`current, this`boundary, e`evttim
    {
      Le(e.evttim, current, boundary)
    }

    /** Some events are fired already, and all keep their keys. */
    ghost predicate Firing(fired: seq<TMEVTB>, key: map<TMEVTB, nat>)
      requires num <= heap.Length
      reads this`num, this`current, this`boundary, heap, key.Keys`evttim, Elements(fired)`evttim
    {
      && TakenInOrder(fired, Registered(), key)
      && (forall e :: e in key ==> Key(e) == key[e])
      && (forall e :: e in fired ==> Due(e))
    }

    /** The body of the inner loop of signal_time, but for the callback. */
    method FireTop(fired: seq<TMEVTB>, ghost key: map<TMEVTB, nat>) returns (top: TMEVTB)
      requires Valid() && num > 0 && Due(heap[0]) && Firing(fired, key)
      modifies this`num, heap, Registered()`index
      ensures Valid() && num == old(num) - 1 && Registered() <= old(Registered())
      ensures Firing(fired + [top], key)
    {
      ghost var all := Registered();
      top := DeleteTop();
      assert all == Registered() + {top};
      forall e | e in key
        ensures Key(e) == key[e]
      {
      }
      TakeNext(fired, Registered(), key, top);
    }

    /** The inner loop of signal_time, but for the callbacks: it removes exactly the events
        that are due, the earliest first. */
    method FireDue() returns (fired: seq<TMEVTB>)
      requires Valid()
      modifies this`num, heap, Registered()`index
      ensures Valid() && TakenInOrder(fired, Registered(), old(KeyMap()))
      ensures forall e :: e in old(Registered()) ==> (e in fired <==> Due(e))
    {
      fired := [];
      while num > 0 && Due(heap[0])
        invariant Valid() && Registered() <= old(Registered()) && Firing(fired, old(KeyMap()))
        decreases num
      {
        var top := FireTop(fired, old(KeyMap()));
        fired := fired + [top];
      }
      forall e | e in Registered()
        ensures !Due(e)
      {
        TopIsEarliest(e);
      }
    }
  }
}
