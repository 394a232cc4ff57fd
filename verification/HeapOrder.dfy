/** The order of a binary heap with a hole, on the keys alone. A hole at c stands for a
    place where a key k is about to be put. */
module HeapOrder {

  function Parent(i: nat): nat
    requires i > 0
  {
    (i - 1) / 2
  }

  ghost predicate Ordered(ks: seq<nat>) {
    forall i {:trigger Parent(i)} :: 0 < i < |ks| ==> ks[Parent(i)] <= ks[i]
  }

  /** In order away from the hole, and across it. */
  ghost predicate Around(ks: seq<nat>, c: nat) {
    && c < |ks|
    && (forall i {:trigger Parent(i)} :: 0 < i < |ks| && i != c && Parent(i) != c ==> ks[Parent(i)] <= ks[i])
    && (forall i {:trigger Parent(i)} :: 0 < i < |ks| && c > 0 && Parent(i) == c ==> ks[Parent(c)] <= ks[i])
  }

  /** k is not above any key below the hole. */
  ghost predicate BelowOk(ks: seq<nat>, c: nat, k: nat) {
    forall i {:trigger Parent(i)} :: 0 < i < |ks| && Parent(i) == c ==> k <= ks[i]
  }

  /** k is not below the key above the hole. */
  ghost predicate AboveOk(ks: seq<nat>, c: nat, k: nat) {
    0 < c < |ks| ==> ks[Parent(c)] <= k
  }

  /** The key above the hole moves into it. */
  lemma MoveUp(ks: seq<nat>, c: nat, k: nat)
    requires Around(ks, c) && BelowOk(ks, c, k) && c > 0 && k < ks[Parent(c)]
    ensures var ks' := ks[c := ks[Parent(c)]]; Around(ks', Parent(c)) && BelowOk(ks', Parent(c), k)
  {
    var p := Parent(c);
    if p > 0 { assert ks[Parent(p)] <= ks[p]; }
    forall i | 0 < i < |ks| && i != c && Parent(i) == p
      ensures ks[p] <= ks[i]
    {
    }
  }

  /** The smaller key below the hole moves into it. */
  lemma MoveDown(ks: seq<nat>, c: nat, d: nat, k: nat)
    requires Around(ks, c) && AboveOk(ks, c, k) && 0 < d < |ks| && Parent(d) == c && ks[d] < k
    requires forall i {:trigger Parent(i)} :: 0 < i < |ks| && Parent(i) == c ==> ks[d] <= ks[i]
    ensures var ks' := ks[c := ks[d]]; Around(ks', d) && AboveOk(ks', d, k)
  {
  }

  /** The key fits the hole. */
  lemma Fill(ks: seq<nat>, c: nat, k: nat)
    requires Around(ks, c) && BelowOk(ks, c, k) && AboveOk(ks, c, k)
    ensures Ordered(ks[c := k])
  {
  }

  /** The key at the top is the smallest. */
  lemma {:induction false} TopSmallest(ks: seq<nat>, i: nat)
    requires Ordered(ks) && i < |ks|
    ensures ks[0] <= ks[i]
  {
    if i == 0 {
    } else {
      TopSmallest(ks, Parent(i));
    }
  }

  /** The places below c. */
  lemma Children(c: nat, i: nat)
    requires i > 0
    ensures Parent(i) == c <==> i == c * 2 + 1 || i == c * 2 + 2
  {
  }

  /** Of the two places below c, one that is not above the other is not above any. */
  lemma EarlierChild(ks: seq<nat>, c: nat, d: nat)
    requires c * 2 + 1 <= d <= c * 2 + 2 && d < |ks|
    requires c * 2 + 2 < |ks| ==> ks[d] <= ks[c * 2 + 1] && ks[d] <= ks[c * 2 + 2]
    ensures Parent(d) == c && forall i {:trigger Parent(i)} :: 0 < i < |ks| && Parent(i) == c ==> ks[d] <= ks[i]
  {
    forall i | 0 < i < |ks| && Parent(i) == c
      ensures ks[d] <= ks[i]
    {
      Children(c, i);
    }
  }

  /** With no place below the hole, nothing is below k. */
  lemma Childless(ks: seq<nat>, c: nat, k: nat)
    requires |ks| <= c * 2 + 1
    ensures BelowOk(ks, c, k)
  {
    forall i | 0 < i < |ks|
      ensures Parent(i) != c
    {
      Children(c, i);
    }
  }

  /** Dropping the last place keeps the order. */
  lemma DropLast(ks: seq<nat>)
    requires Ordered(ks) && |ks| > 0
    ensures Ordered(ks[..|ks| - 1])
  {
  }

  /** No key is below d, or all are. */
  ghost predicate OnOneSide(ks: seq<nat>, d: nat) {
    (forall i :: 0 <= i < |ks| ==> d <= ks[i]) || (forall i :: 0 <= i < |ks| ==> ks[i] < d)
  }

  /** Counting every key from a place d further on, modulo m, keeps the order exactly
      when all keys lie on the same side of d. */
  lemma ShiftKeepsOrder(ks: seq<nat>, ks': seq<nat>, d: nat, m: nat)
    requires Ordered(ks) && |ks'| == |ks| && d < m
    requires forall i :: 0 <= i < |ks| ==> ks[i] < m && ks'[i] == if ks[i] < d then ks[i] - d + m else ks[i] - d
    ensures Ordered(ks') <==> OnOneSide(ks, d)
  {
    if i, j :| 0 <= i < |ks| && d <= ks[i] && 0 <= j < |ks| && ks[j] < d {
      TopSmallest(ks, j);
      if Ordered(ks') {
        TopSmallest(ks', i);
      }
    }
  }

  // ---------- what is in the places other than the hole ----------

  function AllBut<T(==)>(h: seq<T>, c: nat): set<T> { set i | 0 <= i < |h| && i != c :: h[i] }

  lemma MoveKeepsAllBut<T>(h: seq<T>, c: nat, d: nat)
    requires c < |h| && d < |h| && c != d
    ensures AllBut(h[c := h[d]], d) == AllBut(h, c)
  {
    var h' := h[c := h[d]];
    forall x | x in AllBut(h, c)
      ensures x in AllBut(h', d)
    {
      var i :| 0 <= i < |h| && i != c && h[i] == x;
      if i == d { assert h'[c] == x; } else { assert h'[i] == x; }
    }
    forall x | x in AllBut(h', d)
      ensures x in AllBut(h, c)
    {
      var i :| 0 <= i < |h| && i != d && h'[i] == x;
      if i == c { assert h[d] == x; } else { assert h[i] == x; }
    }
  }

  function Elements<T(==)>(h: seq<T>): set<T> { set x | x in h }

  /** Putting x into the hole adds it to the rest. */
  lemma FillAdds<T>(h: seq<T>, c: nat, x: T)
    requires c < |h|
    ensures Elements(h[c := x]) == AllBut(h, c) + {x}
  {
    var h' := h[c := x];
    forall y | y in AllBut(h, c)
      ensures y in h'
    {
      var i :| 0 <= i < |h| && i != c && h[i] == y;
      assert h'[i] == y;
    }
    assert h'[c] == x;
  }

  /** A hole behind the last place is a hole anywhere. */
  lemma LastHole(ks: seq<nat>, n: nat, k: nat)
    requires |ks| == n + 1 && Ordered(ks[..n])
    ensures Around(ks, n) && BelowOk(ks, n, k)
  {
    forall i | 0 < i < n
      ensures ks[Parent(i)] <= ks[i]
    {
      assert ks[..n][Parent(i)] <= ks[..n][i];
    }
  }

  lemma LastIsRest<T>(h: seq<T>, n: nat)
    requires |h| == n + 1
    ensures AllBut(h, n) == Elements(h[..n])
  {
    forall x | x in Elements(h[..n])
      ensures x in AllBut(h, n)
    {
      var i :| 0 <= i < n && h[..n][i] == x;
      assert h[i] == x;
    }
    forall x | x in AllBut(h, n)
      ensures x in h[..n]
    {
      var i :| 0 <= i < |h| && i != n && h[i] == x;
      assert h[..n][i] == x;
    }
  }

  // ---------- taking the smallest again and again ----------

  /** Of everything with a key, `taken` was taken in order and `rest` is left, with no
      smaller key. */
  ghost predicate TakenInOrder<T>(taken: seq<T>, rest: set<T>, key: map<T, nat>) {
    && key.Keys == Elements(taken) + rest && Elements(taken) !! rest
    && (forall i, j :: 0 <= i < j < |taken| ==> taken[i] != taken[j] && key[taken[i]] <= key[taken[j]])
    && (forall i, x :: 0 <= i < |taken| && x in rest ==> key[taken[i]] <= key[x])
  }

  lemma TakeNext<T>(taken: seq<T>, rest: set<T>, key: map<T, nat>, x: T)
    requires TakenInOrder(taken, rest + {x}, key) && x !in rest
    requires forall y :: y in rest ==> key[x] <= key[y]
    ensures TakenInOrder(taken + [x], rest, key)
  {
    assert Elements(taken + [x]) == Elements(taken) + {x} by {
      assert (taken + [x])[|taken|] == x;
      forall y | y in taken
        ensures y in taken + [x]
      {
      }
    }
  }
}
