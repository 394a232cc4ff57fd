/** The ring buffers that the serial driver, the system log and the trace log
    all use: a fixed array, a read position, a write position and a count.
    The operations are exactly the unchecked pointer updates of the sources;
    the lemmas say what they do to the queue that the ring represents. */
module Rings {

  const UINT_MAX: nat := 0xFFFF_FFFF

  datatype Ring<T> = Ring(buf: seq<T>, rp: nat, wp: nat, count: nat) {

    function Size(): nat { |buf| }

    /** INC_PTR: advance a position, back to 0 at the end of the array. */
    function Inc(i: nat): nat { if i + 1 == |buf| then 0 else i + 1 }

    /** The array position of the i-th queued element. */
    function At(i: nat): nat { if rp + i < |buf| then rp + i else rp + i - |buf| }

    ghost predicate Ok() {
      && rp < |buf| && wp < |buf|
      && count <= |buf|
      && wp == At(count)
    }

    /** The queued elements, oldest first. */
    ghost function Contents(): (q: seq<T>)
      requires Ok()
      ensures |q| == count
      ensures forall i :: 0 <= i < count ==> q[i] == buf[At(i)]
    {
      seq(count, i requires 0 <= i < count => buf[At(i)])
    }

    predicate Full() { count == |buf| }

    /** Store at the write position. Nothing checks for room. */
    function Put(x: T): Ring<T>
      requires wp < |buf|
    {
      Ring(buf[wp := x], rp, Inc(wp), count + 1)
    }

    /** The element at the read position. Nothing checks that there is one. */
    function Front(): T
      requires rp < |buf|
    {
      buf[rp]
    }

    /** Drop the element at the read position; the unsigned count wraps at 0. */
    function Take(): Ring<T> {
      Ring(buf, Inc(rp), wp, if count == 0 then UINT_MAX else count - 1)
    }

    /** Store at the write position; a full ring gives up its oldest element. */
    function Overwrite(x: T): Ring<T>
      requires wp < |buf|
    {
      if count < |buf| then Ring(buf[wp := x], rp, Inc(wp), count + 1)
      else Ring(buf[wp := x], Inc(wp), Inc(wp), count)
    }
  }

  /** With room left, Put appends. */
  lemma PutAppends<T>(r: Ring<T>, x: T)
    requires r.Ok() && !r.Full()
    ensures r.Put(x).Ok()
    ensures r.Put(x).Contents() == r.Contents() + [x]
  {
  }

  /** With an element queued, Front is the oldest one and Take removes it. */
  lemma TakeRemovesFront<T>(r: Ring<T>)
    requires r.Ok() && r.count > 0
    ensures r.Take().Ok() && r.Take().count == r.count - 1
    ensures r.Contents() == [r.Front()] + r.Take().Contents()
  {
  }

  /** Overwrite appends, and drops the oldest element exactly when full. */
  lemma OverwriteKeepsNewest<T>(r: Ring<T>, x: T)
    requires r.Ok()
    ensures r.Overwrite(x).Ok()
    ensures r.Overwrite(x).Contents() == (if r.Full() then r.Contents()[1..] else r.Contents()) + [x]
  {
    var r' := r.Overwrite(x);
    if r.Full() {
      assert r.wp == r.rp;
      forall i | 0 <= i < r.count - 1
        ensures r'.buf[r'.At(i)] == r.Contents()[i + 1]
      {
        assert r'.At(i) == r.At(i + 1) != r.wp;
      }
      assert r'.Contents() == r.Contents()[1..] + [x];
    }
  }

  lemma Modulo(x: nat, w: nat, n: nat)
    requires w < n && (x == w || x == n + w)
    ensures x % n == w
  {
    if x == n + w {
      assert x / n == 1;
    }
  }

  /** The write position is the read position advanced by the count, modulo the size. */
  lemma WritePositionModulo<T>(r: Ring<T>)
    requires r.Ok()
    ensures r.wp == (r.rp + r.count) % r.Size()
  {
    Modulo(r.rp + r.count, r.wp, r.Size());
  }
}
