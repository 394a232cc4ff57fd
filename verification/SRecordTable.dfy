/** The block table of a memory image: a hash from start addresses to the bytes
    stored from there on, as hexadecimal digits, two for each byte. The table is
    one representation of a plain map from addresses to bytes; blocks that meet
    are always merged. */
module SRecordTable {

  type Blocks = map<nat, string>

  /** The i-th byte of a digit string. */
  function ByteOf(data: string, i: int): string {
    if 0 <= i && 2 * i + 2 <= |data| then data[2 * i..2 * i + 2] else ""
  }

  function Bytes(data: string): nat { |data| / 2 }

  /** The address after the block at b. */
  function End(t: Blocks, b: nat): nat { if b in t then b + Bytes(t[b]) else b }

  /** The byte that the block at b has at address a. */
  function At(t: Blocks, b: nat, a: nat): string { if b in t then ByteOf(t[b], a - b) else "" }

  /** Whole bytes only, and a gap between any two blocks. */
  ghost predicate Separated(t: Blocks) {
    && (forall b :: b in t ==> |t[b]| % 2 == 0)
    && (forall b, c :: b in t && c in t && b < c ==> End(t, b) < c)
  }

  ghost predicate Holds(t: Blocks, b: nat, a: nat) { b in t && b <= a < End(t, b) }

  ghost predicate Defined(t: Blocks, a: nat) { exists b :: Holds(t, b, a) }

  /** The memory that the table stands for. */
  ghost function Memory(t: Blocks): imap<nat, string>
  {
    imap a: nat | Defined(t, a) :: var b :| Holds(t, b, a); At(t, b, a)
  }

  /** The plain map with new bytes written over it. */
  ghost function Override(m: imap<nat, string>, address: nat, data: string): imap<nat, string> {
    imap a: nat | a in m || address <= a < address + Bytes(data) ::
      if address <= a < address + Bytes(data) then ByteOf(data, a - address) else m[a]
  }

  lemma HolderUnique(t: Blocks, a: nat, b: nat, c: nat)
    requires Separated(t) && Holds(t, b, a) && Holds(t, c, a)
    ensures b == c
  {
  }

  lemma MemoryAt(t: Blocks, a: nat, b: nat)
    requires Separated(t) && Holds(t, b, a)
    ensures a in Memory(t) && Memory(t)[a] == At(t, b, a)
  {
    assert Defined(t, a);
    var c :| Holds(t, c, a) && Memory(t)[a] == At(t, c, a);
    HolderUnique(t, a, b, c);
  }

  ghost predicate NonEmpty(t: Blocks) { forall b :: b in t ==> |t[b]| > 0 }

  // ---------- set_data ----------

  /** The new range runs past the end of a block that starts strictly inside it. */
  ghost predicate Swallows(t: Blocks, address: nat, data: string) {
    exists b :: b in t && address < b && End(t, b) < address + Bytes(data)
  }

  predicate Touches(t: Blocks, b: nat, address: nat, data: string) {
    address <= End(t, b) && b <= address + Bytes(data)
  }

  datatype Option<T> = None | Some(value: T)

  /** The blocks that the new range joins: one that starts at or before it, one that starts after. */
  predicate Neighbours(t: Blocks, address: nat, data: string, left: Option<nat>, right: Option<nat>) {
    && (left.Some? ==> left.value in t && left.value <= address <= End(t, left.value))
    && (right.Some? ==> right.value in t && address < right.value <= address + Bytes(data) <= End(t, right.value))
  }

  function Start(address: nat, left: Option<nat>): nat { if left.Some? then left.value else address }

  /** What the left block has before the new range. */
  function Head(t: Blocks, address: nat, left: Option<nat>): string
    requires left.Some? ==> left.value in t && left.value <= address <= End(t, left.value)
  {
    if left.Some? then t[left.value][..2 * (address - left.value)] else ""
  }

  /** What the right block, or else the left one, has after the new range. */
  function Tail(t: Blocks, end: nat, left: Option<nat>, right: Option<nat>): string
    requires left.Some? ==> left.value in t && left.value <= end
    requires right.Some? ==> right.value in t && right.value <= end <= End(t, right.value)
  {
    if right.Some? then t[right.value][2 * (end - right.value)..]
    else if left.Some? && end < End(t, left.value) then t[left.value][2 * (end - left.value)..]
    else ""
  }

  /** The digits of the joined block. */
  function Joined(t: Blocks, address: nat, data: string, left: Option<nat>, right: Option<nat>): string
    requires Neighbours(t, address, data, left, right)
  {
    Head(t, address, left) + data + Tail(t, address + Bytes(data), left, right)
  }

  function Removed(t: Blocks, left: Option<nat>, right: Option<nat>): Blocks {
    t - (if left.Some? then {left.value} else {}) - (if right.Some? then {right.value} else {})
  }

  /** The table after the joined block has taken the place of its neighbours. */
  ghost function JoinedTable(t: Blocks, address: nat, data: string, left: Option<nat>, right: Option<nat>): Blocks
    requires Neighbours(t, address, data, left, right)
  {
    Removed(t, left, right)[Start(address, left) := Joined(t, address, data, left, right)]
  }

  /** Both neighbours, and no other block meets the new range. */
  ghost predicate AllNeighbours(t: Blocks, address: nat, data: string, left: Option<nat>, right: Option<nat>) {
    && Neighbours(t, address, data, left, right)
    && (forall b :: b in t && Touches(t, b, address, data) ==> left == Some(b) || right == Some(b))
  }

  lemma ByteOfConcat(x: string, y: string, i: int)
    requires |x| % 2 == 0 && 0 <= i && 2 * i + 2 <= |x| + |y|
    ensures ByteOf(x + y, i) == if i < Bytes(x) then ByteOf(x, i) else ByteOf(y, i - Bytes(x))
  {
  }

  lemma ByteOfThree(x: string, y: string, z: string, i: int)
    requires |x| % 2 == 0 && |y| % 2 == 0 && 0 <= i && 2 * i + 2 <= |x| + |y| + |z|
    ensures ByteOf(x + y + z, i) ==
      if i < Bytes(x) then ByteOf(x, i)
      else if i < Bytes(x) + Bytes(y) then ByteOf(y, i - Bytes(x))
      else ByteOf(z, i - Bytes(x) - Bytes(y))
  {
    assert Bytes(x + y) == Bytes(x) + Bytes(y);
    ByteOfConcat(x + y, z, i);
    if i < Bytes(x) + Bytes(y) {
      ByteOfConcat(x, y, i);
    }
  }

  /** The byte at a of j, stored from s on, is that of the part that is there. */
  predicate Spliced(j: string, x: string, y: string, z: string, s: nat, mid: nat, end: nat, a: nat) {
    ByteOf(j, a - s) == if a < mid then ByteOf(x, a - s) else if a < end then ByteOf(y, a - mid) else ByteOf(z, a - end)
  }

  /** Three parts stored one after the other from s on. */
  lemma ByteAt(x: string, y: string, z: string, s: nat, mid: nat, end: nat, a: nat)
    requires |x| % 2 == 0 && |y| % 2 == 0 && |z| % 2 == 0
    requires mid == s + Bytes(x) && end == mid + Bytes(y) && s <= a < end + Bytes(z)
    ensures Spliced(x + y + z, x, y, z, s, mid, end, a)
  {
    ByteOfThree(x, y, z, a - s);
  }

  lemma SliceOfSlice(d: string, from: nat, to: nat, i: nat, j: nat)
    requires from <= to <= |d| && i <= j <= to - from
    ensures d[from..to][i..j] == d[from + i..from + j]
  {
    var x, y, mid := d[from..to][i..j], d[from + i..from + j], d[from..to];
    assert |x| == |y|;
    forall k | 0 <= k < |x|
      ensures x[k] == y[k]
    {
      assert x[k] == mid[i + k] == d[from + (i + k)];
    }
  }

  /** The first k bytes. */
  lemma FirstBytes(d: string, k: nat, i: int)
    requires 2 * k <= |d|
    ensures var h := d[..2 * k];
      |h| % 2 == 0 && Bytes(h) == k && (0 <= i < k ==> ByteOf(h, i) == ByteOf(d, i))
  {
    var h := d[..2 * k];
    assert |h| == 2 * k;
    if 0 <= i < k {
      SliceOfSlice(d, 0, 2 * k, 2 * i, 2 * i + 2);
    }
  }

  /** The bytes from the k-th on. */
  lemma LastBytes(d: string, k: nat, i: int)
    requires |d| % 2 == 0 && 2 * k <= |d|
    ensures var l := d[2 * k..];
      |l| % 2 == 0 && Bytes(l) == Bytes(d) - k && (0 <= i < Bytes(d) - k ==> ByteOf(l, i) == ByteOf(d, k + i))
  {
    var l := d[2 * k..];
    assert |l| == |d| - 2 * k;
    if 0 <= i < Bytes(d) - k {
      SliceOfSlice(d, 2 * k, |d|, 2 * i, 2 * i + 2);
    }
  }

  lemma ThreeParts(x: string, y: string, z: string)
    requires |x| % 2 == 0 && |y| % 2 == 0 && |z| % 2 == 0
    ensures |x + y + z| % 2 == 0 && Bytes(x + y + z) == Bytes(x) + Bytes(y) + Bytes(z)
  {
    assert |x + y + z| == |x| + |y| + |z|;
  }

  lemma HeadBytes(t: Blocks, address: nat, left: Option<nat>, a: nat)
    requires left.Some? ==> left.value in t && left.value <= address <= End(t, left.value)
    ensures var h, s := Head(t, address, left), Start(address, left);
      && |h| % 2 == 0 && s + Bytes(h) == address
      && (left.Some? && s <= a < address ==> ByteOf(h, a - s) == At(t, left.value, a))
  {
    if left.Some? {
      FirstBytes(t[left.value], address - left.value, a - left.value);
    }
  }

  /** The block that holds the bytes after the new range. */
  function After(t: Blocks, end: nat, left: Option<nat>, right: Option<nat>): Option<nat> {
    if right.Some? then right
    else if left.Some? && end < End(t, left.value) then left
    else None
  }

  lemma TailBytes(t: Blocks, end: nat, left: Option<nat>, right: Option<nat>, a: nat)
    requires left.Some? ==> left.value in t && left.value <= end && |t[left.value]| % 2 == 0
    requires right.Some? ==> right.value in t && right.value <= end <= End(t, right.value) && |t[right.value]| % 2 == 0
    ensures var l, from := Tail(t, end, left, right), After(t, end, left, right);
      && |l| % 2 == 0
      && end + Bytes(l) == (if from.Some? then End(t, from.value) else end)
      && (from.Some? && end <= a < end + Bytes(l) ==> ByteOf(l, a - end) == At(t, from.value, a))
  {
    var from := After(t, end, left, right);
    if from.Some? {
      LastBytes(t[from.value], end - from.value, a - end);
    }
  }

  predicate WholeNeighbours(t: Blocks, left: Option<nat>, right: Option<nat>) {
    && (left.Some? && left.value in t ==> |t[left.value]| % 2 == 0)
    && (right.Some? && right.value in t ==> |t[right.value]| % 2 == 0)
  }

  /** The joined block reaches from the left block's start to the end of whatever reaches furthest. */
  lemma JoinedExtent(t: Blocks, address: nat, data: string, left: Option<nat>, right: Option<nat>)
    requires |data| % 2 == 0 && Neighbours(t, address, data, left, right) && WholeNeighbours(t, left, right)
    ensures var j := Joined(t, address, data, left, right);
      var end := address + Bytes(data);
      var from := After(t, end, left, right);
      |j| % 2 == 0 && Start(address, left) + Bytes(j) == (if from.Some? then End(t, from.value) else end)
  {
    var end := address + Bytes(data);
    HeadBytes(t, address, left, 0);
    TailBytes(t, end, left, right, 0);
    ThreeParts(Head(t, address, left), data, Tail(t, end, left, right));
  }

  /** The sizes of the three parts. */
  lemma PartSizes(t: Blocks, address: nat, data: string, left: Option<nat>, right: Option<nat>)
    requires |data| % 2 == 0 && Neighbours(t, address, data, left, right) && WholeNeighbours(t, left, right)
    ensures var h, l := Head(t, address, left), Tail(t, address + Bytes(data), left, right);
      && |h| % 2 == 0 && |l| % 2 == 0 && Start(address, left) + Bytes(h) == address
      && Bytes(Joined(t, address, data, left, right)) == Bytes(h) + Bytes(data) + Bytes(l)
  {
    HeadBytes(t, address, left, 0);
    TailBytes(t, address + Bytes(data), left, right, 0);
    ThreeParts(Head(t, address, left), data, Tail(t, address + Bytes(data), left, right));
  }

  /** Which of the three parts has the byte. */
  lemma JoinedIndex(t: Blocks, address: nat, data: string, left: Option<nat>, right: Option<nat>, a: nat)
    requires |data| % 2 == 0 && Neighbours(t, address, data, left, right) && WholeNeighbours(t, left, right)
    requires var s := Start(address, left); s <= a < s + Bytes(Joined(t, address, data, left, right))
    ensures var end, l := address + Bytes(data), Tail(t, address + Bytes(data), left, right);
      && (end <= a ==> a < end + Bytes(l))
      && Spliced(Joined(t, address, data, left, right), Head(t, address, left), data, l, Start(address, left), address, end, a)
  {
    var h, l := Head(t, address, left), Tail(t, address + Bytes(data), left, right);
    PartSizes(t, address, data, left, right);
    ByteAt(h, data, l, Start(address, left), address, address + Bytes(data), a);
  }

  /** A byte of the joined block before the new range is the left block's. */
  lemma ByteBefore(t: Blocks, address: nat, data: string, left: Option<nat>, right: Option<nat>, a: nat)
    requires |data| % 2 == 0 && Neighbours(t, address, data, left, right) && WholeNeighbours(t, left, right)
    requires var s := Start(address, left); s <= a < s + Bytes(Joined(t, address, data, left, right)) && a < address
    ensures left.Some? && ByteOf(Joined(t, address, data, left, right), a - Start(address, left)) == At(t, left.value, a)
  {
    JoinedIndex(t, address, data, left, right, a);
    HeadBytes(t, address, left, a);
  }

  /** One beyond it is of the block that reaches furthest. */
  lemma ByteBeyond(t: Blocks, address: nat, data: string, left: Option<nat>, right: Option<nat>, a: nat)
    requires |data| % 2 == 0 && Neighbours(t, address, data, left, right) && WholeNeighbours(t, left, right)
    requires var s := Start(address, left);
      s <= a < s + Bytes(Joined(t, address, data, left, right)) && address + Bytes(data) <= a
    ensures var from := After(t, address + Bytes(data), left, right);
      from.Some? && ByteOf(Joined(t, address, data, left, right), a - Start(address, left)) == At(t, from.value, a)
  {
    var end := address + Bytes(data);
    var l, from := Tail(t, end, left, right), After(t, end, left, right);
    JoinedIndex(t, address, data, left, right, a);
    assert a < end + Bytes(l);
    TailBytes(t, end, left, right, a);
    assert from.Some? && ByteOf(l, a - end) == At(t, from.value, a);
  }

  /** A block that is left alone does not meet the joined one. */
  lemma ApartFromJoined(t: Blocks, address: nat, data: string, left: Option<nat>, right: Option<nat>, b: nat)
    requires Separated(t) && |data| % 2 == 0 && AllNeighbours(t, address, data, left, right)
    requires b in t && left != Some(b) && right != Some(b) && b != Start(address, left)
    ensures var end := address + Bytes(data);
      var from := After(t, end, left, right);
      End(t, b) < Start(address, left) || (if from.Some? then End(t, from.value) else end) < b
  {
    assert !Touches(t, b, address, data);
  }

  lemma PairApart(t: Blocks, address: nat, data: string, left: Option<nat>, right: Option<nat>, b: nat, c: nat)
    requires Separated(t) && |data| % 2 == 0 && AllNeighbours(t, address, data, left, right)
    requires b in JoinedTable(t, address, data, left, right) && c in JoinedTable(t, address, data, left, right) && b < c
    ensures End(JoinedTable(t, address, data, left, right), b) < c
  {
    var s := Start(address, left);
    if b != s && c != s {
      assert b in t && c in t;
    } else {
      JoinedExtent(t, address, data, left, right);
      ApartFromJoined(t, address, data, left, right, if b == s then c else b);
    }
  }

  lemma JoinSeparates(t: Blocks, address: nat, data: string, left: Option<nat>, right: Option<nat>)
    requires Separated(t) && |data| % 2 == 0 && AllNeighbours(t, address, data, left, right)
    ensures Separated(JoinedTable(t, address, data, left, right))
  {
    JoinedExtent(t, address, data, left, right);
    forall b, c | b in JoinedTable(t, address, data, left, right) && c in JoinedTable(t, address, data, left, right) && b < c
      ensures End(JoinedTable(t, address, data, left, right), b) < c
    {
      PairApart(t, address, data, left, right, b, c);
    }
  }

  /** A new byte is there. */
  lemma NewByteIsThere(t: Blocks, address: nat, data: string, left: Option<nat>, right: Option<nat>, a: nat)
    requires Separated(t) && |data| % 2 == 0 && AllNeighbours(t, address, data, left, right)
    requires address <= a < address + Bytes(data)
    ensures var t', s := JoinedTable(t, address, data, left, right), Start(address, left);
      Holds(t', s, a) && At(t', s, a) == ByteOf(data, a - address)
  {
    JoinedExtent(t, address, data, left, right);
    JoinedIndex(t, address, data, left, right, a);
  }

  /** The block that holds an old byte outside the new range, if it is a neighbour, is the one
      that its side of the joined block comes from. */
  lemma WhichNeighbour(t: Blocks, address: nat, data: string, left: Option<nat>, right: Option<nat>, a: nat, b: nat)
    requires Separated(t) && AllNeighbours(t, address, data, left, right)
    requires Holds(t, b, a) && !(address <= a < address + Bytes(data)) && (left == Some(b) || right == Some(b))
    ensures var from := After(t, address + Bytes(data), left, right);
      && (if a < address then left == Some(b) else from == Some(b))
      && Start(address, left) <= a && (address <= a ==> a < End(t, from.value))
  {
  }

  /** What the joined block holds. */
  lemma JoinedHolds(t: Blocks, address: nat, data: string, left: Option<nat>, right: Option<nat>, a: nat)
    requires Neighbours(t, address, data, left, right)
    ensures var t', s, j := JoinedTable(t, address, data, left, right), Start(address, left), Joined(t, address, data, left, right);
      (Holds(t', s, a) <==> s <= a < s + Bytes(j)) && At(t', s, a) == ByteOf(j, a - s)
  {
  }

  lemma NeighbourByteStays(t: Blocks, address: nat, data: string, left: Option<nat>, right: Option<nat>, a: nat, b: nat)
    requires Separated(t) && |data| % 2 == 0 && AllNeighbours(t, address, data, left, right)
    requires Holds(t, b, a) && !(address <= a < address + Bytes(data)) && (left == Some(b) || right == Some(b))
    ensures var t', s := JoinedTable(t, address, data, left, right), Start(address, left);
      Holds(t', s, a) && At(t', s, a) == At(t, b, a)
  {
    WhichNeighbour(t, address, data, left, right, a, b);
    JoinedExtent(t, address, data, left, right);
    JoinedHolds(t, address, data, left, right, a);
    if a < address {
      ByteBefore(t, address, data, left, right, a);
    } else {
      ByteBeyond(t, address, data, left, right, a);
    }
  }

  /** An old byte outside the new range is still there. */
  lemma OldByteStays(t: Blocks, address: nat, data: string, left: Option<nat>, right: Option<nat>, a: nat, b: nat)
    requires Separated(t) && |data| % 2 == 0 && AllNeighbours(t, address, data, left, right)
    requires Holds(t, b, a) && !(address <= a < address + Bytes(data))
    ensures var t', s := JoinedTable(t, address, data, left, right), Start(address, left);
      var c := if left == Some(b) || right == Some(b) then s else b;
      Holds(t', c, a) && At(t', c, a) == At(t, b, a)
  {
    if left == Some(b) || right == Some(b) {
      NeighbourByteStays(t, address, data, left, right, a, b);
    }
  }

  /** A byte of the joined table outside the new range was there before. */
  lemma NoByteAppears(t: Blocks, address: nat, data: string, left: Option<nat>, right: Option<nat>, a: nat, b: nat)
    requires Separated(t) && |data| % 2 == 0 && AllNeighbours(t, address, data, left, right)
    requires Holds(JoinedTable(t, address, data, left, right), b, a) && !(address <= a < address + Bytes(data))
    ensures Defined(t, a)
  {
    var s, end := Start(address, left), address + Bytes(data);
    JoinedExtent(t, address, data, left, right);
    if b == s {
      assert if a < address then Holds(t, left.value, a) else Holds(t, After(t, end, left, right).value, a);
    } else {
      assert Holds(t, b, a);
    }
  }

  ghost predicate SameAt(m: imap<nat, string>, m': imap<nat, string>, a: nat) {
    (a in m <==> a in m') && (a in m ==> m[a] == m'[a])
  }

  lemma NewAt(t: Blocks, address: nat, data: string, left: Option<nat>, right: Option<nat>, a: nat)
    requires Separated(t) && |data| % 2 == 0 && AllNeighbours(t, address, data, left, right)
    requires address <= a < address + Bytes(data)
    ensures var m := Memory(JoinedTable(t, address, data, left, right)); a in m && m[a] == ByteOf(data, a - address)
  {
    JoinSeparates(t, address, data, left, right);
    NewByteIsThere(t, address, data, left, right, a);
    MemoryAt(JoinedTable(t, address, data, left, right), a, Start(address, left));
  }

  lemma HeldAlike(t: Blocks, t': Blocks, a: nat, b: nat, c: nat)
    requires Separated(t) && Separated(t') && Holds(t, b, a) && Holds(t', c, a) && At(t, b, a) == At(t', c, a)
    ensures SameAt(Memory(t), Memory(t'), a)
  {
    MemoryAt(t, a, b);
    MemoryAt(t', a, c);
  }

  lemma OldAt(t: Blocks, address: nat, data: string, left: Option<nat>, right: Option<nat>, a: nat)
    requires Separated(t) && |data| % 2 == 0 && AllNeighbours(t, address, data, left, right)
    requires !(address <= a < address + Bytes(data))
    ensures SameAt(Memory(t), Memory(JoinedTable(t, address, data, left, right)), a)
  {
    var t' := JoinedTable(t, address, data, left, right);
    if b :| Holds(t, b, a) {
      JoinSeparates(t, address, data, left, right);
      OldByteStays(t, address, data, left, right, a, b);
      HeldAlike(t, t', a, b, if left == Some(b) || right == Some(b) then Start(address, left) else b);
    } else if b :| Holds(t', b, a) {
      NoByteAppears(t, address, data, left, right, a, b);
    }
  }

  lemma OverrideAt(m: imap<nat, string>, address: nat, data: string, a: nat)
    ensures var o := Override(m, address, data);
      if address <= a < address + Bytes(data) then a in o && o[a] == ByteOf(data, a - address) else SameAt(m, o, a)
  {
  }

  /** The memory of the joined table, byte by byte. */
  lemma JoinedAt(t: Blocks, address: nat, data: string, left: Option<nat>, right: Option<nat>, a: nat)
    requires Separated(t) && |data| % 2 == 0 && AllNeighbours(t, address, data, left, right)
    ensures SameAt(Override(Memory(t), address, data), Memory(JoinedTable(t, address, data, left, right)), a)
  {
    OverrideAt(Memory(t), address, data, a);
    if address <= a < address + Bytes(data) {
      NewAt(t, address, data, left, right, a);
    } else {
      OldAt(t, address, data, left, right, a);
    }
  }

  lemma SameEverywhere(m: imap<nat, string>, m': imap<nat, string>)
    requires forall a: nat :: SameAt(m, m', a)
    ensures m == m'
  {
    assert forall a: nat :: SameAt(m, m', a) ==> (a in m <==> a in m') && (a in m ==> m[a] == m'[a]);
  }

  /** Joining the neighbours writes the new bytes over the old memory, and nothing else. */
  lemma JoinOverrides(t: Blocks, address: nat, data: string, left: Option<nat>, right: Option<nat>)
    requires Separated(t) && |data| % 2 == 0 && AllNeighbours(t, address, data, left, right)
    ensures Memory(JoinedTable(t, address, data, left, right)) == Override(Memory(t), address, data)
  {
    forall a: nat
      ensures SameAt(Override(Memory(t), address, data), Memory(JoinedTable(t, address, data, left, right)), a)
    {
      JoinedAt(t, address, data, left, right, a);
    }
    SameEverywhere(Override(Memory(t), address, data), Memory(JoinedTable(t, address, data, left, right)));
  }

  // ---------- what is swallowed, in terms of the memory ----------

  /** Bytes that are defined, with an undefined one on either side. */
  ghost predicate Island(m: imap<nat, string>, b: nat, e: nat) {
    && 0 < b < e && b - 1 !in m && e !in m
    && forall a :: b <= a < e ==> a in m
  }

  /** The range has an island strictly inside it. */
  ghost predicate CoversIsland(m: imap<nat, string>, address: nat, size: nat) {
    exists b: nat, e: nat :: address < b && e < address + size && Island(m, b, e)
  }

  /** No block holds the address before another block, or the one after it. */
  lemma GapAround(t: Blocks, b: nat, c: nat)
    requires Separated(t) && b in t
    ensures !Holds(t, c, End(t, b)) && (0 < b ==> !Holds(t, c, b - 1))
  {
    if c in t && c < b {
      assert End(t, c) < b;
    } else if c in t && b < c {
      assert End(t, b) < c;
    }
  }

  lemma BlockIsIsland(t: Blocks, b: nat)
    requires Separated(t) && b in t && 0 < b < End(t, b)
    ensures Island(Memory(t), b, End(t, b))
  {
    forall a | b <= a < End(t, b)
      ensures a in Memory(t)
    {
      assert Holds(t, b, a);
    }
    forall c
      ensures !Holds(t, c, End(t, b)) && !Holds(t, c, b - 1)
    {
      GapAround(t, b, c);
    }
  }

  lemma IslandIsBlock(t: Blocks, b: nat, e: nat)
    requires Separated(t) && Island(Memory(t), b, e)
    ensures b in t && End(t, b) == e
  {
    assert b in Memory(t);
    var c: nat :| Holds(t, c, b);
    if c < b {
      assert Holds(t, c, b - 1);
    }
    if e < End(t, c) {
      assert Holds(t, c, e);
    } else if End(t, c) < e {
      assert End(t, c) in Memory(t);
      var d: nat :| Holds(t, d, End(t, c));
      GapAround(t, c, d);
    }
  }

  /** A new range runs past the end of a block inside it exactly when it covers an island. */
  lemma SwallowsAreIslands(t: Blocks, address: nat, data: string)
    requires Separated(t) && NonEmpty(t)
    ensures Swallows(t, address, data) <==> CoversIsland(Memory(t), address, Bytes(data))
  {
    forall b | b in t && address < b && End(t, b) < address + Bytes(data)
      ensures CoversIsland(Memory(t), address, Bytes(data))
    {
      assert |t[b]| > 0 && |t[b]| % 2 == 0;
      BlockIsIsland(t, b);
    }
    forall b: nat, e: nat | address < b && e < address + Bytes(data) && Island(Memory(t), b, e)
      ensures Swallows(t, address, data)
    {
      IslandIsBlock(t, b, e);
    }
  }

  // ---------- get_data ----------

  /** Every byte of the range is defined. */
  ghost predicate DefinedRange(t: Blocks, address: nat, size: nat) {
    forall a :: address <= a < address + size ==> Defined(t, a)
  }

  /** A block that covers the whole range. */
  predicate Covers(t: Blocks, b: nat, address: nat, size: nat) {
    b in t && b <= address && address + size <= End(t, b)
  }

  /** Because blocks that meet are merged, a range whose every byte is defined lies in one block. */
  lemma DefinedRangeInOneBlock(t: Blocks, address: nat, size: nat) returns (b: nat)
    requires Separated(t) && size > 0 && DefinedRange(t, address, size)
    ensures Covers(t, b, address, size)
  {
    assert Defined(t, address);
    b :| Holds(t, b, address);
    assert End(t, b) < address + size ==> Defined(t, End(t, b));
  }

  lemma NothingCovers(t: Blocks, address: nat, size: nat)
    requires Separated(t) && forall b :: b in t ==> !Covers(t, b, address, size)
    ensures size > 0 ==> !DefinedRange(t, address, size)
  {
    if size > 0 && DefinedRange(t, address, size) {
      var _ := DefinedRangeInOneBlock(t, address, size);
    }
  }

  ghost predicate SpelledAt(m: imap<nat, string>, address: nat, digits: string, i: nat) {
    address + i in m && m[address + i] == ByteOf(digits, i)
  }

  /** The digits spell the memory's bytes from an address on. */
  ghost predicate Spells(m: imap<nat, string>, address: nat, digits: string) {
    forall i: nat :: i < Bytes(digits) ==> SpelledAt(m, address, digits, i)
  }

  /** n bytes from the given one on. */
  function Cut(d: string, from: nat, n: nat): (x: string)
    requires 2 * from + 2 * n <= |d|
    ensures |x| == 2 * n
  {
    d[2 * from..2 * from + 2 * n]
  }

  lemma SliceByte(d: string, from: nat, n: nat, i: nat)
    requires 2 * from + 2 * n <= |d| && i < n
    ensures Bytes(Cut(d, from, n)) == n && ByteOf(Cut(d, from, n), i) == ByteOf(d, from + i)
  {
    SliceOfSlice(d, 2 * from, 2 * from + 2 * n, 2 * i, 2 * i + 2);
  }

  lemma CoveredDefined(t: Blocks, b: nat, address: nat, size: nat)
    requires Covers(t, b, address, size)
    ensures DefinedRange(t, address, size)
  {
    forall a | address <= a < address + size
      ensures Defined(t, a)
    {
      assert Holds(t, b, a);
    }
  }

  lemma SpelledByte(t: Blocks, b: nat, address: nat, size: nat, i: nat)
    requires Separated(t) && Covers(t, b, address, size) && i < size && 2 * (address - b) + 2 * size <= |t[b]|
    ensures SpelledAt(Memory(t), address, Cut(t[b], address - b, size), i)
  {
    assert Holds(t, b, address + i);
    MemoryAt(t, address + i, b);
    SliceByte(t[b], address - b, size, i);
  }

  /** What a covering block has for a range spells the memory there. */
  lemma CoveredSpells(t: Blocks, b: nat, address: nat, size: nat)
    requires Separated(t) && Covers(t, b, address, size)
    ensures 2 * (address - b) + 2 * size <= |t[b]|
    ensures Spells(Memory(t), address, Cut(t[b], address - b, size))
  {
    assert 2 * Bytes(t[b]) == |t[b]|;
    var m, d := Memory(t), Cut(t[b], address - b, size);
    forall i: nat | i < size
      ensures SpelledAt(m, address, d, i)
    {
      SpelledByte(t, b, address, size, i);
    }
  }
}
