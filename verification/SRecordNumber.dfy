/** Numbers from hexadecimal digits, in either byte order, unsigned or signed. */
module SRecordNumber {
  import opened Basics

  predicate IsHex(c: char) { '0' <= c <= '9' || 'a' <= c <= 'f' || 'A' <= c <= 'F' }

  predicate AllHex(s: string) { forall i :: 0 <= i < |s| ==> IsHex(s[i]) }

  /** The value of a string of digits. */
  function Digits(s: string): nat {
    if s == "" then 0 else 16 * Digits(s[..|s| - 1]) + DigitValue(s[|s| - 1])
  }

  function HexPrefix(s: string): string {
    if s == "" || !IsHex(s[0]) then "" else [s[0]] + HexPrefix(s[1..])
  }

  /** String#hex: the value of the digits at the front. */
  function Hex(s: string): nat { Digits(HexPrefix(s)) }

  lemma {:induction false} HexPrefixAll(s: string)
    requires AllHex(s)
    ensures HexPrefix(s) == s
  {
    if s == "" {
    } else {
      HexPrefixAll(s[1..]);
    }
  }

  /** The digits up to the first other character count, and what is behind them does not. */
  lemma {:induction false} HexStops(s: string, rest: string)
    requires AllHex(s) && (rest != "" ==> !IsHex(rest[0]))
    ensures HexPrefix(s + rest) == s && Hex(s + rest) == Digits(s)
  {
    if s == "" {
      assert s + rest == rest;
    } else {
      assert (s + rest)[1..] == s[1..] + rest;
      HexStops(s[1..], rest);
    }
  }

  /** The bytes a string of digits spells. */
  function ByteValues(s: string): seq<nat> {
    if |s| < 2 then [] else [Digits(s[..2])] + ByteValues(s[2..])
  }

  /** The sum of the bytes, the first weighing least. */
  function LittleSum(bytes: seq<nat>): nat {
    if bytes == [] then 0
    else LittleSum(bytes[..|bytes| - 1]) + bytes[|bytes| - 1] * Pow(256, |bytes| - 1)
  }

  /** The sum of the bytes, the first weighing most. */
  function BigSum(bytes: seq<nat>): nat {
    if bytes == [] then 0 else bytes[0] * Pow(256, |bytes| - 1) + BigSum(bytes[1..])
  }

  lemma Shift(a: nat, p: nat)
    ensures 16 * (a * p) == a * (16 * p)
  {
  }

  lemma {:induction false} DigitsConcat(x: string, y: string)
    ensures Digits(x + y) == Digits(x) * Pow(16, |y|) + Digits(y)
  {
    if y == "" {
      assert x + y == x;
    } else {
      var n := |y| - 1;
      DigitsConcat(x, y[..n]);
      assert (x + y)[..|x + y| - 1] == x + y[..n];
      Shift(Digits(x), Pow(16, n));
    }
  }

  lemma {:induction false} PowSixteen(n: nat)
    ensures Pow(16, 2 * n) == Pow(256, n)
  {
    if n == 0 {
    } else {
      PowSixteen(n - 1);
      assert Pow(16, 2 * n) == 16 * (16 * Pow(16, 2 * (n - 1)));
    }
  }

  lemma ByteLeads(first: string, rest: string, n: nat)
    requires |rest| == 2 * n
    ensures Digits(first + rest) == Digits(first) * Pow(256, n) + Digits(rest)
  {
    DigitsConcat(first, rest);
    PowSixteen(n);
  }

  lemma {:induction false} ByteCount(s: string)
    requires |s| % 2 == 0
    ensures |ByteValues(s)| == |s| / 2
  {
    if s == "" {
    } else {
      ByteCount(s[2..]);
    }
  }

  /** Read as it stands, a digit string is the big-endian sum of its bytes. */
  lemma {:induction false} DigitsAreBigSum(s: string)
    requires |s| % 2 == 0
    ensures Digits(s) == BigSum(ByteValues(s))
  {
    if s == "" {
    } else {
      assert s == s[..2] + s[2..];
      ByteCount(s[2..]);
      ByteLeads(s[..2], s[2..], |ByteValues(s[2..])|);
      DigitsAreBigSum(s[2..]);
      assert ByteValues(s)[1..] == ByteValues(s[2..]);
    }
  }

  /** The two-digit groups in reverse order. */
  function Reversed(s: string): string {
    if |s| < 2 then "" else Reversed(s[2..]) + s[..2]
  }

  lemma {:induction false} ReversedConcat(x: string, y: string)
    requires |x| % 2 == 0 && |y| % 2 == 0
    ensures Reversed(x + y) == Reversed(y) + Reversed(x)
  {
    if x == "" {
      assert x + y == y && Reversed(y) + "" == Reversed(y);
    } else {
      assert (x + y)[2..] == x[2..] + y && (x + y)[..2] == x[..2];
      ReversedConcat(x[2..], y);
      var r, t, h := Reversed(y), Reversed(x[2..]), x[..2];
      assert (r + t) + h == r + (t + h);
    }
  }

  lemma ReversedPair(x: string)
    requires |x| == 2
    ensures Reversed(x) == x
  {
    assert x[2..] == "" && x[..2] == x;
  }

  lemma ReversedSnoc(front: string, last: string)
    requires |front| % 2 == 0 && |last| == 2
    ensures Reversed(front + last) == last + Reversed(front)
  {
    ReversedConcat(front, last);
    ReversedPair(last);
  }

  lemma {:induction false} ByteValuesSnoc(s: string)
    requires |s| % 2 == 0 && |s| > 0
    ensures ByteValues(s) == ByteValues(s[..|s| - 2]) + [Digits(s[|s| - 2..])]
  {
    if |s| == 2 {
      assert s[..2] == s && s[0..] == s;
    } else {
      var t := s[2..];
      ByteValuesSnoc(t);
      assert t[|t| - 2..] == s[|s| - 2..];
      assert t[..|t| - 2] == s[..|s| - 2][2..];
      assert s[..|s| - 2][..2] == s[..2];
    }
  }

  lemma {:induction false} ReversedLength(s: string)
    requires |s| % 2 == 0
    ensures |Reversed(s)| == |s|
    ensures AllHex(s) ==> AllHex(Reversed(s))
  {
    if s == "" {
    } else {
      ReversedLength(s[2..]);
      assert AllHex(s) ==> AllHex(s[2..]) && AllHex(s[..2]);
    }
  }

  lemma LittleSumSnoc(bytes: seq<nat>, b: nat)
    ensures LittleSum(bytes + [b]) == LittleSum(bytes) + b * Pow(256, |bytes|)
  {
    assert (bytes + [b])[..|bytes|] == bytes;
  }

  /** Read in reverse, it is the little-endian sum. */
  lemma {:induction false} ReversedIsLittleSum(s: string)
    requires |s| % 2 == 0
    ensures Digits(Reversed(s)) == LittleSum(ByteValues(s))
  {
    if s == "" {
    } else {
      var front, last := s[..|s| - 2], s[|s| - 2..];
      assert s == front + last;
      ReversedSnoc(front, last);
      ByteValuesSnoc(s);
      ReversedLength(front);
      ByteCount(front);
      ByteLeads(last, Reversed(front), |ByteValues(front)|);
      ReversedIsLittleSum(front);
      LittleSumSnoc(ByteValues(front), Digits(last));
    }
  }

  lemma {:induction false} DigitsBound(s: string)
    ensures Digits(s) < Pow(16, |s|)
  {
    if s == "" {
    } else {
      DigitsBound(s[..|s| - 1]);
    }
  }

  /** Bit 8n-1, the sign bit of an n-byte number. */
  predicate SignBit(v: nat, n: nat)
    requires n > 0
  {
    v / Pow(2, 8 * n - 1) % 2 == 1
  }

  lemma Regroup(b: nat, x: nat, y: nat)
    ensures b * (x * y) == x * (b * y)
  {
  }

  lemma {:induction false} PowAdd(b: nat, m: nat, n: nat)
    ensures Pow(b, m + n) == Pow(b, m) * Pow(b, n)
  {
    if n == 0 {
    } else {
      PowAdd(b, m, n - 1);
      Regroup(b, Pow(b, m), Pow(b, n - 1));
    }
  }

  lemma {:induction false} PowTwo(n: nat)
    ensures Pow(256, n) == Pow(2, 8 * n)
  {
    if n == 0 {
    } else {
      PowTwo(n - 1);
      PowAdd(2, 8 * (n - 1), 8);
      assert Pow(2, 8) == 256 by {
        assert Pow(2, 4) == 16 && Pow(2, 2) == 4;
        PowAdd(2, 4, 4);
      }
    }
  }

  /** Of a number below 2h, the bit of weight h says whether it reaches h. */
  lemma TopBit(v: nat, h: nat)
    requires 0 < h && v < 2 * h
    ensures v / h % 2 == 1 <==> v >= h
  {
    if v < h {
      assert v / h == 0;
    } else {
      assert v / h == 1;
    }
  }

  /** A negative n-byte number is told by its sign bit, and read by subtracting 256^n: the result
      is the number in the signed range that is congruent to the unsigned one. */
  lemma SignedRange(v: nat, n: nat)
    requires n > 0 && v < Pow(256, n)
    ensures var half: int := Pow(2, 8 * n - 1);
      var r: int := if SignBit(v, n) then v - Pow(256, n) else v;
      Pow(256, n) == 2 * half && -half <= r < half && (r == v || r == v - 2 * half)
  {
    PowTwo(n);
    TopBit(v, Pow(2, 8 * n - 1));
  }

  lemma Grows(k: nat, m: nat)
    ensures k * m >= 0
  {
  }

  /** No other number in that range is congruent to it. */
  lemma SignedUnique(half: int, r: int, s: int, k: int)
    requires -half <= r < half && -half <= s < half
    requires r - s == k * (2 * half)
    ensures r == s
  {
    if k > 0 {
      assert k * (2 * half) == (k - 1) * (2 * half) + 2 * half;
      Grows(k - 1, 2 * half);
    } else if k < 0 {
      assert k * (2 * half) == -((-k - 1) * (2 * half) + 2 * half);
      Grows(-k - 1, 2 * half);
    }
  }
}
