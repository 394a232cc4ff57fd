/** Numbers in log messages: the conversion to digits in a small buffer, and the
    field with its sign and padding. */
module LogConvert {
  import opened Basics

  /** CONVERT_BUFLEN for numbers of that many bits. */
  function BufLen(bits: nat): nat { (bits + 2) / 3 }

  const RADDEC: string := "0123456789"
  const RADHEX: string := "0123456789abcdef"
  const RADHEX_UPPER: string := "0123456789ABCDEF"

  predicate Digits(radix: nat, radchar: string) {
    (radix == 10 && radchar == RADDEC) || (radix == 16 && (radchar == RADHEX || radchar == RADHEX_UPPER))
  }

  lemma QuotientSmaller(v: nat, radix: nat)
    requires v >= radix >= 2
    ensures v / radix < v
  {
    var q := v / radix;
    assert q * 2 <= q * radix <= v;
  }

  /** The numeral of a value, most significant digit first. */
  function Numeral(v: nat, radix: nat, radchar: string): string
    requires 2 <= radix <= |radchar|
    decreases v
  {
    if v < radix then [radchar[v]]
    else
      QuotientSmaller(v, radix);
      Numeral(v / radix, radix, radchar) + [radchar[v % radix]]
  }

  /** The value of a string of digits. */
  function Value(s: string, radix: nat): nat {
    if s == "" then 0 else Value(s[..|s| - 1], radix) * radix + DigitValue(s[|s| - 1])
  }

  lemma DigitTables(radix: nat, radchar: string, d: nat)
    requires Digits(radix, radchar) && d < radix
    ensures DigitValue(radchar[d]) == d && radchar[d] != ' ' && radchar[d] != '-'
  {
  }

  lemma ValueSnoc(s: string, c: char, radix: nat)
    ensures Value(s + [c], radix) == Value(s, radix) * radix + DigitValue(c)
  {
    assert (s + [c])[..|s|] == s;
  }

  lemma DivisionRestores(v: nat, radix: nat)
    requires radix > 0
    ensures v / radix * radix + v % radix == v
  {
  }

  /** Decoding the digits gives back the value. */
  lemma {:induction false} NumeralReadsBack(v: nat, radix: nat, radchar: string)
    requires Digits(radix, radchar)
    ensures Value(Numeral(v, radix, radchar), radix) == v
    decreases v
  {
    if v < radix {
      DigitTables(radix, radchar, v);
      ValueSnoc("", radchar[v], radix);
    } else {
      var q, d := v / radix, v % radix;
      QuotientSmaller(v, radix);
      NumeralReadsBack(q, radix, radchar);
      DigitTables(radix, radchar, d);
      ValueSnoc(Numeral(q, radix, radchar), radchar[d], radix);
      DivisionRestores(v, radix);
    }
  }

  lemma {:induction false} NumeralPlain(v: nat, radix: nat, radchar: string)
    requires Digits(radix, radchar)
    ensures forall i :: 0 <= i < |Numeral(v, radix, radchar)| ==>
              Numeral(v, radix, radchar)[i] != ' ' && Numeral(v, radix, radchar)[i] != '-'
    decreases v
  {
    DigitTables(radix, radchar, v % radix);
    if v < radix {
    } else {
      QuotientSmaller(v, radix);
      NumeralPlain(v / radix, radix, radchar);
    }
  }
  lemma {:induction false} PowOctal(n: nat)
    ensures Pow(2, 3 * n) == Pow(8, n)
  {
    if n == 0 {
    } else {
      PowOctal(n - 1);
      var k := 3 * (n - 1);
      assert Pow(2, k + 3) == 2 * Pow(2, k + 2);
      assert Pow(2, k + 2) == 2 * Pow(2, k + 1);
    }
  }

  lemma {:induction false} PowGrows(m: nat, n: nat)
    requires m <= n
    ensures Pow(2, m) <= Pow(2, n)
  {
    if m == n {
    } else {
      PowGrows(m, n - 1);
    }
  }

  /** A value of that many bits is below 8 to the buffer length, so even octal digits would fit. */
  lemma FitsBuffer(v: nat, bits: nat)
    requires v < Pow(2, bits)
    ensures v < Pow(8, BufLen(bits))
  {
    PowOctal(BufLen(bits));
    PowGrows(bits, 3 * BufLen(bits));
  }

  lemma QuotientShrinks(v: nat, radix: nat)
    requires radix >= 8
    ensures v / radix <= v / 8
  {
    var q := v / radix;
    assert q * 8 <= q * radix <= v;
  }

  /** One digit less leaves one octal place less. */
  lemma QuotientFits(v: nat, radix: nat, places: nat)
    requires radix >= 8 && places > 0 && v < Pow(8, places)
    ensures v / radix < Pow(8, places - 1)
  {
    var p := Pow(8, places - 1);
    assert v / radix <= v / 8 by { QuotientShrinks(v, radix); }
    assert v / 8 < p;
  }

  function Repeat(c: char, n: nat): string { seq(n, _ => c) }

  function Sign(minus: bool): string { if minus then "-" else "" }

  function Padding(text: string, width: nat, minus: bool): nat {
    var used := |text| + |Sign(minus)|;
    if used < width then width - used else 0
  }

  /** The field: at least `width` wide; zeros go between sign and digits, blanks before the sign. */
  function Field(text: string, width: nat, minus: bool, padzero: bool): string {
    var pad := Padding(text, width, minus);
    if padzero then Sign(minus) + Repeat('0', pad) + text else Repeat(' ', pad) + Sign(minus) + text
  }

  /** The digits not stored yet. */
  function Remaining(val: nat, radix: nat, radchar: string): string
    requires 2 <= radix <= |radchar|
  {
    if val == 0 then "" else Numeral(val, radix, radchar)
  }

  lemma QuotientPositive(v: nat, radix: nat)
    requires 0 < radix <= v
    ensures v / radix > 0
  {
  }

  lemma NumeralStep(val: nat, radix: nat, radchar: string)
    requires 2 <= radix <= |radchar|
    ensures Numeral(val, radix, radchar) == Remaining(val / radix, radix, radchar) + [radchar[val % radix]]
  {
    if val < radix {
      assert val / radix == 0 && val % radix == val;
    } else {
      QuotientPositive(val, radix);
    }
  }

  lemma NextDigit(val: nat, radix: nat, radchar: string, stored: string, last: char, rest: string)
    requires 2 <= radix <= |radchar|
    requires Numeral(val, radix, radchar) == rest + [last]
    ensures Numeral(val, radix, radchar) + Reverse(stored) == rest + Reverse(stored + [last])
  {
    ReverseSnoc(stored, last);
    assert rest + [last] + Reverse(stored) == rest + ([last] + Reverse(stored));
  }

  /** The body of convert's first loop: the last digit is stored, the rest remains. */
  method StoreDigit(buf: array<char>, i: nat, val: nat, radix: nat, radchar: string) returns (rest: nat)
    requires 8 <= radix <= |radchar| && i < buf.Length && val < Pow(8, buf.Length - i)
    modifies buf
    ensures rest < Pow(8, buf.Length - i - 1)
    ensures Numeral(val, radix, radchar) + Reverse(old(buf[..i])) == Remaining(rest, radix, radchar) + Reverse(buf[..i + 1])
  {
    QuotientFits(val, radix, buf.Length - i);
    NumeralStep(val, radix, radchar);
    NextDigit(val, radix, radchar, buf[..i], radchar[val % radix], Remaining(val / radix, radix, radchar));
    buf[i] := radchar[val % radix];
    rest := val / radix;
    assert buf[..i + 1] == old(buf[..i]) + [radchar[val % radix]];
  }

  /** The first half of convert: digits are stored from the last one on, and the buffer, which
      has a place for each octal digit, is never full before the last digit is stored. */
  method FillBuffer(value: nat, radix: nat, radchar: string, bits: nat) returns (buf: array<char>, i: nat)
    requires 8 <= radix <= |radchar| && bits > 0 && value < Pow(2, bits)
    ensures fresh(buf) && i <= buf.Length == BufLen(bits)
    ensures Reverse(buf[..i]) == Numeral(value, radix, radchar)
  {
    buf := new char[BufLen(bits)];
    FitsBuffer(value, bits);
    var val: nat := StoreDigit(buf, 0, value, radix, radchar);
    i := 1;
    assert Reverse([]) == "";
    while i < buf.Length && val != 0
      invariant 1 <= i <= buf.Length && val < Pow(8, buf.Length - i)
      invariant Numeral(value, radix, radchar) == Remaining(val, radix, radchar) + Reverse(buf[..i])
    {
      val := StoreDigit(buf, i, val, radix, radchar);
      i := i + 1;
    }
  }

  /** What comes before the digits. */
  function Lead(used: nat, width: nat, minus: bool, padzero: bool): string {
    var pad := if used + |Sign(minus)| < width then width - used - |Sign(minus)| else 0;
    if padzero then Sign(minus) + Repeat('0', pad) else Repeat(' ', pad) + Sign(minus)
  }

  lemma FieldIsLead(text: string, width: nat, minus: bool, padzero: bool)
    ensures Lead(|text|, width, minus, padzero) + text == Field(text, width, minus, padzero)
    ensures |Field(text, width, minus, padzero)| == Max(width, |text| + |Sign(minus)|)
  {
  }

  /** The sign and the padding that convert puts out before its i digits. */
  method PutLead(i: nat, fieldWidth: nat, minus: bool, padzero: bool) returns (out: string)
    ensures out == Lead(i, fieldWidth, minus, padzero)
  {
    var width := fieldWidth;
    if minus && width > 0 { width := width - 1; }
    out := if minus && padzero then "-" else "";
    var j := i;
    ghost var before := out;
    while j < width
      invariant i <= j && (j > i ==> j <= width)
      invariant out == before + Repeat(if padzero then '0' else ' ', j - i)
    {
      out := out + [if padzero then '0' else ' '];
      j := j + 1;
    }
    if minus && !padzero { out := out + "-"; }
  }

  /** The loop that puts out the stored digits, the last one first. */
  method PutDigits(buf: array<char>, n: nat) returns (out: string)
    requires n <= buf.Length
    ensures out == Reverse(buf[..n])
  {
    var i := n;
    out := "";
    while i > 0
      invariant 0 <= i <= n && Reverse(buf[..n]) == out + Reverse(buf[..i])
    {
      i := i - 1;
      assert buf[..i + 1] == buf[..i] + [buf[i]];
      ReverseSnoc(buf[..i], buf[i]);
      out := out + [buf[i]];
    }
    assert buf[..0] == "" && out + "" == out;
  }

  lemma {:induction false} ReverseLength(s: string)
    ensures |Reverse(s)| == |s|
  {
    if s == "" {
    } else {
      ReverseLength(s[1..]);
    }
  }

  /** convert: for every value of the given number of bits the output is the numeral of the
      value in its field. */
  method Convert(value: nat, radix: nat, radchar: string, fieldWidth: nat, minus: bool, padzero: bool, bits: nat)
    returns (out: string)
    requires Digits(radix, radchar) && bits > 0 && value < Pow(2, bits)
    ensures out == Field(Numeral(value, radix, radchar), fieldWidth, minus, padzero)
    ensures |out| == Max(fieldWidth, |Numeral(value, radix, radchar)| + |Sign(minus)|)
  {
    var buf, i := FillBuffer(value, radix, radchar, bits);
    ReverseLength(buf[..i]);
    out := PutLead(i, fieldWidth, minus, padzero);
    FieldIsLead(Reverse(buf[..i]), fieldWidth, minus, padzero);
    var digits := PutDigits(buf, i);
    out := out + digits;
  }

  // ---------- reading a field back ----------

  /** The number in a field: blanks, an optional sign, digits. */
  function ReadField(s: string, radix: nat): int {
    if s != "" && s[0] == ' ' then ReadField(s[1..], radix)
    else if s != "" && s[0] == '-' then -(Value(s[1..], radix) as int)
    else Value(s, radix)
  }

  lemma {:induction false} LeadingZeros(n: nat, s: string, radix: nat)
    ensures Value(Repeat('0', n) + s, radix) == Value(s, radix)
    decreases n, |s|
  {
    if s != "" {
      LeadingZeros(n, s[..|s| - 1], radix);
      assert (Repeat('0', n) + s)[..n + |s| - 1] == Repeat('0', n) + s[..|s| - 1];
    } else if n > 0 {
      LeadingZeros(n - 1, "", radix);
      assert (Repeat('0', n) + "")[..n - 1] == Repeat('0', n - 1) + "";
    }
  }

  lemma {:induction false} LeadingBlanks(n: nat, s: string, radix: nat)
    ensures ReadField(Repeat(' ', n) + s, radix) == ReadField(s, radix)
  {
    if n == 0 {
      assert Repeat(' ', 0) + s == s;
    } else {
      LeadingBlanks(n - 1, s, radix);
      assert (Repeat(' ', n) + s)[1..] == Repeat(' ', n - 1) + s;
    }
  }

  lemma SignedReadsBack(s: string, minus: bool, radix: nat)
    requires s != "" && s[0] != ' ' && s[0] != '-'
    ensures ReadField(Sign(minus) + s, radix) == if minus then -(Value(s, radix) as int) else Value(s, radix)
  {
    if minus {
      assert (Sign(minus) + s)[1..] == s;
    } else {
      assert Sign(minus) + s == s;
    }
  }

  lemma ZerosReadBack(text: string, radix: nat, pad: nat, minus: bool)
    requires text != "" && text[0] != ' ' && text[0] != '-'
    ensures ReadField(Sign(minus) + (Repeat('0', pad) + text), radix)
         == if minus then -(Value(text, radix) as int) else Value(text, radix)
  {
    LeadingZeros(pad, text, radix);
    SignedReadsBack(Repeat('0', pad) + text, minus, radix);
  }

  lemma TextReadsBack(text: string, radix: nat, width: nat, minus: bool, padzero: bool)
    requires text != "" && text[0] != ' ' && text[0] != '-'
    ensures ReadField(Field(text, width, minus, padzero), radix)
         == if minus then -(Value(text, radix) as int) else Value(text, radix)
  {
    var pad := Padding(text, width, minus);
    if padzero {
      ZerosReadBack(text, radix, pad, minus);
      assert Field(text, width, minus, padzero) == Sign(minus) + (Repeat('0', pad) + text);
    } else {
      SignedReadsBack(text, minus, radix);
      LeadingBlanks(pad, Sign(minus) + text, radix);
      assert Field(text, width, minus, padzero) == Repeat(' ', pad) + (Sign(minus) + text);
    }
  }

  /** Whatever the width and the padding, the field reads back as the number it was made from. */
  lemma FieldReadsBack(v: nat, radix: nat, radchar: string, width: nat, minus: bool, padzero: bool)
    requires Digits(radix, radchar)
    ensures ReadField(Field(Numeral(v, radix, radchar), width, minus, padzero), radix) == if minus then -(v as int) else v
  {
    NumeralReadsBack(v, radix, radchar);
    NumeralPlain(v, radix, radchar);
    TextReadsBack(Numeral(v, radix, radchar), radix, width, minus, padzero);
  }
}
