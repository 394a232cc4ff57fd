/** What a directive prints, said of its text: the flag, the digits of the width, the size letter
    and the conversion as they stand in the format. */
module LogText {
  import opened Basics
  import opened LogConvert
  import opened LogFormat

  /** A directive as it is spelled behind the percent sign. */
  datatype Spelled = Spelled(zero: bool, width: string, size: string, conv: char)

  predicate AllDigits(s: string) { forall i :: 0 <= i < |s| ==> '0' <= s[i] <= '9' }

  /** Each part can be told from the next one. */
  predicate Proper(d: Spelled) {
    && AllDigits(d.width) && (!d.zero && d.width != "" ==> d.width[0] != '0')
    && d.size in ["", "l", "t", "T"]
    && !('0' <= d.conv <= '9') && d.conv != '\0' && (d.size == "" ==> d.conv !in "ltT")
  }

  function Spell(d: Spelled): string {
    "%" + (if d.zero then "0" else "") + d.width + d.size + [d.conv]
  }

  // ---------- how it is read ----------

  lemma {:induction false} DigitsAreSkipped(f: string, i: nat, k: nat)
    requires i <= k <= |f| && AllDigits(f[i..k]) && !IsDigit(At(f, k))
    ensures SkipDigits(f, i) == k
    decreases k - i
  {
    if i == k {
    } else {
      assert f[i] == f[i..k][0] && f[i..k][1..] == f[i + 1..k];
      DigitsAreSkipped(f, i + 1, k);
    }
  }

  lemma ModStep(x: nat, d: nat, m: nat)
    requires m > 0
    ensures (x % m * 10 + d) % m == (x * 10 + d) % m
  {
    var r := x % m;
    var q := (r * 10 + d) / m;
    assert x == x / m * m + r;
    assert r * 10 + d == q * m + (r * 10 + d) % m;
    assert x * 10 + d == (x / m * 10 + q) * m + (r * 10 + d) % m;
    ModIs(x * 10 + d, m, x / m * 10 + q, (r * 10 + d) % m);
  }

  /** The width is the decimal value of all its digits, modulo 2^32. */
  lemma {:induction false} WidthIsValue(f: string, i: nat, k: nat, s: string)
    requires i <= k <= |f| && AllDigits(f[i..k]) && !IsDigit(At(f, k))
    ensures WidthFrom(f, i, Value(s, 10) % 0x1_0000_0000) == Value(s + f[i..k], 10) % 0x1_0000_0000
    decreases k - i
  {
    if i == k {
      assert s + f[i..k] == s;
    } else {
      assert f[i] == f[i..k][0] && f[i..k][1..] == f[i + 1..k];
      assert s + f[i..k] == s + [f[i]] + f[i + 1..k];
      ValueSnoc(s, f[i], 10);
      ModStep(Value(s, 10), DigitValue(f[i]), 0x1_0000_0000);
      WidthIsValue(f, i + 1, k, s + [f[i]]);
    }
  }

  /** The parts of a directive stand at i in the format. */
  predicate StandsAt(f: string, i: nat, d: Spelled) {
    var from := if d.zero then i + 2 else i + 1;
    var k := from + |d.width|;
    && i < from <= k < |f| && f[i] == '%' && (At(f, i + 1) == '0' <==> d.zero)
    && f[from..k] == d.width && !IsDigit(At(f, k))
    && if d.size == "" then f[k] == d.conv && k + 1 == i + |Spell(d)|
       else k + 1 < |f| && f[k] == d.size[0] && f[k + 1] == d.conv && k + 2 == i + |Spell(d)|
  }

  function Flag(d: Spelled): string { if d.zero then "0" else "" }

  lemma HeadAt(f: string, i: nat, from: nat, k: nat, d: Spelled)
    requires Proper(d) && from == i + 1 + |Flag(d)| && k == from + |d.width| && k + |d.size| < |f|
    requires f[i..from] == "%" + Flag(d) && f[from..k] == d.width && f[k..k + |d.size| + 1] == d.size + [d.conv]
    ensures StandsAt(f, i, d)
  {
    assert |Spell(d)| == 1 + |Flag(d)| + |d.width| + |d.size| + 1;
    assert f[i] == f[i..from][0] && (d.zero ==> f[i + 1] == f[i..from][1]);
    assert d.width != "" ==> f[from] == f[from..k][0];
    assert f[k] == f[k..k + |d.size| + 1][0] && f[k + |d.size|] == f[k..k + |d.size| + 1][|d.size|];
  }

  lemma Inner(before: string, s: string, after: string, i: nat, j: nat)
    requires i <= j <= |s|
    ensures (before + s + after)[|before| + i..|before| + j] == s[i..j]
  {
  }

  lemma SpellParts(d: Spelled)
    ensures var s, n, k := Spell(d), 1 + |Flag(d)|, 1 + |Flag(d)| + |d.width|;
      && |s| == k + |d.size| + 1
      && s[0..n] == "%" + Flag(d) && s[n..k] == d.width && s[k..|s|] == d.size + [d.conv]
  {
  }

  lemma PartsAt(before: string, d: Spelled, after: string)
    requires Proper(d)
    ensures StandsAt(before + Spell(d) + after, |before|, d)
  {
    var s, i, n, k := Spell(d), |before|, 1 + |Flag(d)|, 1 + |Flag(d)| + |d.width|;
    SpellParts(d);
    Inner(before, s, after, 0, n);
    Inner(before, s, after, n, k);
    Inner(before, s, after, k, |s|);
    HeadAt(before + s + after, i, i + n, i + k, d);
  }

  lemma SizedAt(f: string, k: nat, d: Spelled)
    requires Proper(d) && '\0' !in f && k + |d.size| < |f|
    requires if d.size == "" then f[k] == d.conv else f[k] == d.size[0] && f[k + 1] == d.conv
    ensures Sized(f, k) == Directive(if d.size == "" then '\0' else d.size[0], d.conv, k + |d.size| + 1)
  {
    assert IsSize(f[k]) <==> d.size != "";
  }

  lemma WidthOf(f: string, from: nat, digits: string)
    requires from + |digits| <= |f| && f[from..from + |digits|] == digits
    requires AllDigits(digits) && !IsDigit(At(f, from + |digits|))
    ensures WidthFrom(f, from, 0) == Value(digits, 10) % 0x1_0000_0000
  {
    assert "" + digits == digits && Value("", 10) % 0x1_0000_0000 == 0;
    WidthIsValue(f, from, from + |digits|, "");
  }

  lemma WidthAt(f: string, i: nat, d: Spelled)
    requires Proper(d) && StandsAt(f, i, d)
    ensures PadZero(f, i) == d.zero && Width(f, i) == Value(d.width, 10) % 0x1_0000_0000
  {
    WidthOf(f, if d.zero then i + 2 else i + 1, d.width);
  }

  lemma ConversionAt(f: string, i: nat, d: Spelled)
    requires Proper(d) && '\0' !in f && StandsAt(f, i, d)
    ensures Printed(f, i) == Directive(if d.size == "" then '\0' else d.size[0], d.conv, i + |Spell(d)|)
  {
    var from := if d.zero then i + 2 else i + 1;
    var k := from + |d.width|;
    DigitsAreSkipped(f, from, k);
    SizedAt(f, k, d);
  }

  /** A directive is read as it is spelled. */
  lemma SpelledIsRead(before: string, d: Spelled, after: string)
    requires Proper(d) && '\0' !in before + Spell(d) + after
    ensures var f, i := before + Spell(d) + after, |before|;
      && i < |f| && f[i] == '%' && PadZero(f, i) == d.zero
      && Width(f, i) == Value(d.width, 10) % 0x1_0000_0000
      && Printed(f, i) == Directive(if d.size == "" then '\0' else d.size[0], d.conv, i + |Spell(d)|)
  {
    PartsAt(before, d, after);
    WidthAt(before + Spell(d) + after, |before|, d);
    ConversionAt(before + Spell(d) + after, |before|, d);
  }

  // ---------- numerals ----------

  /** A digit of the radix, in the case asked for. */
  predicate IsDigitOf(c: char, radix: nat, upper: bool) {
    '0' <= c <= '9' || (radix == 16 && if upper then 'A' <= c <= 'F' else 'a' <= c <= 'f')
  }

  /** The digits of v, without leading zeros. */
  predicate IsNumeral(s: string, v: nat, radix: nat, upper: bool) {
    && s != "" && (|s| > 1 ==> s[0] != '0')
    && (forall i :: 0 <= i < |s| ==> IsDigitOf(s[i], radix, upper))
    && Value(s, radix) == v
  }

  /** The digit table of the radix. */
  function Table(radix: nat, upper: bool): string {
    if radix == 10 then RADDEC else if upper then RADHEX_UPPER else RADHEX
  }

  lemma TableDigit(radix: nat, upper: bool, d: nat)
    requires (radix == 10 || radix == 16) && d < radix
    ensures IsDigitOf(Table(radix, upper)[d], radix, upper) && (Table(radix, upper)[d] == '0' <==> d == 0)
  {
  }

  /** Digits, the first of which is not zero unless the value is. */
  predicate Shaped(s: string, v: nat, radix: nat, upper: bool) {
    && s != "" && (v > 0 ==> s[0] != '0') && (v == 0 ==> |s| == 1)
    && forall i :: 0 <= i < |s| ==> IsDigitOf(s[i], radix, upper)
  }

  lemma ShapedSnoc(s: string, q: nat, c: char, v: nat, radix: nat, upper: bool)
    requires Shaped(s, q, radix, upper) && IsDigitOf(c, radix, upper) && q > 0 && v > 0
    ensures Shaped(s + [c], v, radix, upper)
  {
  }

  lemma QuotientPositive(v: nat, radix: nat)
    requires v >= radix > 0
    ensures v / radix > 0
  {
  }

  lemma {:induction false} NumeralShaped(v: nat, radix: nat, upper: bool)
    requires radix == 10 || radix == 16
    ensures Shaped(Numeral(v, radix, Table(radix, upper)), v, radix, upper)
    decreases v
  {
    if v < radix {
      TableDigit(radix, upper, v);
    } else {
      var q, d := v / radix, v % radix;
      QuotientSmaller(v, radix);
      QuotientPositive(v, radix);
      TableDigit(radix, upper, d);
      NumeralShaped(q, radix, upper);
      ShapedSnoc(Numeral(q, radix, Table(radix, upper)), q, Table(radix, upper)[d], v, radix, upper);
    }
  }

  lemma NumeralIs(v: nat, radix: nat, upper: bool)
    requires radix == 10 || radix == 16
    ensures IsNumeral(Numeral(v, radix, Table(radix, upper)), v, radix, upper)
  {
    NumeralReadsBack(v, radix, Table(radix, upper));
    NumeralShaped(v, radix, upper);
  }

  lemma DigitsDiffer(c: char, d: char, radix: nat, upper: bool)
    requires (radix == 10 || radix == 16) && IsDigitOf(c, radix, upper) && IsDigitOf(d, radix, upper)
    ensures DigitValue(c) < radix && (DigitValue(c) == DigitValue(d) ==> c == d) && (DigitValue(c) == 0 ==> c == '0')
  {
  }

  lemma MultiplesApart(a: nat, b: nat, radix: nat)
    requires a < b
    ensures a * radix + radix <= b * radix
  {
    assert b * radix == a * radix + (b - a) * radix && (b - a) * radix == radix + (b - a - 1) * radix;
  }

  lemma SameParts(a: nat, x: nat, b: nat, y: nat, radix: nat)
    requires x < radix && y < radix && a * radix + x == b * radix + y
    ensures a == b && x == y
  {
    var v := a * radix + x;
    ModIs(v, radix, a, x);
    ModIs(v, radix, b, y);
    if a < b {
      MultiplesApart(a, b, radix);
    } else if b < a {
      MultiplesApart(b, a, radix);
    }
  }

  lemma {:induction false} NumeralPositive(s: string, v: nat, radix: nat, upper: bool)
    requires (radix == 10 || radix == 16) && IsNumeral(s, v, radix, upper) && s[0] != '0'
    ensures v > 0
  {
    var n := |s| - 1;
    DigitsDiffer(s[n], s[n], radix, upper);
    if n == 0 {
      assert s[..0] == "";
    } else {
      NumeralPositive(s[..n], Value(s[..n], radix), radix, upper);
    }
  }

  /** There is only one numeral of a value. */
  lemma {:induction false} NumeralUnique(s: string, t: string, v: nat, radix: nat, upper: bool)
    requires (radix == 10 || radix == 16) && IsNumeral(s, v, radix, upper) && IsNumeral(t, v, radix, upper)
    ensures s == t
    decreases |s|
  {
    var m, n := |s| - 1, |t| - 1;
    DigitsDiffer(s[m], t[n], radix, upper);
    DigitsDiffer(t[n], s[m], radix, upper);
    SameParts(Value(s[..m], radix), DigitValue(s[m]), Value(t[..n], radix), DigitValue(t[n]), radix);
    if m > 0 { NumeralPositive(s[..m], Value(s[..m], radix), radix, upper); }
    if n > 0 { NumeralPositive(t[..n], Value(t[..n], radix), radix, upper); }
    if m > 0 && n > 0 {
      NumeralUnique(s[..m], t[..n], Value(s[..m], radix), radix, upper);
    }
    assert s == s[..m] + [s[m]] && t == t[..n] + [t[n]];
  }

  // ---------- what it prints ----------

  /** The text is a field: as wide as asked or as its digits and sign, with zeros behind the sign
      or blanks before it. */
  predicate IsField(text: string, digits: string, minus: bool, width: nat, zero: bool) {
    && |text| == Max(width, |digits| + One(minus))
    && var pad: nat := |text| - |digits| - One(minus);
       var sign := if minus then "-" else "";
       text == if zero then sign + seq(pad, _ => '0') + digits else seq(pad, _ => ' ') + sign + digits
  }

  ghost predicate IsNumber(text: string, v: nat, minus: bool, radix: nat, upper: bool, width: nat, zero: bool) {
    exists digits :: IsNumeral(digits, v, radix, upper) && IsField(text, digits, minus, width, zero)
  }

  predicate TakesArgument(conv: char) { conv in "duxXpcs" }

  /** What a directive is to print for a parameter of that many bits. */
  ghost predicate Prints(text: string, d: Spelled, val: int, bits: nat, strings: int -> string) {
    var width := Value(d.width, 10) % 0x1_0000_0000;
    var unsigned := val % Pow(2, bits);
    if d.conv == 'd' then IsNumber(text, if val < 0 then -val else val, val < 0, 10, false, width, d.zero)
    else if d.conv == 'u' then IsNumber(text, unsigned, false, 10, false, width, d.zero)
    else if d.conv == 'x' || d.conv == 'p' then IsNumber(text, unsigned, false, 16, false, width, d.zero)
    else if d.conv == 'X' then IsNumber(text, unsigned, false, 16, true, width, d.zero)
    else if d.conv == 'c' then text == [(val % 256) as char]
    else if d.conv == 's' then text == strings(val)
    else text == if d.conv == '%' then "%" else ""
  }

  lemma FieldIsNumber(v: nat, minus: bool, radix: nat, upper: bool, width: nat, zero: bool)
    requires radix == 10 || radix == 16
    ensures IsNumber(Field(Numeral(v, radix, Table(radix, upper)), width, minus, zero), v, minus, radix, upper, width, zero)
  {
    var digits := Numeral(v, radix, Table(radix, upper));
    NumeralIs(v, radix, upper);
    var text := Field(digits, width, minus, zero);
    var pad := Padding(digits, width, minus);
    assert Repeat('0', pad) == seq(pad, _ => '0') && Repeat(' ', pad) == seq(pad, _ => ' ');
    assert IsField(text, digits, minus, width, zero);
  }

  lemma ExpansionPrints(d: Spelled, val: int, bits: nat, strings: int -> string)
    requires TakesArgument(d.conv)
    ensures Prints(Expansion(d.conv, Value(d.width, 10) % 0x1_0000_0000, d.zero, val, bits, strings), d, val, bits, strings)
  {
    var width := Value(d.width, 10) % 0x1_0000_0000;
    var unsigned := val % Pow(2, bits);
    if d.conv == 'd' {
      FieldIsNumber(if val < 0 then -val else val, val < 0, 10, false, width, d.zero);
    } else if d.conv == 'u' {
      FieldIsNumber(unsigned, false, 10, false, width, d.zero);
    } else if d.conv == 'X' {
      FieldIsNumber(unsigned, false, 16, true, width, d.zero);
    } else if d.conv == 'x' || d.conv == 'p' {
      FieldIsNumber(unsigned, false, 16, false, width, d.zero);
    }
  }

  function Argument(d: Spelled, args: seq<int>, n: nat): int {
    if TakesArgument(d.conv) && n < |args| then args[n] else 0
  }

  /** The message from i on is what the directive prints and the message behind it. */
  ghost predicate GoesOn(f: string, i: nat, d: Spelled, args: seq<int>, n: nat, bits: nat, strings: int -> string)
    requires i <= |f| && '\0' !in f && n + |PrintedFrom(f, i)| <= |args|
  {
    var n', next := n + One(TakesArgument(d.conv)), i + |Spell(d)|;
    && next <= |f| && n' + |PrintedFrom(f, next)| <= |args|
    && exists text ::
         && Prints(text, d, Argument(d, args, n), bits, strings)
         && Render(f, i, args, n, bits, strings) == text + Render(f, next, args, n', bits, strings)
  }

  lemma RenderAt(f: string, i: nat, d: Spelled, args: seq<int>, n: nat, bits: nat, strings: int -> string)
    requires i < |f| && f[i] == '%' && '\0' !in f && n + |PrintedFrom(f, i)| <= |args|
    requires PadZero(f, i) == d.zero && Width(f, i) == Value(d.width, 10) % 0x1_0000_0000
    requires Printed(f, i).conv == d.conv && Printed(f, i).next == i + |Spell(d)|
    ensures GoesOn(f, i, d, args, n, bits, strings)
  {
    RenderDirective(f, i, args, n, bits, strings);
    assert Takes(d.conv) <==> TakesArgument(d.conv);
    var text := if TakesArgument(d.conv) then Expansion(d.conv, Width(f, i), d.zero, args[n], bits, strings)
                else if d.conv == '%' then "%" else "";
    if TakesArgument(d.conv) {
      ExpansionPrints(d, args[n], bits, strings);
    }
    assert Prints(text, d, Argument(d, args, n), bits, strings);
  }

  /** Where a directive stands, the message goes on with the one text that its spelling asks for,
      and then with what is behind it; an argument is used up exactly by d, u, x, X, p, c and s. */
  lemma DirectivePrints(before: string, d: Spelled, after: string, args: seq<int>, n: nat, bits: nat, strings: int -> string)
    requires Proper(d) && '\0' !in before + Spell(d) + after
    requires n + |PrintedFrom(before + Spell(d) + after, |before|)| <= |args|
    ensures GoesOn(before + Spell(d) + after, |before|, d, args, n, bits, strings)
  {
    SpelledIsRead(before, d, after);
    RenderAt(before + Spell(d) + after, |before|, d, args, n, bits, strings);
  }

  lemma OneField(text: string, text': string, digits: string, minus: bool, width: nat, zero: bool)
    requires IsField(text, digits, minus, width, zero) && IsField(text', digits, minus, width, zero)
    ensures text == text'
  {
  }

  lemma OneNumber(text: string, text': string, v: nat, minus: bool, radix: nat, upper: bool, width: nat, zero: bool)
    requires (radix == 10 || radix == 16)
    requires IsNumber(text, v, minus, radix, upper, width, zero) && IsNumber(text', v, minus, radix, upper, width, zero)
    ensures text == text'
  {
    var s :| IsNumeral(s, v, radix, upper) && IsField(text, s, minus, width, zero);
    var t :| IsNumeral(t, v, radix, upper) && IsField(text', t, minus, width, zero);
    NumeralUnique(s, t, v, radix, upper);
    OneField(text, text', s, minus, width, zero);
  }

  /** The spelling leaves no choice. */
  lemma PrintsOneText(text: string, text': string, d: Spelled, val: int, bits: nat, strings: int -> string)
    requires Prints(text, d, val, bits, strings) && Prints(text', d, val, bits, strings)
    ensures text == text'
  {
    var width := Value(d.width, 10) % 0x1_0000_0000;
    if d.conv == 'd' {
      OneNumber(text, text', if val < 0 then -val else val, val < 0, 10, false, width, d.zero);
    } else if d.conv in "uxpX" {
      OneNumber(text, text', val % Pow(2, bits), false, if d.conv == 'u' then 10 else 16, d.conv == 'X', width, d.zero);
    }
  }
}
