/** Log messages: one function scans the format to collect the arguments when the
    message is logged, another scans it again, much later, to print them. A
    format is a C string: position |f| holds the terminator. */
module LogFormat {
  import opened Basics
  import opened LogConvert

  const NUL: char := '\0'
  const TNUM_LOGPAR: nat := 6

  function At(f: string, i: nat): char
    requires i <= |f|
  {
    if i < |f| then f[i] else NUL
  }

  predicate IsDigit(c: char) { '0' <= c <= '9' }
  predicate IsSize(c: char) { c == 'l' || c == 't' || c == 'T' }

  /** The first position from i on that holds no digit. */
  function SkipDigits(f: string, i: nat): (k: nat)
    requires i <= |f|
    ensures i <= k <= |f|
    decreases |f| - i
  {
    if IsDigit(At(f, i)) then SkipDigits(f, i + 1) else i
  }

  /** The field width the digits from i on spell, in unsigned 32-bit arithmetic. */
  function WidthFrom(f: string, i: nat, width: nat): nat
    requires i <= |f|
    decreases |f| - i
  {
    if IsDigit(At(f, i)) then WidthFrom(f, i + 1, (width * 10 + DigitValue(f[i])) % UINT_MODULUS) else width
  }

  /** Where scanning goes on behind a conversion: not beyond the terminator. */
  function Behind(f: string, k: nat): (n: nat)
    requires k <= |f|
    ensures k <= n <= |f|
  {
    if At(f, k) == NUL then k else k + 1
  }

  // ---------- the two scanners ----------

  /** A directive: the position of its size letter or conversion, the conversion, where it ends. */
  datatype Directive = Directive(size: char, conv: char, next: nat)

  function Sized(f: string, j: nat): Directive
    requires j <= |f| && '\0' !in f
  {
    if IsSize(At(f, j)) then Directive(f[j], At(f, j + 1), Behind(f, j + 1))
    else Directive(NUL, At(f, j), Behind(f, j))
  }

  /** The directive at i as tt_syslog scans it: digits of any kind, a size letter, a conversion. */
  function Collected(f: string, i: nat): Directive
    requires i < |f| && '\0' !in f
  {
    Sized(f, SkipDigits(f, i + 1))
  }

  /** The directive at i as syslog_printf scans it: a zero by itself comes first. */
  function Printed(f: string, i: nat): Directive
    requires i < |f| && '\0' !in f
  {
    Sized(f, SkipDigits(f, if At(f, i + 1) == '0' then i + 2 else i + 1))
  }

  predicate PadZero(f: string, i: nat)
    requires i < |f|
  {
    At(f, i + 1) == '0'
  }

  function Width(f: string, i: nat): nat
    requires i < |f|
  {
    WidthFrom(f, if PadZero(f, i) then i + 2 else i + 1, 0)
  }

  /** Both scanners see the same conversion, size and end, whatever the flags, even where the
      format ends inside the directive. */
  lemma ScannersAgree(f: string, i: nat)
    requires i < |f| && '\0' !in f
    ensures Collected(f, i) == Printed(f, i) && i < Printed(f, i).next <= |f|
  {
    if At(f, i + 1) == '0' {
      assert SkipDigits(f, i + 1) == SkipDigits(f, i + 2);
    }
  }

  /** The conversions that tt_syslog stores an argument for. */
  predicate Stores(c: char) { c == 'd' || c == 'u' || c == 'x' || c == 'X' || c == 'p' || c == 'c' || c == 's' }

  /** The conversions that syslog_printf takes an argument for. */
  predicate Takes(c: char) {
    match c
    case 'd' => true
    case 'u' => true
    case 'x' => true
    case 'p' => true
    case 'X' => true
    case 'c' => true
    case 's' => true
    case _ => false
  }

  /** The directives with an argument, in order, as tt_syslog meets them. */
  function CollectedFrom(f: string, i: nat): seq<(nat, Directive)>
    requires i <= |f| && '\0' !in f
    decreases |f| - i
  {
    if i == |f| then []
    else if f[i] != '%' then CollectedFrom(f, i + 1)
    else
      ScannersAgree(f, i);
      var d := Collected(f, i);
      (if Stores(d.conv) then [(i, d)] else []) + CollectedFrom(f, d.next)
  }

  /** The same, as syslog_printf meets them. */
  function PrintedFrom(f: string, i: nat): seq<(nat, Directive)>
    requires i <= |f| && '\0' !in f
    decreases |f| - i
  {
    if i == |f| then []
    else if f[i] != '%' then PrintedFrom(f, i + 1)
    else
      ScannersAgree(f, i);
      var d := Printed(f, i);
      (if Takes(d.conv) then [(i, d)] else []) + PrintedFrom(f, d.next)
  }

  /** The two scans of a format meet the same directives with arguments, at the same places. */
  lemma {:induction false} ScansAgree(f: string, i: nat)
    requires i <= |f| && '\0' !in f
    ensures CollectedFrom(f, i) == PrintedFrom(f, i)
    decreases |f| - i
  {
    if i == |f| {
    } else {
      if f[i] != '%' {
        ScansAgree(f, i + 1);
      } else {
        ScannersAgree(f, i);
        ScansAgree(f, Printed(f, i).next);
      }
    }
  }

  // ---------- collecting ----------

  /** The conversion of an argument to the signed parameter type of that many bits. */
  function ToLogPar(v: int, bits: nat): int
    requires bits > 0
  {
    var u := v % Pow(2, bits);
    if u < Pow(2, bits - 1) then u else u - Pow(2, bits)
  }

  /** A C integer type, and the widths that are up to the compiler. */
  datatype CType = CType(signed: bool, bits: nat)
  datatype Widths = Widths(intBits: nat, longBits: nat, pointerBits: nat)

  const INT32_BITS: nat := 32
  const SYSTIM_BITS: nat := 64

  predicate Positive(w: Widths) { w.intBits > 0 && w.longBits > 0 && w.pointerBits > 0 }

  /** The type by which the switch of tt_syslog fetches an argument: with T it is the unsigned
      time type, even for %d. */
  function ArgType(size: char, conv: char, w: Widths): (t: CType)
    requires Positive(w)
    ensures t.bits > 0
  {
    match conv
    case 'd' =>
      if size == 'l' then CType(true, w.longBits)
      else if size == 't' then CType(true, INT32_BITS)
      else if size == 'T' then CType(false, SYSTIM_BITS)
      else CType(true, w.intBits)
    case 'p' => CType(false, w.pointerBits)
    case 'c' => CType(true, w.intBits)
    case 's' => CType(false, w.pointerBits)
    case _ =>
      if size == 'l' then CType(false, w.longBits)
      else if size == 't' then CType(false, INT32_BITS)
      else if size == 'T' then CType(false, SYSTIM_BITS)
      else CType(false, w.intBits)
  }

  /** Signed are %c, and %d but with T; the width is that of a pointer for %p and %s, of the size
      letter for the numbers, and otherwise of an int. */
  lemma ArgTypesExactly(size: char, conv: char, w: Widths)
    requires Positive(w) && conv in "duxXpcs"
    ensures var t := ArgType(size, conv, w);
      && (t.signed <==> conv == 'c' || (conv == 'd' && size != 'T'))
      && t.bits == if conv in "ps" then w.pointerBits
                   else if conv == 'c' || size !in "ltT" then w.intBits
                   else if size == 'l' then w.longBits else if size == 't' then 32 else 64
  {
  }

  predicate InType(v: int, t: CType) {
    if t.signed then t.bits > 0 && -(Pow(2, t.bits - 1) as int) <= v < Pow(2, t.bits - 1) else 0 <= v < Pow(2, t.bits)
  }

  /** The bits of an argument read as a value of the type. */
  function Fetched(v: int, t: CType): int
    requires t.bits > 0
  {
    if t.signed then ToLogPar(v, t.bits) else v % Pow(2, t.bits)
  }

  /** What becomes of the arguments of the directives: each is fetched by its type and converted. */
  function Converted(ds: seq<(nat, Directive)>, ap: seq<int>, w: Widths, bits: nat): (r: seq<int>)
    requires Positive(w) && bits > 0 && |ds| <= |ap|
    ensures |r| == |ds|
  {
    seq(|ds|, k requires 0 <= k < |ds| => ToLogPar(Fetched(ap[k], ArgType(ds[k].1.size, ds[k].1.conv, w)), bits))
  }

  /** Whatever was passed, the value fetched is the one of the type with the same low bits. */
  lemma FetchedExactly(v: int, t: CType)
    requires t.bits > 0
    ensures InType(Fetched(v, t), t) && Fetched(v, t) % Pow(2, t.bits) == v % Pow(2, t.bits)
  {
    ToLogParFits(v, t.bits);
    if !t.signed {
      ModIs(v % Pow(2, t.bits), Pow(2, t.bits), 0, v % Pow(2, t.bits));
    }
  }

  /** An argument of the type is fetched as it is. */
  lemma FetchKeeps(v: int, t: CType)
    requires t.bits > 0 && InType(v, t)
    ensures Fetched(v, t) == v
  {
    if t.signed {
      ToLogParFits(v, t.bits);
    } else {
      ModIs(v, Pow(2, t.bits), 0, v);
    }
  }

  /** How many arguments tt_syslog stores: no more than there are parameters behind the format. */
  function StoredCount(f: string): nat
    requires '\0' !in f
  {
    var n := |CollectedFrom(f, 0)|;
    if n < TNUM_LOGPAR - 1 then n else TNUM_LOGPAR - 1
  }

  /** The directives whose arguments tt_syslog stores. */
  function StoredFor(f: string): seq<(nat, Directive)>
    requires '\0' !in f
  {
    CollectedFrom(f, 0)[..StoredCount(f)]
  }

  /** The directives still to come from position p on, when i - 1 are done. */
  ghost predicate ToCome(f: string, p: nat, i: nat)
    requires p <= |f| && '\0' !in f
  {
    1 <= i <= 1 + |CollectedFrom(f, 0)| && CollectedFrom(f, 0)[i - 1..] == CollectedFrom(f, p)
  }

  /** Handling the directive at p leaves those behind it to come. */
  lemma ComesNext(f: string, p: nat, i: nat)
    requires p < |f| && '\0' !in f && f[p] == '%' && ToCome(f, p, i)
    ensures var d := Collected(f, p);
      && p < d.next <= |f|
      && ToCome(f, d.next, if Stores(d.conv) then i + 1 else i)
      && (Stores(d.conv) ==> i - 1 < |CollectedFrom(f, 0)| && CollectedFrom(f, 0)[i - 1] == (p, d))
  {
    ScannersAgree(f, p);
    var d, ds := Collected(f, p), CollectedFrom(f, 0);
    if Stores(d.conv) {
      assert CollectedFrom(f, p) == [(p, d)] + CollectedFrom(f, d.next);
      assert ds[i - 1..][0] == (p, d);
      assert ds[i..] == ds[i - 1..][1..] == CollectedFrom(f, d.next);
    }
  }

  lemma StoredNext(f: string, i: nat, p: nat)
    requires p < |f| && '\0' !in f && 1 <= i < TNUM_LOGPAR
    requires i - 1 < |CollectedFrom(f, 0)| && CollectedFrom(f, 0)[i - 1] == (p, Collected(f, p))
    ensures i - 1 < StoredCount(f) && StoredFor(f)[..i] == StoredFor(f)[..i - 1] + [(p, Collected(f, p))]
  {
  }

  /** The directive behind the '%' at p, as tt_syslog finds it: its conversion, its size letter
      and where to go on. */
  method CollectDirective(f: string, p: nat) returns (c: char, sz: char, next: nat)
    requires p < |f| && '\0' !in f
    ensures var d := Collected(f, p); c == d.conv && sz == d.size && next == d.next
  {
    var j: nat := p + 1;
    while IsDigit(At(f, j))
      invariant p < j <= |f| && SkipDigits(f, j) == SkipDigits(f, p + 1)
      decreases |f| - j
    {
      j := j + 1;
    }
    sz := NUL;
    if IsSize(At(f, j)) {
      sz := f[j];
      j := j + 1;
    }
    c := At(f, j);
    next := if c == NUL then j else j + 1;
  }

  /** tt_syslog: the format's own address comes first, then the arguments of the first
      directives that take one, each fetched by the type of its directive and converted;
      parameters beyond them stay as they were. */
  method TtSyslog(logpar: array<int>, f: string, formatAddress: int, ap: seq<int>, w: Widths, bits: nat) returns (i: nat)
    requires logpar.Length == TNUM_LOGPAR && '\0' !in f && bits > 0 && Positive(w)
    requires |ap| >= StoredCount(f)
    modifies logpar
    ensures i == 1 + StoredCount(f)
    ensures logpar[0] == ToLogPar(formatAddress, bits)
    ensures logpar[1..i] == Converted(StoredFor(f), ap, w, bits)
    ensures forall k :: i <= k < TNUM_LOGPAR ==> logpar[k] == old(logpar[k])
  {
    logpar[0] := ToLogPar(formatAddress, bits);
    i := 1;
    var p: nat := 0;
    while p < |f| && i < TNUM_LOGPAR
      invariant p <= |f| && 1 <= i <= TNUM_LOGPAR && ToCome(f, p, i)
      invariant logpar[0] == ToLogPar(formatAddress, bits)
      invariant logpar[1..i] == Converted(StoredFor(f)[..i - 1], ap, w, bits)
      invariant forall k :: i <= k < TNUM_LOGPAR ==> logpar[k] == old(logpar[k])
      decreases |f| - p
    {
      if f[p] != '%' {
        p := p + 1;
        continue;
      }
      ComesNext(f, p, i);
      var c, sz, next := CollectDirective(f, p);
      if Stores(c) {
        StoredNext(f, i, p);
        logpar[i] := ToLogPar(Fetched(ap[i - 1], ArgType(sz, c, w)), bits);
        i := i + 1;
      }
      p := next;
    }
    assert StoredFor(f)[..i - 1] == StoredFor(f);
  }

  // ---------- printing ----------

  /** A value of the signed parameter type. */
  predicate IsLogPar(v: int, bits: nat)
    requires bits > 0
  {
    -(Pow(2, bits - 1) as int) <= v < Pow(2, bits - 1)
  }

  /** What a directive with an argument prints; `strings` is the memory that %s reads. */
  function Expansion(conv: char, width: nat, padzero: bool, val: int, bits: nat, strings: int -> string): string {
    match conv
    case 'd' => Field(Numeral(if val >= 0 then val else -val, 10, RADDEC), width, val < 0, padzero)
    case 'u' => Field(Numeral(val % Pow(2, bits), 10, RADDEC), width, false, padzero)
    case 'X' => Field(Numeral(val % Pow(2, bits), 16, RADHEX_UPPER), width, false, padzero)
    case 'c' => [(val % 256) as char]
    case 's' => strings(val)
    case _ => Field(Numeral(val % Pow(2, bits), 16, RADHEX), width, false, padzero)
  }

  /** The printed message from position i on, with n arguments used so far: text is copied, a
      directive becomes its expansion, %% a percent sign and anything else nothing. */
  function Render(f: string, i: nat, args: seq<int>, n: nat, bits: nat, strings: int -> string): string
    requires i <= |f| && '\0' !in f && n + |PrintedFrom(f, i)| <= |args|
    decreases |f| - i
  {
    if i == |f| then ""
    else if f[i] != '%' then [f[i]] + Render(f, i + 1, args, n, bits, strings)
    else
      ScannersAgree(f, i);
      var d := Printed(f, i);
      if Takes(d.conv) then
        Expansion(d.conv, Width(f, i), PadZero(f, i), args[n], bits, strings)
        + Render(f, d.next, args, n + 1, bits, strings)
      else (if d.conv == '%' then "%" else "") + Render(f, d.next, args, n, bits, strings)
  }

  lemma SignedReadsBack(val: int, width: nat, padzero: bool)
    ensures ReadField(Field(Numeral(if val >= 0 then val else -val, 10, RADDEC), width, val < 0, padzero), 10) == val
  {
    FieldReadsBack(if val >= 0 then val else -val, 10, RADDEC, width, val < 0, padzero);
  }

  lemma UnsignedReadsBack(u: nat, radix: nat, radchar: string, width: nat, padzero: bool)
    requires Digits(radix, radchar)
    ensures ReadField(Field(Numeral(u, radix, radchar), width, false, padzero), radix) == u
  {
    FieldReadsBack(u, radix, radchar, width, false, padzero);
  }

  /** Printing with %d gives a number that reads back as the value; %u and %x give the unsigned
      number of the same bits. */
  lemma ExpansionReadsBack(width: nat, padzero: bool, val: int, bits: nat, strings: int -> string)
    requires bits > 0 && IsLogPar(val, bits)
    ensures ReadField(Expansion('d', width, padzero, val, bits, strings), 10) == val
    ensures ReadField(Expansion('u', width, padzero, val, bits, strings), 10) == val % Pow(2, bits)
    ensures ReadField(Expansion('x', width, padzero, val, bits, strings), 16) == val % Pow(2, bits)
    ensures ReadField(Expansion('X', width, padzero, val, bits, strings), 16) == val % Pow(2, bits)
  {
    SignedReadsBack(val, width, padzero);
    var u := val % Pow(2, bits);
    UnsignedReadsBack(u, 10, RADDEC, width, padzero);
    UnsignedReadsBack(u, 16, RADHEX, width, padzero);
    UnsignedReadsBack(u, 16, RADHEX_UPPER, width, padzero);
  }

  /** Both the magnitude and the unsigned reading of a parameter fit its bits. */
  lemma SignedFits(val: int, bits: nat)
    requires bits > 0 && IsLogPar(val, bits)
    ensures (if val >= 0 then val else -val) < Pow(2, bits) && 0 <= val % Pow(2, bits) < Pow(2, bits)
  {
    assert Pow(2, bits) == 2 * Pow(2, bits - 1);
  }

  /** The switch of syslog_printf on a conversion that takes an argument. */
  method PutArgument(conv: char, width: nat, padzero: bool, val: int, bits: nat, strings: int -> string)
    returns (out: string)
    requires Takes(conv) && bits > 0 && IsLogPar(val, bits)
    ensures out == Expansion(conv, width, padzero, val, bits, strings)
  {
    SignedFits(val, bits);
    match conv
    case 'd' =>
      if val >= 0 {
        out := Convert(val, 10, RADDEC, width, false, padzero, bits);
      } else {
        out := Convert(-val, 10, RADDEC, width, true, padzero, bits);
      }
    case 'u' => out := Convert(val % Pow(2, bits), 10, RADDEC, width, false, padzero, bits);
    case 'X' => out := Convert(val % Pow(2, bits), 16, RADHEX_UPPER, width, false, padzero, bits);
    case 'c' => out := [(val % 256) as char];
    case 's' => out := strings(val);
    case _ => out := Convert(val % Pow(2, bits), 16, RADHEX, width, false, padzero, bits);
  }

  /** Render at an ordinary character. */
  lemma RenderText(f: string, p: nat, args: seq<int>, n: nat, bits: nat, strings: int -> string)
    requires p < |f| && f[p] != '%' && '\0' !in f && n + |PrintedFrom(f, p)| <= |args|
    ensures PrintedFrom(f, p) == PrintedFrom(f, p + 1)
    ensures Render(f, p, args, n, bits, strings) == [f[p]] + Render(f, p + 1, args, n, bits, strings)
  {
  }

  /** Render at a directive. */
  lemma RenderDirective(f: string, p: nat, args: seq<int>, n: nat, bits: nat, strings: int -> string)
    requires p < |f| && f[p] == '%' && '\0' !in f && n + |PrintedFrom(f, p)| <= |args|
    ensures var d := Printed(f, p);
      && p < d.next <= |f| && n + One(Takes(d.conv)) + |PrintedFrom(f, d.next)| <= |args|
      && Render(f, p, args, n, bits, strings) ==
           (if Takes(d.conv) then Expansion(d.conv, Width(f, p), PadZero(f, p), args[n], bits, strings)
            else if d.conv == '%' then "%" else "")
           + Render(f, d.next, args, n + One(Takes(d.conv)), bits, strings)
  {
    ScannersAgree(f, p);
  }

  /** The zero flag and the width. */
  method ScanFlags(f: string, p: nat) returns (j: nat, width: nat, padzero: bool)
    requires p < |f| && '\0' !in f
    ensures p < j <= |f| && j == SkipDigits(f, if PadZero(f, p) then p + 2 else p + 1)
    ensures width == Width(f, p) && padzero == PadZero(f, p)
  {
    j, width, padzero := p + 1, 0, false;
    if At(f, j) == '0' {
      padzero := true;
      j := j + 1;
    }
    ghost var from := j;
    while IsDigit(At(f, j))
      invariant from <= j <= |f| && SkipDigits(f, j) == SkipDigits(f, from)
      invariant WidthFrom(f, j, width) == WidthFrom(f, from, 0)
      decreases |f| - j
    {
      width := (width * 10 + DigitValue(f[j])) % UINT_MODULUS;
      j := j + 1;
    }
  }

  /** The directive behind the '%' at p, as syslog_printf finds it: its conversion, width and zero
      flag, and where to go on. */
  method PrintDirective(f: string, p: nat) returns (c: char, width: nat, padzero: bool, next: nat)
    requires p < |f| && '\0' !in f
    ensures c == Printed(f, p).conv && next == Printed(f, p).next
    ensures width == Width(f, p) && padzero == PadZero(f, p)
  {
    var j: nat;
    j, width, padzero := ScanFlags(f, p);
    if IsSize(At(f, j)) { j := j + 1; }
    c := At(f, j);
    next := if c == NUL then j else j + 1;
  }

  /** The part of the loop that handles a directive: it prints the expansion and goes on behind it. */
  method PutDirective(f: string, p: nat, args: seq<int>, n: nat, bits: nat, strings: int -> string)
    returns (text: string, p': nat, n': nat)
    requires p < |f| && f[p] == '%' && '\0' !in f && bits > 0 && n + |PrintedFrom(f, p)| <= |args|
    requires forall k :: 0 <= k < |args| ==> IsLogPar(args[k], bits)
    ensures p < p' <= |f| && n' + |PrintedFrom(f, p')| <= |args|
    ensures Render(f, p, args, n, bits, strings) == text + Render(f, p', args, n', bits, strings)
  {
    RenderDirective(f, p, args, n, bits, strings);
    var c, width, padzero;
    c, width, padzero, p' := PrintDirective(f, p);
    if Takes(c) {
      text := PutArgument(c, width, padzero, args[n], bits, strings);
      n' := n + 1;
    } else {
      text := if c == '%' then "%" else "";
      n' := n;
    }
  }

  /** One turn of the loop: a character is copied, or a directive handled. */
  method PutNext(before: string, f: string, p: nat, args: seq<int>, n: nat, bits: nat, strings: int -> string)
    returns (out: string, p': nat, n': nat)
    requires p < |f| && '\0' !in f && bits > 0 && n + |PrintedFrom(f, p)| <= |args|
    requires forall k :: 0 <= k < |args| ==> IsLogPar(args[k], bits)
    ensures p < p' <= |f| && n' + |PrintedFrom(f, p')| <= |args|
    ensures before + Render(f, p, args, n, bits, strings) == out + Render(f, p', args, n', bits, strings)
  {
    var text;
    if f[p] != '%' {
      RenderText(f, p, args, n, bits, strings);
      text, p', n' := [f[p]], p + 1, n;
    } else {
      text, p', n' := PutDirective(f, p, args, n, bits, strings);
    }
    ghost var rest := Render(f, p', args, n', bits, strings);
    assert before + (text + rest) == before + text + rest;
    out := before + text;
  }

  /** syslog_printf. It uses as many arguments as the format has directives that take one. */
  method SyslogPrintf(f: string, args: seq<int>, bits: nat, strings: int -> string) returns (out: string)
    requires '\0' !in f && bits > 0 && |PrintedFrom(f, 0)| <= |args|
    requires forall k :: 0 <= k < |args| ==> IsLogPar(args[k], bits)
    ensures out == Render(f, 0, args, 0, bits, strings)
  {
    out := "";
    var p: nat, n: nat := 0, 0;
    ghost var message := Render(f, 0, args, 0, bits, strings);
    while p < |f|
      invariant p <= |f| && n + |PrintedFrom(f, p)| <= |args|
      invariant message == out + Render(f, p, args, n, bits, strings)
      decreases |f| - p
    {
      out, p, n := PutNext(out, f, p, args, n, bits, strings);
    }
    assert out + "" == out;
  }

  // ---------- both together ----------

  /** Printing stays within the stored arguments exactly for formats with at most
      TNUM_LOGPAR - 1 directives that take one. */
  lemma PrintingStaysWithin(f: string)
    requires '\0' !in f
    ensures |PrintedFrom(f, 0)| <= StoredCount(f) <==> |CollectedFrom(f, 0)| <= TNUM_LOGPAR - 1
    ensures |CollectedFrom(f, 0)| <= TNUM_LOGPAR - 1 ==> StoredCount(f) == |PrintedFrom(f, 0)|
  {
    ScansAgree(f, 0);
  }

  lemma Multiple(k: nat, m: int)
    requires m > 0
    ensures k * m >= 0 && (k + 1) * m >= m
  {
  }

  lemma ModIs(x: int, m: int, q: int, r: int)
    requires m > 0 && x == q * m + r && 0 <= r < m
    ensures x % m == r
  {
    var k := q - x / m;
    assert k * m == x % m - r by { assert x == x / m * m + x % m; }
    if k > 0 {
      Multiple(k - 1, m);
    } else if k < 0 {
      Multiple(-k - 1, m);
    }
  }

  /** The conversion lands in the parameter's range, keeps values of that range, and keeps the
      unsigned reading of every value. */
  lemma ToLogParFits(v: int, bits: nat)
    requires bits > 0
    ensures var m := Pow(2, bits);
      && IsLogPar(ToLogPar(v, bits), bits)
      && (IsLogPar(v, bits) ==> ToLogPar(v, bits) == v)
      && ToLogPar(v, bits) % m == v % m
  {
    var m: int, h: int := Pow(2, bits), Pow(2, bits - 1);
    assert m == 2 * h;
    var u := v % m;
    if u >= h {
      ModIs(u - m, m, -1, u);
    } else {
      ModIs(u, m, 0, u);
    }
    if IsLogPar(v, bits) {
      if v < 0 { ModIs(v, m, -1, v + m); } else { ModIs(v, m, 0, v); }
    }
  }

  /** A message logged now and printed later is the rendering of the arguments it was logged
      with, each fetched by its type and converted to a parameter, for every format with at most
      TNUM_LOGPAR - 1 of them. */
  method LogThenPrint(f: string, formatAddress: int, ap: seq<int>, w: Widths, bits: nat, strings: int -> string)
    returns (out: string)
    requires '\0' !in f && bits > 0 && Positive(w)
    requires |PrintedFrom(f, 0)| <= |ap| && |PrintedFrom(f, 0)| <= TNUM_LOGPAR - 1
    ensures out == Render(f, 0, Converted(PrintedFrom(f, 0), ap, w, bits), 0, bits, strings)
  {
    PrintingStaysWithin(f);
    ScansAgree(f, 0);
    var logpar := new int[TNUM_LOGPAR];
    var i := TtSyslog(logpar, f, formatAddress, ap, w, bits);
    var stored := logpar[1..i];
    assert StoredFor(f) == PrintedFrom(f, 0);
    forall k | 0 <= k < |stored|
      ensures IsLogPar(stored[k], bits)
    {
      var d := StoredFor(f)[k].1;
      ToLogParFits(Fetched(ap[k], ArgType(d.size, d.conv, w)), bits);
    }
    out := SyslogPrintf(f, stored, bits, strings);
  }

  /** Arguments that have their types and fit a parameter arrive at the printing as they were. */
  lemma FittingArgumentsArrive(ds: seq<(nat, Directive)>, ap: seq<int>, w: Widths, bits: nat)
    requires Positive(w) && bits > 0 && |ds| <= |ap|
    requires forall k :: 0 <= k < |ds| ==>
               InType(ap[k], ArgType(ds[k].1.size, ds[k].1.conv, w)) && IsLogPar(ap[k], bits)
    ensures Converted(ds, ap, w, bits) == ap[..|ds|]
  {
    forall k | 0 <= k < |ds|
      ensures Converted(ds, ap, w, bits)[k] == ap[k]
    {
      FetchKeeps(ap[k], ArgType(ds[k].1.size, ds[k].1.conv, w));
      ToLogParFits(ap[k], bits);
    }
  }
}
