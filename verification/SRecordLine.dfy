/** The lines of an S-record file, and what a list of data records means for the memory. */
module SRecordLine {
  import opened Basics
  import opened SRecordTable
  import opened SRecordNumber

  /** A line: a data record, something to skip, or one whose fields are missing. */
  datatype Line = Record(address: nat, digits: string) | Other | Broken

  /** String#slice with an offset and a length; None stands for nil. */
  function Slice(s: string, start: nat, length: int): Option<string> {
    if start > |s| || length < 0 then None
    else if start + length <= |s| then Some(s[start..start + length])
    else Some(s[start..])
  }

  /** S1, S2 and S3 differ in the width of the address. */
  function Fields(line: string, addressBytes: nat): Line {
    var count := Slice(line, 2, 2);
    var address := Slice(line, 4, 2 * addressBytes);
    if count == None || address == None then Broken
    else
      var digits := Slice(line, 4 + 2 * addressBytes, (Hex(count.value) - addressBytes - 1) * 2);
      if digits == None then Broken else Record(Hex(address.value), digits.value)
  }

  function Parse(line: string): Line {
    if |line| < 2 then Other
    else if line[..2] == "S1" then Fields(line, 2)
    else if line[..2] == "S2" then Fields(line, 3)
    else if line[..2] == "S3" then Fields(line, 4)
    else Other
  }

  // ---------- the format, and that it is read back ----------

  const DIGITS: string := "0123456789ABCDEF"

  /** A number as that many hexadecimal digits. */
  function ToHex(v: nat, width: nat): string {
    if width == 0 then "" else ToHex(v / 16, width - 1) + [DIGITS[v % 16]]
  }

  lemma DigitReads(d: nat)
    requires d < 16
    ensures IsHex(DIGITS[d]) && DigitValue(DIGITS[d]) == d
  {
  }

  lemma DigitAppended(s: string, c: char)
    requires AllHex(s) && IsHex(c)
    ensures AllHex(s + [c]) && Digits(s + [c]) == 16 * Digits(s) + DigitValue(c)
  {
    assert (s + [c])[..|s|] == s;
  }

  lemma {:induction false} ToHexRead(v: nat, width: nat)
    requires v < Pow(16, width)
    ensures |ToHex(v, width)| == width && AllHex(ToHex(v, width)) && Digits(ToHex(v, width)) == v
  {
    if width == 0 {
    } else {
      ToHexRead(v / 16, width - 1);
      DigitReads(v % 16);
      DigitAppended(ToHex(v / 16, width - 1), DIGITS[v % 16]);
    }
  }

  lemma HexOfToHex(v: nat, width: nat)
    requires v < Pow(16, width)
    ensures |ToHex(v, width)| == width && Hex(ToHex(v, width)) == v
  {
    ToHexRead(v, width);
    HexPrefixAll(ToHex(v, width));
  }

  /** A data record as the format defines it: type, count of the bytes that follow, address,
      data, and whatever comes after (the checksum and the end of the line). */
  function Format(addressBytes: nat, address: nat, digits: string, rest: string): string
    requires 2 <= addressBytes <= 4
  {
    "S" + [DIGITS[addressBytes - 1]] + ToHex(addressBytes + |digits| / 2 + 1, 2)
    + ToHex(address, 2 * addressBytes) + digits + rest
  }

  lemma SliceMiddle(s: string, x: string, y: string, z: string)
    requires s == x + y + z
    ensures Slice(s, |x|, |y|) == Some(y)
  {
    assert s[|x|..|x| + |y|] == y;
  }

  /** A line in five parts, cut at the parts' lengths. */
  lemma FiveParts(head: string, n: string, from: string, digits: string, rest: string)
    ensures var line := head + n + from + digits + rest;
      && Slice(line, |head|, |n|) == Some(n)
      && Slice(line, |head| + |n|, |from|) == Some(from)
      && Slice(line, |head| + |n| + |from|, |digits|) == Some(digits)
  {
    var line := head + n + from + digits + rest;
    assert line == head + n + (from + digits + rest);
    assert line == (head + n) + from + (digits + rest);
    SliceMiddle(line, head, n, from + digits + rest);
    SliceMiddle(line, head + n, from, digits + rest);
    SliceMiddle(line, head + n + from, digits, rest);
  }

  lemma FieldsFound(line: string, addressBytes: nat, n: string, from: string, digits: string)
    requires |digits| % 2 == 0 && Hex(n) == addressBytes + |digits| / 2 + 1
    requires Slice(line, 2, 2) == Some(n) && Slice(line, 4, 2 * addressBytes) == Some(from)
    requires Slice(line, 4 + 2 * addressBytes, |digits|) == Some(digits)
    ensures Fields(line, addressBytes) == Record(Hex(from), digits)
  {
    assert (Hex(n) - addressBytes - 1) * 2 == |digits|;
  }

  /** The fields behind the type are read back. */
  lemma FieldsReadParts(head: string, addressBytes: nat, n: string, from: string, digits: string, rest: string)
    requires |head| == 2 && |n| == 2 && |from| == 2 * addressBytes
    requires |digits| % 2 == 0 && Hex(n) == addressBytes + |digits| / 2 + 1
    ensures Fields(head + n + from + digits + rest, addressBytes) == Record(Hex(from), digits)
  {
    FiveParts(head, n, from, digits, rest);
    FieldsFound(head + n + from + digits + rest, addressBytes, n, from, digits);
  }

  lemma CountReadsBack(count: nat)
    requires count < 256
    ensures |ToHex(count, 2)| == 2 && Hex(ToHex(count, 2)) == count
  {
    assert Pow(16, 2) == 256 by { assert Pow(16, 1) == 16; }
    HexOfToHex(count, 2);
  }

  lemma FieldsByType(line: string, addressBytes: nat)
    requires 2 <= addressBytes <= 4 && |line| >= 2 && line[0] == 'S' && line[1] == DIGITS[addressBytes - 1]
    ensures Parse(line) == Fields(line, addressBytes)
  {
    assert line[..2] == ['S', DIGITS[addressBytes - 1]];
  }

  /** Every data record that fits its count field is read back, with any of the three address widths. */
  lemma ParseReadsFormat(addressBytes: nat, address: nat, digits: string, rest: string)
    requires 2 <= addressBytes <= 4 && address < Pow(16, 2 * addressBytes)
    requires |digits| % 2 == 0 && addressBytes + |digits| / 2 + 1 < 256
    ensures Parse(Format(addressBytes, address, digits, rest)) == Record(address, digits)
  {
    var count, width := addressBytes + |digits| / 2 + 1, 2 * addressBytes;
    var line, head := Format(addressBytes, address, digits, rest), "S" + [DIGITS[addressBytes - 1]];
    CountReadsBack(count);
    HexOfToHex(address, width);
    FieldsReadParts(head, addressBytes, ToHex(count, 2), ToHex(address, width), digits, rest);
    assert line == head + ToHex(count, 2) + ToHex(address, width) + digits + rest;
    FieldsByType(line, addressBytes);
  }

  // ---------- what a list of lines means ----------

  ghost function Extended(m: imap<nat, string>, l: Line): imap<nat, string> {
    if l.Record? then Override(m, l.address, l.digits) else m
  }

  ghost function StoreOne(m: imap<nat, string>, line: string): imap<nat, string> {
    Extended(m, Parse(line))
  }

  /** Each record stored by itself, one after the other. */
  ghost function StoreEach(lines: seq<string>): imap<nat, string> {
    if lines == [] then imap[]
    else StoreOne(StoreEach(lines[..|lines| - 1]), lines[|lines| - 1])
  }

  /** Data digits come in pairs. */
  predicate WholeBytes(lines: seq<string>) {
    forall i :: 0 <= i < |lines| ==> var l := Parse(lines[i]); l.Record? ==> |l.digits| % 2 == 0
  }

  ghost predicate InRecord(line: string, a: nat) {
    var l := Parse(line);
    l.Record? && l.address <= a < l.address + Bytes(l.digits)
  }

  /** No two records have an address in common. */
  ghost predicate NoOverlap(lines: seq<string>) {
    forall i, j, a :: 0 <= i < j < |lines| && InRecord(lines[i], a) ==> !InRecord(lines[j], a)
  }

  lemma AppendAt(m: imap<nat, string>, address: nat, x: string, y: string, a: nat)
    requires |x| % 2 == 0 && |y| % 2 == 0
    ensures SameAt(Override(Override(m, address, x), address + Bytes(x), y), Override(m, address, x + y), a)
  {
    ThreeParts(x, y, "");
    assert x + y + "" == x + y;
    OverrideAt(m, address, x, a);
    OverrideAt(Override(m, address, x), address + Bytes(x), y, a);
    OverrideAt(m, address, x + y, a);
    if address <= a < address + Bytes(x + y) {
      ByteOfConcat(x, y, a - address);
    }
  }

  /** Writing a run in two parts is writing it at once. */
  lemma OverrideAppend(m: imap<nat, string>, address: nat, x: string, y: string)
    requires |x| % 2 == 0 && |y| % 2 == 0
    ensures Override(Override(m, address, x), address + Bytes(x), y) == Override(m, address, x + y)
  {
    var l, r := Override(Override(m, address, x), address + Bytes(x), y), Override(m, address, x + y);
    forall a: nat
      ensures SameAt(l, r, a)
    {
      AppendAt(m, address, x, y, a);
    }
    SameEverywhere(l, r);
  }

  lemma OverrideNothing(m: imap<nat, string>, address: nat)
    ensures Override(m, address, "") == m
  {
  }

  // ---------- which files can be loaded ----------

  /** The records that the last of the lines continue: the line that starts them, where they
      start in memory, and their digits together. */
  datatype DataRun = DataRun(first: nat, address: nat, digits: string)

  predicate Continues(r: DataRun, l: Line) {
    l.Record? && l.address == r.address + Bytes(r.digits)
  }

  function RunAfter(r: DataRun, n: nat, l: Line): DataRun {
    if !l.Record? then r
    else if Continues(r, l) then r.(digits := r.digits + l.digits)
    else DataRun(n, l.address, l.digits)
  }

  function LastRun(lines: seq<string>): (r: DataRun)
    ensures r.first <= |lines|
  {
    if lines == [] then DataRun(0, 0, "")
    else RunAfter(LastRun(lines[..|lines| - 1]), |lines| - 1, Parse(lines[|lines| - 1]))
  }

  /** A run ends where a record does not continue it, and at the end of the file. */
  predicate RunEnds(lines: seq<string>, n: nat)
    requires n <= |lines|
  {
    n == |lines| || (Parse(lines[n]).Record? && !Continues(LastRun(lines[..n]), Parse(lines[n])))
  }

  /** The last run does not cover an island of what the lines before it store. */
  ghost predicate RunFits(lines: seq<string>) {
    var r := LastRun(lines);
    !CoversIsland(StoreEach(lines[..r.first]), r.address, Bytes(r.digits))
  }

  /** No line is broken, and every run fits where it ends. */
  ghost predicate LoadableUpTo(lines: seq<string>, n: nat)
    requires n <= |lines|
  {
    && (forall i :: 0 <= i < n ==> !Parse(lines[i]).Broken?)
    && (forall i :: 0 <= i < n && RunEnds(lines, i) ==> RunFits(lines[..i]))
  }

  ghost predicate Loadable(lines: seq<string>) { LoadableUpTo(lines, |lines|) && RunFits(lines) }

  // ---------- the state of the loader ----------

  /** The pending run, written over the memory stored so far, is what the lines read so far mean. */
  ghost predicate Pending(lines: seq<string>, table: Blocks, address: nat, digits: string) {
    && Separated(table) && |digits| % 2 == 0
    && Override(Memory(table), address, digits) == StoreEach(lines)
  }

  lemma EmptyStart()
    ensures Memory(map[]) == StoreEach([]) && Pending([], map[], 0, "")
  {
    assert Memory(map[]) == imap[];
    OverrideNothing(imap[], 0);
  }

  lemma StoreEachSnoc(lines: seq<string>, line: string)
    ensures StoreEach(lines + [line]) == StoreOne(StoreEach(lines), line)
  {
    assert (lines + [line])[..|lines|] == lines;
  }

  /** Other lines change nothing. */
  lemma SkipLine(lines: seq<string>, line: string, table: Blocks, address: nat, digits: string)
    requires Pending(lines, table, address, digits) && Parse(line).Other?
    ensures Pending(lines + [line], table, address, digits)
  {
    StoreEachSnoc(lines, line);
  }

  lemma ContinuedMemory(m: imap<nat, string>, address: nat, digits: string, l: Line)
    requires l.Record? && |digits| % 2 == 0 && l.address == address + Bytes(digits) && |l.digits| % 2 == 0
    ensures Override(m, address, digits + l.digits) == Extended(Override(m, address, digits), l)
  {
    OverrideAppend(m, address, digits, l.digits);
  }

  /** A record that continues the run is appended to it. */
  lemma ContinueRun(lines: seq<string>, line: string, table: Blocks, address: nat, digits: string)
    requires Pending(lines, table, address, digits) && Parse(line).Record?
    requires Parse(line).address == address + Bytes(digits) && |Parse(line).digits| % 2 == 0
    ensures Pending(lines + [line], table, address, digits + Parse(line).digits)
  {
    ThreeParts(digits, Parse(line).digits, "");
    assert digits + Parse(line).digits + "" == digits + Parse(line).digits;
    StoreEachSnoc(lines, line);
    ContinuedMemory(Memory(table), address, digits, Parse(line));
  }

  /** Any other record starts a run, once the pending one is stored. */
  lemma NewRun(lines: seq<string>, line: string, table: Blocks, table': Blocks, address: nat, digits: string)
    requires Pending(lines, table, address, digits) && Parse(line).Record? && |Parse(line).digits| % 2 == 0
    requires Separated(table') && Memory(table') == Override(Memory(table), address, digits)
    ensures Pending(lines + [line], table', Parse(line).address, Parse(line).digits)
  {
    StoreEachSnoc(lines, line);
  }

  /** The loader has come to line n: the lines up to the pending run are stored, the run is the
      last one, and nothing has failed so far. */
  ghost predicate AtLine(lines: seq<string>, n: nat, table: Blocks, address: nat, digits: string)
    requires n <= |lines|
  {
    var r := LastRun(lines[..n]);
    && Pending(lines[..n], table, address, digits) && NonEmpty(table)
    && address == r.address && digits == r.digits
    && Memory(table) == StoreEach(lines[..r.first])
    && LoadableUpTo(lines, n)
  }

  /** The pending run can be stored exactly when it fits. */
  lemma StoringFits(lines: seq<string>, n: nat, table: Blocks, address: nat, digits: string)
    requires n <= |lines| && AtLine(lines, n, table, address, digits)
    ensures Swallows(table, address, digits) <==> !RunFits(lines[..n])
  {
    var r := LastRun(lines[..n]);
    assert lines[..n][..r.first] == lines[..r.first];
    SwallowsAreIslands(table, address, digits);
  }

  lemma LastRunNext(lines: seq<string>, n: nat)
    requires n < |lines|
    ensures LastRun(lines[..n + 1]) == RunAfter(LastRun(lines[..n]), n, Parse(lines[n]))
  {
    assert lines[..n + 1][..n] == lines[..n];
  }

  /** One line more, if it is not broken and any run that ends there fits. */
  lemma LoadableNext(lines: seq<string>, n: nat)
    requires n < |lines| && LoadableUpTo(lines, n) && !Parse(lines[n]).Broken?
    requires RunEnds(lines, n) ==> RunFits(lines[..n])
    ensures LoadableUpTo(lines, n + 1)
  {
  }

  lemma StillPending(lines: seq<string>, n: nat, table: Blocks, address: nat, digits: string)
    requires n < |lines| && Pending(lines[..n], table, address, digits) && WholeBytes(lines)
    requires var r := LastRun(lines[..n]); address == r.address && digits == r.digits
    requires Parse(lines[n]).Other? || Continues(LastRun(lines[..n]), Parse(lines[n]))
    ensures var r := LastRun(lines[..n + 1]);
      r.first == LastRun(lines[..n]).first && r.address == address && Pending(lines[..n + 1], table, address, r.digits)
  {
    assert lines[..n + 1] == lines[..n] + [lines[n]];
    LastRunNext(lines, n);
    if Parse(lines[n]).Other? {
      SkipLine(lines[..n], lines[n], table, address, digits);
    } else {
      ContinueRun(lines[..n], lines[n], table, address, digits);
    }
  }

  /** A line that leaves the table alone: it is no record, or one that continues the run. */
  lemma AtNextLine(lines: seq<string>, n: nat, table: Blocks, address: nat, digits: string)
    requires n < |lines| && AtLine(lines, n, table, address, digits) && WholeBytes(lines)
    requires Parse(lines[n]).Other? || Continues(LastRun(lines[..n]), Parse(lines[n]))
    ensures AtLine(lines, n + 1, table, address, LastRun(lines[..n + 1]).digits)
  {
    StillPending(lines, n, table, address, digits);
    LoadableNext(lines, n);
    var r := LastRun(lines[..n]);
    assert lines[..n + 1][..r.first] == lines[..n][..r.first];
  }

  /** A record that starts a run, after the pending one was stored. */
  lemma AtNextRun(lines: seq<string>, n: nat, table: Blocks, table': Blocks, address: nat, digits: string)
    requires n < |lines| && AtLine(lines, n, table, address, digits) && WholeBytes(lines)
    requires Parse(lines[n]).Record? && RunEnds(lines, n) && RunFits(lines[..n])
    requires Separated(table') && NonEmpty(table') && Memory(table') == Override(Memory(table), address, digits)
    ensures AtLine(lines, n + 1, table', Parse(lines[n]).address, Parse(lines[n]).digits)
  {
    assert lines[..n + 1] == lines[..n] + [lines[n]];
    LastRunNext(lines, n);
    LoadableNext(lines, n);
    NewRun(lines[..n], lines[n], table, table', address, digits);
  }

  // ---------- records that do not overlap ----------

  lemma {:induction false} StoredIsRecorded(lines: seq<string>, a: nat)
    requires a in StoreEach(lines)
    ensures exists i :: 0 <= i < |lines| && InRecord(lines[i], a)
  {
    var n := |lines| - 1;
    if InRecord(lines[n], a) {
      assert InRecord(lines[n], a);
    } else {
      StoredIsRecorded(lines[..n], a);
    }
  }

  lemma StillWhole(r: DataRun, n: nat, l: Line)
    requires |r.digits| % 2 == 0 && (l.Record? ==> |l.digits| % 2 == 0)
    ensures |RunAfter(r, n, l).digits| % 2 == 0
  {
    if l.Record? {
      assert |r.digits + l.digits| == |r.digits| + |l.digits|;
    }
  }

  lemma {:induction false} RunIsWhole(lines: seq<string>)
    requires WholeBytes(lines)
    ensures |LastRun(lines).digits| % 2 == 0
  {
    if lines == [] {
    } else {
      var n := |lines| - 1;
      RunIsWhole(lines[..n]);
      StillWhole(LastRun(lines[..n]), n, Parse(lines[n]));
    }
  }

  lemma {:induction false} RunIsRecorded(lines: seq<string>, a: nat)
    requires WholeBytes(lines)
    requires var r := LastRun(lines); r.address <= a < r.address + Bytes(r.digits)
    ensures |LastRun(lines).digits| % 2 == 0
    ensures exists i :: LastRun(lines).first <= i < |lines| && InRecord(lines[i], a)
  {
    var n := |lines| - 1;
    RunIsWhole(lines);
    if InRecord(lines[n], a) {
      assert InRecord(lines[n], a);
    } else {
      RunIsWhole(lines[..n]);
      assert a < LastRun(lines[..n]).address + Bytes(LastRun(lines[..n]).digits);
      RunIsRecorded(lines[..n], a);
    }
  }

  lemma NoOverlapFits(lines: seq<string>, n: nat)
    requires NoOverlap(lines) && WholeBytes(lines) && n <= |lines|
    ensures RunFits(lines[..n])
  {
    var r := LastRun(lines[..n]);
    forall b: nat, e: nat | r.address < b && e < r.address + Bytes(r.digits)
      ensures !Island(StoreEach(lines[..n][..r.first]), b, e)
    {
      if Island(StoreEach(lines[..n][..r.first]), b, e) {
        StoredIsRecorded(lines[..n][..r.first], b);
        RunIsRecorded(lines[..n], b);
      }
    }
  }

  /** Files whose records do not overlap, and are not broken, can be loaded. */
  lemma NoOverlapLoads(lines: seq<string>)
    requires NoOverlap(lines) && WholeBytes(lines) && forall i :: 0 <= i < |lines| ==> !Parse(lines[i]).Broken?
    ensures Loadable(lines)
  {
    forall n | 0 <= n <= |lines|
      ensures RunFits(lines[..n])
    {
      NoOverlapFits(lines, n);
    }
    assert lines[..|lines|] == lines;
  }
}
