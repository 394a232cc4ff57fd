/** What a whole file means, said of its text: which lines count, and which byte of which record
    the memory holds in the end. */
module SRecordFile {
  import opened Basics
  import opened SRecordTable
  import opened SRecordNumber
  import opened SRecordLine

  // ---------- lines of other types ----------

  /** The lines that begin with S1, S2 or S3. */
  predicate IsData(line: string) {
    |line| >= 2 && line[0] == 'S' && '1' <= line[1] <= '3'
  }

  /** The width of the address, which is in the line's type. */
  function AddressBytes(line: string): nat
    requires IsData(line)
  {
    if line[1] == '1' then 2 else if line[1] == '2' then 3 else 4
  }

  lemma TypeOf(line: string)
    requires |line| >= 2
    ensures Parse(line) == if IsData(line) then Fields(line, AddressBytes(line)) else Other
  {
    assert line[..2] == [line[0], line[1]];
  }

  lemma FieldsExactly(line: string, ab: nat)
    requires |line| >= 2 && ab > 0
    ensures var from := 4 + 2 * ab;
      if |line| < from || Hex(line[2..4]) <= ab then Fields(line, ab) == Broken
      else Fields(line, ab) == Record(Hex(line[4..from]), line[from..Min(|line|, from + 2 * (Hex(line[2..4]) - ab - 1))])
  {
  }

  /** What a line is, by its text: only data lines count, of whatever case or length. One that ends
      before its data begins, or whose count does not even cover address and checksum, is
      broken; otherwise its data ends where the count says or the line does. */
  lemma ParseExactly(line: string)
    ensures Parse(line).Other? <==> !IsData(line)
    ensures IsData(line) ==>
      var ab := AddressBytes(line);
      var from := 4 + 2 * ab;
      if |line| < from || Hex(line[2..4]) <= ab then Parse(line) == Broken
      else Parse(line) == Record(Hex(line[4..from]), line[from..Min(|line|, from + 2 * (Hex(line[2..4]) - ab - 1))])
  {
    if |line| >= 2 {
      TypeOf(line);
      if IsData(line) {
        FieldsExactly(line, AddressBytes(line));
      }
    }
  }

  function DataLines(lines: seq<string>): seq<string> {
    if lines == [] then []
    else
      var n := |lines| - 1;
      DataLines(lines[..n]) + (if IsData(lines[n]) then [lines[n]] else [])
  }

  /** Two files at the same point of loading: the run is the same, so is what is stored, and
      nothing or something has failed in both. */
  ghost predicate Alike(lines: seq<string>, data: seq<string>) {
    var r, q := LastRun(lines), LastRun(data);
    && StoreEach(lines) == StoreEach(data)
    && r.address == q.address && r.digits == q.digits
    && StoreEach(lines[..r.first]) == StoreEach(data[..q.first])
    && (LoadableUpTo(lines, |lines|) <==> LoadableUpTo(data, |data|))
  }

  lemma LoadableSnoc(lines: seq<string>, line: string)
    ensures LoadableUpTo(lines + [line], |lines| + 1) <==>
      && LoadableUpTo(lines, |lines|) && !Parse(line).Broken?
      && (Parse(line).Record? && !Continues(LastRun(lines), Parse(line)) ==> RunFits(lines))
  {
    var all, n := lines + [line], |lines|;
    assert all[..n] == lines;
    forall i | 0 <= i < n
      ensures all[i] == lines[i] && all[..i] == lines[..i] && (RunEnds(all, i) <==> RunEnds(lines, i))
    {
    }
    assert all[n] == line && (RunEnds(all, n) <==> Parse(line).Record? && !Continues(LastRun(lines), Parse(line)));
  }

  lemma RunSnoc(lines: seq<string>, line: string)
    ensures LastRun(lines + [line]) == RunAfter(LastRun(lines), |lines|, Parse(line))
    ensures var r := LastRun(lines + [line]);
      (lines + [line])[..r.first] == if r.first == |lines| then lines else lines[..r.first]
  {
    assert (lines + [line])[..|lines|] == lines;
  }

  lemma AlikeSkips(lines: seq<string>, data: seq<string>, line: string)
    requires Alike(lines, data) && !IsData(line)
    ensures Alike(lines + [line], data)
  {
    ParseExactly(line);
    StoreEachSnoc(lines, line);
    LoadableSnoc(lines, line);
    RunSnoc(lines, line);
    var r := LastRun(lines);
    assert (lines + [line])[..r.first] == lines[..r.first];
  }

  /** What is stored when the last run begins. */
  lemma RunStored(lines: seq<string>, line: string)
    ensures var r, q := LastRun(lines), LastRun(lines + [line]);
      StoreEach((lines + [line])[..q.first]) ==
        if Parse(line).Record? && !Continues(r, Parse(line)) then StoreEach(lines) else StoreEach(lines[..r.first])
  {
    RunSnoc(lines, line);
    var r := LastRun(lines);
    assert (lines + [line])[..r.first] == lines[..r.first];
    assert lines[..|lines|] == lines;
  }

  lemma AlikeAdds(lines: seq<string>, data: seq<string>, line: string)
    requires Alike(lines, data)
    ensures Alike(lines + [line], data + [line])
  {
    StoreEachSnoc(lines, line);
    StoreEachSnoc(data, line);
    LoadableSnoc(lines, line);
    LoadableSnoc(data, line);
    RunSnoc(lines, line);
    RunSnoc(data, line);
    RunStored(lines, line);
    RunStored(data, line);
  }

  lemma {:induction false} DataLinesAlike(lines: seq<string>)
    ensures Alike(lines, DataLines(lines))
  {
    if lines == [] {
      assert DataLines(lines) == [];
    } else {
      var n := |lines| - 1;
      DataLinesAlike(lines[..n]);
      assert lines[..n] + [lines[n]] == lines;
      if IsData(lines[n]) {
        AlikeAdds(lines[..n], DataLines(lines[..n]), lines[n]);
      } else {
        AlikeSkips(lines[..n], DataLines(lines[..n]), lines[n]);
        assert DataLines(lines) == DataLines(lines[..n]);
      }
    }
  }

  /** Taking all lines of other types out of a file changes neither whether it is loaded nor the
      memory that it gives. */
  lemma OtherLinesDoNotMatter(lines: seq<string>)
    ensures Loadable(DataLines(lines)) <==> Loadable(lines)
    ensures StoreEach(DataLines(lines)) == StoreEach(lines)
  {
    DataLinesAlike(lines);
  }

  // ---------- the memory of a well-formed file ----------

  /** A line as it is meant: a data record, or one of another type. */
  datatype Entry =
    | Data(addressBytes: nat, address: nat, digits: string, rest: string)
    | Text(text: string)

  predicate WellFormed(e: Entry) {
    match e
    case Data(ab, address, digits, _) =>
      2 <= ab <= 4 && address < Pow(16, 2 * ab) && |digits| % 2 == 0 && ab + |digits| / 2 + 1 < 256
    case Text(text) => !IsData(text)
  }

  function LineOf(e: Entry): string
    requires WellFormed(e)
  {
    if e.Data? then Format(e.addressBytes, e.address, e.digits, e.rest) else e.text
  }

  predicate AllWellFormed(file: seq<Entry>) { forall i :: 0 <= i < |file| ==> WellFormed(file[i]) }

  function Lines(file: seq<Entry>): (lines: seq<string>)
    requires AllWellFormed(file)
  {
    seq(|file|, i requires 0 <= i < |file| => LineOf(file[i]))
  }

  predicate HoldsByte(e: Entry, a: nat) { e.Data? && e.address <= a < e.address + |e.digits| / 2 }

  /** Some entry has a byte for the address. */
  predicate Covered(file: seq<Entry>, a: nat) { exists i :: 0 <= i < |file| && HoldsByte(file[i], a) }

  /** The i-th entry is the last one with a byte for the address. */
  predicate LastFor(file: seq<Entry>, i: nat, a: nat) {
    i < |file| && HoldsByte(file[i], a) && forall j :: i < j < |file| ==> !HoldsByte(file[j], a)
  }

  lemma EntryIsRead(e: Entry)
    requires WellFormed(e)
    ensures Parse(LineOf(e)) == if e.Data? then Record(e.address, e.digits) else Other
  {
    if e.Data? {
      ParseReadsFormat(e.addressBytes, e.address, e.digits, e.rest);
    } else {
      ParseExactly(e.text);
    }
  }

  lemma LinesAreWhole(file: seq<Entry>)
    requires AllWellFormed(file)
    ensures WholeBytes(Lines(file)) && forall i :: 0 <= i < |file| ==> !Parse(Lines(file)[i]).Broken?
  {
    forall i | 0 <= i < |file|
      ensures var l := Parse(Lines(file)[i]); !l.Broken? && (l.Record? ==> |l.digits| % 2 == 0)
    {
      EntryIsRead(file[i]);
    }
  }

  /** One entry more writes its bytes over the memory. */
  lemma MemorySnoc(file: seq<Entry>, e: Entry, a: nat)
    requires AllWellFormed(file) && WellFormed(e)
    ensures AllWellFormed(file + [e])
    ensures var m, m' := StoreEach(Lines(file)), StoreEach(Lines(file + [e]));
      if HoldsByte(e, a) then
        var k := 2 * (a - e.address);
        a in m' && k + 2 <= |e.digits| && m'[a] == e.digits[k..k + 2]
      else SameAt(m, m', a)
  {
    EntryIsRead(e);
    assert Lines(file + [e]) == Lines(file) + [LineOf(e)];
    StoreEachSnoc(Lines(file), LineOf(e));
    if e.Data? {
      OverrideAt(StoreEach(Lines(file)), e.address, e.digits, a);
    }
  }

  /** The last record for an address is the last line, or the last one before it. */
  lemma LastBefore(file: seq<Entry>, a: nat)
    requires file != []
    ensures var n := |file| - 1;
      && (HoldsByte(file[n], a) ==> forall i: nat :: LastFor(file, i, a) <==> i == n)
      && (!HoldsByte(file[n], a) ==>
            && (forall i: nat :: LastFor(file, i, a) ==> i < n && LastFor(file[..n], i, a) && file[i] == file[..n][i])
            && (Covered(file, a) <==> Covered(file[..n], a)))
  {
    var n := |file| - 1;
    var before := file[..n];
    assert forall i :: 0 <= i < n ==> before[i] == file[i];
  }

  /** The two digits that a record has for an address that it covers. */
  function ByteFor(e: Entry, a: nat): string
    requires WellFormed(e) && HoldsByte(e, a)
  {
    var k := 2 * (a - e.address);
    e.digits[k..k + 2]
  }

  /** At the address the memory is what the last record for it says. */
  ghost predicate RightAt(m: imap<nat, string>, file: seq<Entry>, a: nat)
    requires AllWellFormed(file)
  {
    && (a in m <==> Covered(file, a))
    && (forall i: nat :: LastFor(file, i, a) ==> a in m && m[a] == ByteFor(file[i], a))
  }

  lemma RightNext(m: imap<nat, string>, m': imap<nat, string>, file: seq<Entry>, a: nat)
    requires AllWellFormed(file) && file != [] && RightAt(m, file[..|file| - 1], a)
    requires var e := file[|file| - 1];
      if HoldsByte(e, a) then a in m' && m'[a] == ByteFor(e, a) else SameAt(m, m', a)
    ensures RightAt(m', file, a)
  {
    LastBefore(file, a);
    forall i: nat | LastFor(file, i, a)
      ensures a in m' && m'[a] == ByteFor(file[i], a)
    {
      var n := |file| - 1;
      if !HoldsByte(file[n], a) {
        assert LastFor(file[..n], i, a);
      }
    }
  }

  /** The memory of a file of records: an address is defined exactly if some record covers it, and
      then it holds the two digits that the last record covering it has for it. */
  lemma {:induction false} FileMemory(file: seq<Entry>, a: nat)
    requires AllWellFormed(file)
    ensures RightAt(StoreEach(Lines(file)), file, a)
  {
    if file == [] {
      assert StoreEach(Lines(file)) == imap[];
    } else {
      var n := |file| - 1;
      FileMemory(file[..n], a);
      assert file[..n] + [file[n]] == file;
      MemorySnoc(file[..n], file[n], a);
      RightNext(StoreEach(Lines(file[..n])), StoreEach(Lines(file)), file, a);
    }
  }
}
