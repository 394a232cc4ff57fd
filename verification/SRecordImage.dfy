/** The memory image object: its operations update the block table in place. The
    order in which the hash is traversed is left open. */
module SRecordImage {
  import opened Basics
  import opened SRecordTable
  import opened SRecordNumber
  import opened SRecordLine

  class SRecord {
    var sRecData: Blocks

    constructor ()
      ensures sRecData == map[]
    {
      sRecData := map[];
    }

    ghost predicate Valid()
      reads this
    {
      Separated(sRecData)
    }

    /** The new data starts before the block: append what the block has beyond it. */
    method TakeRight(ghost t: Blocks, ghost start: nat, ghost digits: string, ghost left: Option<nat>, ghost right: Option<nat>,
                     ghost remaining: set<nat>, ghost address: nat, data: string, endAddress: nat, block: nat)
      returns (ok: bool, data': string, ghost right': Option<nat>)
      requires Merging(t, start, digits, left, right, remaining, sRecData, address, data) && block in remaining
      requires block in sRecData && sRecData[block] == t[block] && address < block <= endAddress == start + Bytes(digits)
      modifies this
      ensures ok <==> endAddress <= End(t, block)
      ensures ok ==> Merging(t, start, digits, left, right', remaining - {block}, sRecData, address, data')
    {
      var blockData := sRecData[block];
      var offset := (endAddress - block) * 2;
      ok, data', right' := offset <= |blockData|, data, right;
      if ok {
        JoinRight(t, start, digits, left, right, remaining, sRecData, address, data, block);
        data' := data + blockData[offset..];
        sRecData := sRecData - {block};
        right' := Some(block);
      }
    }

    /** The block starts first, or at the same address: lay the new data over it. */
    method TakeLeft(ghost t: Blocks, ghost start: nat, ghost digits: string, ghost left: Option<nat>, ghost right: Option<nat>,
                    ghost remaining: set<nat>, address: nat, data: string, block: nat)
      returns (address': nat, data': string, ghost left': Option<nat>)
      requires Merging(t, start, digits, left, right, remaining, sRecData, address, data) && block in remaining
      requires block in sRecData && sRecData[block] == t[block] && block <= address <= End(t, block)
      modifies this
      ensures Merging(t, start, digits, left', right, remaining - {block}, sRecData, address', data')
    {
      JoinLeft(t, start, digits, left, right, remaining, sRecData, address, data, block);
      var blockData := sRecData[block];
      var offset := (address - block) * 2;
      assert offset == 2 * (address - block) && blockData == t[block];
      data' := Replace(blockData, offset, data);
      sRecData := sRecData - {block};
      address', left' := block, Some(block);
    }

    /** One turn of the loop: the block at `block` is passed over, or joined to the run. */
    method Visit(ghost t: Blocks, ghost start: nat, ghost digits: string, ghost left: Option<nat>, ghost right: Option<nat>,
                 ghost remaining: set<nat>, address: nat, data: string, endAddress: nat, block: nat)
      returns (ok: bool, address': nat, data': string, ghost left': Option<nat>, ghost right': Option<nat>)
      requires Merging(t, start, digits, left, right, remaining, sRecData, address, data) && block in remaining
      requires endAddress == start + Bytes(digits)
      modifies this
      ensures !ok ==> start < block && End(t, block) < endAddress && block in t
      ensures ok ==> Merging(t, start, digits, left', right', remaining - {block}, sRecData, address', data')
    {
      StillStored(t, start, digits, left, right, remaining, sRecData, address, data, block);
      ok, address', data', left', right' := true, address, data, left, right;
      var nEndBlock := block + |sRecData[block]| / 2;
      if nEndBlock < address || endAddress < block {
        PassOver(t, start, digits, left, right, remaining, sRecData, address, data, block);
      } else if address < block {
        ok, data', right' := TakeRight(t, start, digits, left, right, remaining, address, data, endAddress, block);
      } else {
        address', data', left' := TakeLeft(t, start, digits, left, right, remaining, address, data, block);
      }
    }

    /** set_data. It fails, with a nil slice, exactly when the new range runs past the end of a
        block that starts strictly inside it; otherwise the memory is overwritten and blocks
        that meet are merged, whatever the order of traversal. */
    method SetData(start: nat, digits: string) returns (ok: bool)
      requires Valid() && |digits| % 2 == 0
      modifies this
      ensures ok <==> !Swallows(old(sRecData), start, digits)
      ensures ok ==> Valid()
      ensures ok ==> Memory(sRecData) == Override(Memory(old(sRecData)), start, digits)
      ensures ok && |digits| > 0 && NonEmpty(old(sRecData)) ==> NonEmpty(sRecData)
    {
      ghost var t := sRecData;
      var address: nat, data: string := start, digits;
      var endAddress := address + |data| / 2;
      var remaining: set<nat> := sRecData.Keys;
      ghost var left: Option<nat>, right: Option<nat> := None, None;
      while remaining != {}
        invariant Merging(t, start, digits, left, right, remaining, sRecData, address, data)
        decreases remaining
      {
        var block: nat :| block in remaining;
        ok, address, data, left, right := Visit(t, start, digits, left, right, remaining, address, data, endAddress, block);
        if !ok { return; }
        remaining := remaining - {block};
      }
      Merged(t, start, digits, left, right, sRecData, address, data);
      sRecData := sRecData[address := data];
      ok := true;
    }

    /** Store the pending run, if there is one. */
    method Flush(address: nat, data: string) returns (ok: bool)
      requires Valid() && |data| % 2 == 0
      modifies this
      ensures ok <==> !Swallows(old(sRecData), address, data)
      ensures ok ==> Valid() && Memory(sRecData) == Override(Memory(old(sRecData)), address, data)
      ensures ok && NonEmpty(old(sRecData)) ==> NonEmpty(sRecData)
    {
      OverrideNothing(Memory(sRecData), address);
      ok := true;
      if |data| > 0 {
        ok := SetData(address, data);
      }
    }

    /** The part of the loop that handles a record. */
    method ReadRecord(lines: seq<string>, n: nat, prevAddress: nat, prevData: string)
      returns (ok: bool, address: nat, data: string)
      requires n < |lines| && WholeBytes(lines) && Parse(lines[n]).Record?
      requires AtLine(lines, n, sRecData, prevAddress, prevData)
      modifies this
      ensures ok ==> AtLine(lines, n + 1, sRecData, address, data)
      ensures !ok ==> RunEnds(lines, n) && !RunFits(lines[..n])
    {
      var record := Parse(lines[n]);
      LastRunNext(lines, n);
      if record.address == prevAddress + |prevData| / 2 {
        AtNextLine(lines, n, sRecData, prevAddress, prevData);
        ok, address, data := true, prevAddress, prevData + record.digits;
      } else {
        ghost var before := sRecData;
        StoringFits(lines, n, sRecData, prevAddress, prevData);
        ok := Flush(prevAddress, prevData);
        address, data := record.address, record.digits;
        if ok {
          AtNextRun(lines, n, before, sRecData, prevAddress, prevData);
        }
      }
    }

    /** initialize: consecutive records are gathered into runs, and each run is stored when the
        next record does not continue it, the last one at the end. The result is the memory that
        storing each record by itself gives. It fails exactly when a line is broken or a run
        covers an island of what is stored before it; so never for records that do not overlap. */
    method Load(lines: seq<string>) returns (ok: bool)
      requires sRecData == map[] && WholeBytes(lines)
      modifies this
      ensures ok <==> Loadable(lines)
      ensures ok ==> Valid() && Memory(sRecData) == StoreEach(lines)
    {
      var prevAddress: nat, prevData: string := 0, "";
      EmptyStart();
      assert lines[..0] == [];
      for n := 0 to |lines|
        invariant AtLine(lines, n, sRecData, prevAddress, prevData)
      {
        match Parse(lines[n])
        case Other =>
          AtNextLine(lines, n, sRecData, prevAddress, prevData);
          LastRunNext(lines, n);
        case Broken =>
          return false;
        case Record(_, _) =>
          ok, prevAddress, prevData := ReadRecord(lines, n, prevAddress, prevData);
          if !ok { return; }
      }
      assert lines[..|lines|] == lines;
      StoringFits(lines, |lines|, sRecData, prevAddress, prevData);
      ok := Flush(prevAddress, prevData);
    }

    /** get_data: it finds the range exactly when every byte of it is defined, and then
        returns those bytes. */
    method GetData(address: nat, size: nat) returns (r: Option<string>)
      requires Valid()
      ensures size > 0 ==> (r.Some? <==> DefinedRange(sRecData, address, size))
      ensures r.Some? ==> |r.value| == 2 * size && Spells(Memory(sRecData), address, r.value)
      ensures r.Some? <==> exists b :: b in sRecData && Covers(sRecData, b, address, size)
    {
      var endAddress := address + size;
      var remaining: set<nat> := sRecData.Keys;
      while remaining != {}
        invariant remaining <= sRecData.Keys
        invariant forall b :: b in sRecData && b !in remaining ==> !Covers(sRecData, b, address, size)
        decreases remaining
      {
        var block: nat :| block in remaining;
        remaining := remaining - {block};
        var blockData := sRecData[block];
        if block <= address && endAddress <= block + |blockData| / 2 {
          var offset := (address - block) * 2;
          CoveredSpells(sRecData, block, address, size);
          CoveredDefined(sRecData, block, address, size);
          assert offset == 2 * (address - block);
          var data := blockData[offset..offset + 2 * size];
          assert data == Cut(sRecData[block], address - block, size);
          return Some(data);
        }
      }
      NothingCovers(sRecData, address, size);
      r := None;
    }

    /** The loop that takes two digits at a time off the end. */
    method ReverseBytes(digits: string) returns (reverseData: string)
      requires |digits| % 2 == 0
      ensures reverseData == Reversed(digits)
    {
      var targetData := digits;
      reverseData := "";
      while |targetData| > 0
        invariant |targetData| % 2 == 0
        invariant Reversed(digits) == reverseData + Reversed(targetData)
      {
        var front, last := targetData[..|targetData| - 2], targetData[|targetData| - 2..];
        assert targetData == front + last;
        ReversedSnoc(front, last);
        assert reverseData + (last + Reversed(front)) == reverseData + last + Reversed(front);
        reverseData := reverseData + last;
        targetData := front;
      }
    }

    /** get_value: the bytes of a defined range as a number, in the byte order of the target;
        a signed number lies in the signed range and is congruent to the unsigned one. */
    method GetValue(address: nat, size: nat, signed: bool, endianLittle: bool)
      returns (r: Option<int>, ghost d: string)
      requires Valid()
      ensures size > 0 ==> (r.Some? <==> DefinedRange(sRecData, address, size))
      ensures r.Some? ==> |d| == 2 * size && Spells(Memory(sRecData), address, d)
      ensures r.Some? && AllHex(d) ==>
                IsNumber(r.value, if endianLittle then LittleSum(ByteValues(d)) else BigSum(ByteValues(d)), size, signed)
    {
      var found := GetData(address, size);
      if found == None { return None, ""; }
      var targetData := found.value;
      d := targetData;
      var returnData;
      if endianLittle {
        var reverseData := ReverseBytes(targetData);
        returnData := Hex(reverseData);
      } else {
        returnData := Hex(targetData);
      }
      var v: int := returnData;
      if signed && size > 0 && SignBit(returnData, size) {
        v := v - Pow(256, size);
      }
      if AllHex(targetData) {
        if endianLittle { LittleNumber(targetData); } else { BigNumber(targetData); }
        if size > 0 { SignedRange(returnData, size); }
      }
      r := Some(v);
    }
  }

  /** r is the number v of size bytes, read as signed or unsigned. */
  predicate IsNumber(r: int, v: nat, size: nat, signed: bool) {
    if !signed || size == 0 then r == v
    else
      var half: int := Pow(2, 8 * size - 1);
      -half <= r < half && (r == v || r == v - 2 * half)
  }

  lemma LittleNumber(d: string)
    requires |d| % 2 == 0 && AllHex(d)
    ensures Hex(Reversed(d)) == LittleSum(ByteValues(d)) < Pow(256, |d| / 2)
  {
    ReversedLength(d);
    HexPrefixAll(Reversed(d));
    DigitsBound(Reversed(d));
    var n := |d| / 2;
    assert |d| == 2 * n;
    PowSixteen(n);
    ReversedIsLittleSum(d);
  }

  lemma BigNumber(d: string)
    requires |d| % 2 == 0 && AllHex(d)
    ensures Hex(d) == BigSum(ByteValues(d)) < Pow(256, |d| / 2)
  {
    HexPrefixAll(d);
    DigitsBound(d);
    var n := |d| / 2;
    assert |d| == 2 * n;
    PowSixteen(n);
    DigitsAreBigSum(d);
  }

  /** The state of the traversal: the neighbours met so far are out of the table and joined
      to the run; no other block met so far touches the new range. */
  ghost predicate Merging(t: Blocks, start: nat, digits: string, left: Option<nat>, right: Option<nat>,
                          remaining: set<nat>, table: Blocks, address: nat, data: string)
  {
    && Separated(t) && |digits| % 2 == 0
    && remaining <= t.Keys
    && Neighbours(t, start, digits, left, right)
    && (forall b :: b in t && b !in remaining && Touches(t, b, start, digits) ==> left == Some(b) || right == Some(b))
    && (left.Some? ==> left.value !in remaining) && (right.Some? ==> right.value !in remaining)
    && table == Removed(t, left, right)
    && address == Start(start, left) && data == Joined(t, start, digits, left, right)
  }

  /** String#[]= with an offset and a length: the digits from the offset on give way to the
      new ones, as far as there are any. */
  function Replace(s: string, offset: nat, x: string): string
    requires offset <= |s|
  {
    s[..offset] + x + (if offset + |x| <= |s| then s[offset + |x|..] else "")
  }

  /** A block still to be met is stored as it was; one that starts after the run starts after the range. */
  lemma StillStored(t: Blocks, start: nat, digits: string, left: Option<nat>, right: Option<nat>,
                    remaining: set<nat>, table: Blocks, address: nat, data: string, b: nat)
    requires Merging(t, start, digits, left, right, remaining, table, address, data) && b in remaining
    ensures b in t && b in table && table[b] == t[b] && |t[b]| % 2 == 0
    ensures address < b && End(t, b) >= address ==> start < b
  {
  }

  lemma PassOver(t: Blocks, start: nat, digits: string, left: Option<nat>, right: Option<nat>,
                 remaining: set<nat>, table: Blocks, address: nat, data: string, b: nat)
    requires Merging(t, start, digits, left, right, remaining, table, address, data) && b in remaining
    requires End(t, b) < address || start + Bytes(digits) < b
    ensures Merging(t, start, digits, left, right, remaining - {b}, table, address, data)
  {
  }

  lemma RightDigits(t: Blocks, start: nat, digits: string, left: Option<nat>, b: nat)
    requires Neighbours(t, start, digits, left, None) && Neighbours(t, start, digits, left, Some(b))
    requires left.Some? ==> End(t, left.value) < b
    ensures Joined(t, start, digits, left, Some(b))
         == Joined(t, start, digits, left, None) + t[b][2 * (start + Bytes(digits) - b)..]
  {
  }

  lemma LeftDigits(t: Blocks, start: nat, digits: string, right: Option<nat>, b: nat)
    requires Neighbours(t, start, digits, None, right) && Neighbours(t, start, digits, Some(b), right)
    requires |digits| % 2 == 0 && |t[b]| % 2 == 0 && (right.Some? ==> End(t, b) < right.value)
    ensures Joined(t, start, digits, Some(b), right)
         == Replace(t[b], 2 * (start - b), Joined(t, start, digits, None, right))
  {
    var d, j := t[b], Joined(t, start, digits, None, right);
    var end := start + Bytes(digits);
    var offset := 2 * (start - b);
    assert offset + |digits| == 2 * (end - b) && (end < End(t, b) <==> 2 * (end - b) < |d|);
    if right.Some? {
      assert j == digits + t[right.value][2 * (end - right.value)..];
      assert offset + |j| > |d|;
    } else {
      assert j == digits;
      assert offset + |j| == |d| ==> d[offset + |j|..] == "";
    }
  }

  lemma OnlyOneRight(t: Blocks, start: nat, digits: string, left: Option<nat>, right: Option<nat>, b: nat)
    requires Separated(t) && Neighbours(t, start, digits, left, right)
    requires b in t && left != Some(b) && right != Some(b)
    requires Start(start, left) < b <= start + Bytes(digits) <= End(t, b)
    ensures right == None && Neighbours(t, start, digits, left, Some(b)) && (left.Some? ==> End(t, left.value) < b)
  {
  }

  /** A block that starts after the run becomes its right neighbour; there was none before. */
  lemma JoinRight(t: Blocks, start: nat, digits: string, left: Option<nat>, right: Option<nat>,
                  remaining: set<nat>, table: Blocks, address: nat, data: string, b: nat)
    requires Merging(t, start, digits, left, right, remaining, table, address, data) && b in remaining
    requires address < b <= start + Bytes(digits) <= End(t, b)
    ensures Merging(t, start, digits, left, Some(b), remaining - {b}, table - {b}, address,
                    data + t[b][2 * (start + Bytes(digits) - b)..])
  {
    OnlyOneRight(t, start, digits, left, right, b);
    RightDigits(t, start, digits, left, b);
  }

  lemma OnlyOneLeft(t: Blocks, start: nat, digits: string, left: Option<nat>, right: Option<nat>, b: nat)
    requires Separated(t) && Neighbours(t, start, digits, left, right)
    requires b in t && left != Some(b) && right != Some(b) && b <= Start(start, left) <= End(t, b)
    ensures left == None && Neighbours(t, start, digits, Some(b), right) && (right.Some? ==> End(t, b) < right.value)
  {
  }

  /** A block that starts at or before the run becomes its left neighbour; there was none before. */
  lemma JoinLeft(t: Blocks, start: nat, digits: string, left: Option<nat>, right: Option<nat>,
                 remaining: set<nat>, table: Blocks, address: nat, data: string, b: nat)
    requires Merging(t, start, digits, left, right, remaining, table, address, data) && b in remaining
    requires b <= address <= End(t, b)
    ensures 2 * (address - b) <= |t[b]|
    ensures Merging(t, start, digits, Some(b), right, remaining - {b}, table - {b}, b,
                    Replace(t[b], 2 * (address - b), data))
  {
    OnlyOneLeft(t, start, digits, left, right, b);
    LeftDigits(t, start, digits, right, b);
  }

  /** At the end of the traversal no block was swallowed, and storing the run completes the table. */
  lemma Merged(t: Blocks, start: nat, digits: string, left: Option<nat>, right: Option<nat>,
               table: Blocks, address: nat, data: string)
    requires Merging(t, start, digits, left, right, {}, table, address, data)
    ensures !Swallows(t, start, digits) && Separated(table[address := data])
    ensures |digits| > 0 && NonEmpty(t) ==> NonEmpty(table[address := data])
    ensures Memory(table[address := data]) == Override(Memory(t), start, digits)
  {
    assert AllNeighbours(t, start, digits, left, right);
    JoinSeparates(t, start, digits, left, right);
    JoinOverrides(t, start, digits, left, right);
  }
}
