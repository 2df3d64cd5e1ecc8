/** FRU record tables in memory: appending a record, and the one-pass filter over source and destination cursors. */
module FruTables {
  import opened Bytes
  import opened Fru
  import opened Wrappers

  datatype EncodeResult = Success(currSize: nat) | InvalidData | InvalidLength

  /** `table` and `currSize` may be absent (null pointers); so may `tlvs`, while `tlvsSize` is still given. */
  method EncodeFruRecord(table: array?<byte>, totalSize: nat, currSize: Option<nat>, setId: u16, recordType: byte,
                         fieldCount: byte, encoding: byte, tlvs: Option<seq<byte>>, tlvsSize: nat)
    returns (r: EncodeResult)
    requires table != null ==> totalSize <= table.Length
    requires tlvs.Some? ==> |tlvs.value| == tlvsSize
    modifies table
    ensures r.InvalidData? <==> table == null || currSize.None? || tlvsSize == 0
    ensures r.InvalidLength? <==>
              table != null && currSize.Some? && tlvsSize != 0 && currSize.value + 5 + tlvsSize != totalSize
    ensures r.Success? ==> r.currSize == currSize.value + 5 + (if tlvs.Some? then tlvsSize else 0) <= table.Length
    ensures r.Success? ==>
              table[..r.currSize] == old(table[..currSize.value]) + HeaderBytes(setId, recordType, fieldCount, encoding)
                                     + (if tlvs.Some? then tlvs.value else [])
    ensures table != null ==>
              table[if r.Success? then r.currSize else 0..] == old(table[if r.Success? then r.currSize else 0..])
  {
    if table == null || currSize.None? || tlvsSize == 0 {
      return InvalidData;
    }
    if currSize.value + RECORD_HEADER_SIZE + tlvsSize != totalSize {
      return InvalidLength;
    }
    var at := PutAt(table, currSize.value, HeaderBytes(setId, recordType, fieldCount, encoding));
    if tlvs.Some? {
      label written:
      assert old@written(table[at..])[tlvsSize..] == old@written(table[at + tlvsSize..]);
      at := PutAt(table, at, tlvs.value);
    }
    r := Success(at);
  }

  /** Appending the encoding of one more record to the bytes of a table gives the bytes of the longer table. */
  lemma {:induction false} AppendRecord(rs: seq<FruRecord>, r: FruRecord)
    requires AllFit(rs) && Fits(r)
    ensures AllFit(rs + [r])
    ensures TableBytes(rs + [r]) ==
            TableBytes(rs) + HeaderBytes(r.setId, r.ty, |r.fields|, r.encoding) + FieldsBytes(r.fields)
  {
    if rs == [] {
      assert rs + [r] == [r] && [r][1..] == [];
      assert RecordBytes(r) + [] == RecordBytes(r) == [] + RecordBytes(r);
    } else {
      AppendRecord(rs[1..], r);
      assert (rs + [r])[1..] == rs[1..] + [r];
    }
  }

  // ----- the filter -----

  /** The bytes and the number of those of the first `n` fields of `s` that the filter keeps, and what follows them. */
  ghost function KeptBytes(s: seq<byte>, n: nat, fieldType: byte): seq<byte> {
    match ParseFields(s, n)
    case None => []
    case Some((fs, _)) => FieldsBytes(FilterFields(fs, fieldType))
  }

  ghost function KeptCount(s: seq<byte>, n: nat, fieldType: byte): (k: nat)
    ensures k <= n
  {
    match ParseFields(s, n)
    case None => 0
    case Some((fs, _)) => |FilterFields(fs, fieldType)|
  }

  ghost function AfterFields(s: seq<byte>, n: nat): (rest: seq<byte>)
    ensures |rest| <= |s| && rest == s[|s| - |rest|..]
  {
    match ParseFields(s, n)
    case None => s
    case Some((_, rest)) => rest
  }

  ghost predicate Parses(s: seq<byte>, n: nat) {
    ParseFields(s, n).Some?
  }

  lemma NoneKept(s: seq<byte>, fieldType: byte)
    ensures Parses(s, 0) && KeptBytes(s, 0, fieldType) == [] && KeptCount(s, 0, fieldType) == 0
    ensures AfterFields(s, 0) == s
  {
  }

  lemma KeptStep(s: seq<byte>, n: nat, fieldType: byte)
    requires n > 0 && Parses(s, n)
    ensures 2 <= |s| && 2 + s[1] as int <= |s| && Parses(s[2 + s[1] as int..], n - 1)
    ensures AfterFields(s, n) == AfterFields(s[2 + s[1] as int..], n - 1)
    ensures KeptBytes(s, n, fieldType) ==
            (if s[0] == fieldType || fieldType == 0 then s[..2 + s[1] as int] else [])
            + KeptBytes(s[2 + s[1] as int..], n - 1, fieldType)
    ensures KeptCount(s, n, fieldType) ==
            (if s[0] == fieldType || fieldType == 0 then 1 else 0) + KeptCount(s[2 + s[1] as int..], n - 1, fieldType)
  {
    hide ParseFields, FieldsBytes, FilterFields;
    UnfoldFields(s, n);
    var k := 2 + s[1] as int;
    var fs := ParseFields(s[k..], n - 1).value.0;
    var f := Field(s[0], s[2..k]);
    FilterFieldsCons(f, fs, fieldType);
    FieldsCons(f, FilterFields(fs, fieldType));
    assert FieldBytes(f) == s[..k];
    Associates([], [], KeptBytes(s[k..], n - 1, fieldType));
  }

  lemma DropDrop(s: seq<byte>, a: nat, b: nat)
    requires a + b <= |s|
    ensures s[a..][b..] == s[a + b..]
  {
  }

  lemma SkipStep(table: seq<byte>, at: nat, left: nat)
    requires at <= |table| && left > 0 && Parses(table[at..], left)
    ensures at + 2 <= |table| && at + 2 + table[at + 1] as int <= |table|
    ensures Parses(table[at + 2 + table[at + 1] as int..], left - 1)
    ensures AfterFields(table[at..], left) == AfterFields(table[at + 2 + table[at + 1] as int..], left - 1)
  {
    hide ParseFields, Parses, AfterFields, KeptBytes, KeptCount;
    KeptStep(table[at..], left, 0);
    DropDrop(table, at, 2 + table[at + 1] as int);
  }

  method SkipFields(table: seq<byte>, at: nat, count: nat) returns (end: nat)
    requires at <= |table| && Parses(table[at..], count)
    ensures at <= end <= |table| && table[end..] == AfterFields(table[at..], count)
  {
    hide ParseFields, Parses, AfterFields, KeptBytes, KeptCount;
    end := at;
    var i := 0;
    while i < count
      invariant 0 <= i <= count && at <= end <= |table|
      invariant Parses(table[end..], count - i)
      invariant AfterFields(table[end..], count - i) == AfterFields(table[at..], count)
    {
      SkipStep(table, end, count - i);
      end := end + 2 + table[end + 1] as int;
      i := i + 1;
    }
    NoneKept(table[end..], 0);
  }

  /** With `left` fields still to read at `at`, the bytes and the count so far lead to the goal: bytes, count, what
      follows. */
  ghost predicate Copying(done: seq<byte>, kept: nat, table: seq<byte>, at: nat, left: nat, fieldType: byte,
                          goal: (seq<byte>, nat, seq<byte>)) {
    && at <= |table| && Parses(table[at..], left)
    && goal.0 == done + KeptBytes(table[at..], left, fieldType)
    && goal.1 == kept + KeptCount(table[at..], left, fieldType)
    && goal.2 == AfterFields(table[at..], left)
  }

  lemma CopyStep(done: seq<byte>, kept: nat, table: seq<byte>, at: nat, left: nat, fieldType: byte,
                 goal: (seq<byte>, nat, seq<byte>))
    requires left > 0 && Copying(done, kept, table, at, left, fieldType, goal)
    ensures at + 2 <= |table| && at + 2 + table[at + 1] as int <= |table|
    ensures var end := at + 2 + table[at + 1] as int;
            if table[at] == fieldType || fieldType == 0
            then |done| + (end - at) <= |goal.0|
                 && Copying(done + table[at..end], kept + 1, table, end, left - 1, fieldType, goal)
            else Copying(done, kept, table, end, left - 1, fieldType, goal)
  {
    hide ParseFields, Parses, AfterFields, KeptBytes, KeptCount;
    KeptStep(table[at..], left, fieldType);
    var len := 2 + table[at + 1] as int;
    DropDrop(table, at, len);
    assert table[at..][..len] == table[at..at + len];
    Associates(done, table[at..at + len], KeptBytes(table[at + len..], left - 1, fieldType));
    Associates(done, [], KeptBytes(table[at + len..], left - 1, fieldType));
    Associates([], done, []);
  }

  method CopyFields(table: seq<byte>, at: nat, count: nat, fieldType: byte, buffer: array<byte>, pos: nat, size: nat)
    returns (end: nat, next: nat, kept: nat)
    requires at <= |table| && Parses(table[at..], count)
    requires pos + |KeptBytes(table[at..], count, fieldType)| < size <= buffer.Length
    modifies buffer
    ensures at <= end <= |table| && table[end..] == AfterFields(table[at..], count)
    ensures kept == KeptCount(table[at..], count, fieldType)
    ensures next <= buffer.Length && buffer[..next] == old(buffer[..pos]) + KeptBytes(table[at..], count, fieldType)
    ensures buffer[next..] == old(buffer[next..])
  {
    hide ParseFields, Parses, AfterFields, KeptBytes, KeptCount, Copying;
    ghost var goal := (buffer[..pos] + KeptBytes(table[at..], count, fieldType),
                       KeptCount(table[at..], count, fieldType),
                       AfterFields(table[at..], count));
    end, next, kept := at, pos, 0;
    StartCopying(buffer[..pos], table, at, count, fieldType);
    var i := 0;
    while i < count
      invariant 0 <= i <= count && at <= end <= |table| && pos <= next <= buffer.Length
      invariant Copying(buffer[..next], kept, table, end, count - i, fieldType, goal)
      invariant buffer[next..] == old(buffer[next..])
    {
      CopyStep(buffer[..next], kept, table, end, count - i, fieldType, goal);
      var len := 2 + table[end + 1] as int;
      if table[end] == fieldType || fieldType == 0 {
        DropDrop(old(buffer[..]), next, len);
        next := PutAt(buffer, next, table[end..end + len]);
        kept := kept + 1;
      }
      end := end + len;
      i := i + 1;
    }
    StopCopying(buffer[..next], kept, table, end, fieldType, goal);
  }

  lemma StartCopying(done: seq<byte>, table: seq<byte>, at: nat, left: nat, fieldType: byte)
    requires at <= |table| && Parses(table[at..], left)
    ensures Copying(done, 0, table, at, left, fieldType,
                    (done + KeptBytes(table[at..], left, fieldType), KeptCount(table[at..], left, fieldType),
                     AfterFields(table[at..], left)))
  {
  }

  lemma StopCopying(done: seq<byte>, kept: nat, table: seq<byte>, at: nat, fieldType: byte,
                    goal: (seq<byte>, nat, seq<byte>))
    requires Copying(done, kept, table, at, 0, fieldType, goal)
    ensures at <= |table| && goal == (done, kept, table[at..])
  {
    NoneKept(table[at..], fieldType);
    Associates([], done, []);
  }

  ghost function FilteredRecord(s: seq<byte>, o: Selection): seq<byte>
    requires RECORD_HEADER_SIZE <= |s| && Parses(s[RECORD_HEADER_SIZE..], s[3] as nat)
  {
    var fields := s[RECORD_HEADER_SIZE..];
    s[..3] + [KeptCount(fields, s[3] as nat, o.fieldType), s[4]] + KeptBytes(fields, s[3] as nat, o.fieldType)
  }

  lemma FilteredStep(s: seq<byte>, o: Selection)
    requires WellFormed(s) && s != []
    ensures RECORD_HEADER_SIZE <= |s| && Parses(s[RECORD_HEADER_SIZE..], s[3] as nat)
    ensures var rest := AfterFields(s[RECORD_HEADER_SIZE..], s[3] as nat);
            var selected := (o.setId == 0 || Le16At(s, 0) == o.setId) && (o.recordType == 0 || s[2] == o.recordType);
            && WellFormed(rest) && Filtered(s, o) == (if selected then FilteredRecord(s, o) else []) + Filtered(rest, o)
  {
    hide ParseTable, ParseFields, TableBytes, FieldsBytes, Le16At, AllFit, FilterTable, FilterFields;
    ParseStep(s);
    var (fs, rest) := ParseFields(s[RECORD_HEADER_SIZE..], s[3] as nat).value;
    var rs := ParseTable(rest).value;
    var r := FruRecord(Le16At(s, 0), s[2], s[4], fs);
    FilterCons(r, rs, o);
    if Selected(r, o) {
      TableCons(FilterRecord(r, o), FilterTable(rs, o));
      KeptHeader(s, r.fields, o);
    } else {
      assert [] + TableBytes(FilterTable(rs, o)) == TableBytes(FilterTable(rs, o));
    }
  }

  lemma KeptHeader(s: seq<byte>, fs: seq<Field>, o: Selection)
    requires RECORD_HEADER_SIZE <= |s| && Parses(s[RECORD_HEADER_SIZE..], s[3] as nat)
    requires fs == ParseFields(s[RECORD_HEADER_SIZE..], s[3] as nat).value.0
    ensures RecordBytes(FilterRecord(FruRecord(Le16At(s, 0), s[2], s[4], fs), o)) == FilteredRecord(s, o)
  {
    hide ParseFields, FieldsBytes, FilterFields;
    var count: byte := KeptCount(s[RECORD_HEADER_SIZE..], s[3] as nat, o.fieldType);
    assert HeaderBytes(Le16At(s, 0), s[2], count, s[4]) == s[..3] + [count, s[4]];
  }

  lemma NothingFiltered(o: Selection)
    ensures WellFormed([]) && Filtered([], o) == []
  {
  }

  method CopyRecord(table: seq<byte>, src: nat, recordTable: array<byte>, pos: nat, recordSize: nat, o: Selection)
    returns (end: nat, next: nat)
    requires src + 5 <= |table| && Parses(table[src..][5..], table[src..][3] as nat)
    requires pos + |FilteredRecord(table[src..], o)| < recordSize <= recordTable.Length
    modifies recordTable
    ensures src + 5 <= end <= |table| && table[end..] == AfterFields(table[src..][5..], table[src..][3] as nat)
    ensures next <= recordTable.Length
    ensures recordTable[..next] == old(recordTable[..pos]) + FilteredRecord(table[src..], o)
    ensures recordTable[next..] == old(recordTable[next..])
  {
    hide ParseFields, Parses, AfterFields, KeptBytes, KeptCount;
    DropDrop(table, src, 5);
    DropDrop(recordTable[..], pos, 5);
    next := PutAt(recordTable, pos, table[src..src + 5]);
    var kept;
    end, next, kept := CopyFields(table, src + 5, table[src + 3] as nat, o.fieldType, recordTable, next, recordSize);
    recordTable[pos + 3] := kept;
  }

  /** The filter: it reads the table once and never holds a parsed record. The buffer must be strictly larger than the
      result unless nothing is selected, which is what the original's assertions ask. */
  method GetFruRecordByOption(table: seq<byte>, recordTable: array<byte>, recordSize: nat, o: Selection)
    returns (newSize: nat)
    requires WellFormed(table) && recordSize <= recordTable.Length
    requires Filtered(table, o) != [] ==> |Filtered(table, o)| < recordSize
    modifies recordTable
    ensures newSize <= recordTable.Length && recordTable[..newSize] == Filtered(table, o)
    ensures recordTable[newSize..] == old(recordTable[newSize..])
  {
    hide ParseTable, ParseFields, AfterFields, WellFormed, Filtered, KeptBytes, KeptCount, Le16At;
    var src, pos := 0, 0;
    assert table[0..] == table && recordTable[..0] + Filtered(table, o) == Filtered(table, o);
    while src != |table|
      invariant 0 <= src <= |table| && WellFormed(table[src..]) && 0 <= pos <= recordTable.Length
      invariant recordTable[..pos] + Filtered(table[src..], o) == Filtered(table, o)
      invariant recordTable[pos..] == old(recordTable[pos..])
      decreases |table| - src
    {
      ghost var here := table[src..];
      FilteredStep(here, o);
      SameLe16(table, src);
      DropDrop(table, src, 5);
      if (Le16At(table, src) != o.setId && o.setId != 0) || (table[src + 2] != o.recordType && o.recordType != 0) {
        src := SkipFields(table, src + 5, table[src + 3] as nat);
        Associates([], [], Filtered(table[src..], o));
      } else {
        ghost var record, rest := FilteredRecord(here, o), AfterFields(here[5..], here[3] as nat);
        Associates(recordTable[..pos], record, Filtered(rest, o));
        src, pos := CopyRecord(table, src, recordTable, pos, recordSize, o);
      }
    }
    NothingFiltered(o);
    assert table[src..] == [] && recordTable[..pos] + [] == recordTable[..pos];
    newSize := pos;
  }

  lemma SameLe16(table: seq<byte>, src: nat)
    requires src + 2 <= |table|
    ensures Le16At(table, src) == Le16At(table[src..], 0)
  {
  }
}
