/** FRU record tables: their bytes, parsing, filtering by option, and building a table record by record. */
module Fru {
  import opened Bytes
  import opened Wrappers

  const RECORD_HEADER_SIZE := 5

  datatype Field = Field(ty: byte, value: seq<byte>)

  datatype FruRecord = FruRecord(setId: u16, ty: byte, encoding: byte, fields: seq<Field>)

  /** The option of a request; 0 stands for any. */
  datatype Selection = Selection(setId: u16, recordType: byte, fieldType: byte)

  predicate Fits(r: FruRecord) {
    |r.fields| <= 0xFF && forall i | 0 <= i < |r.fields| :: |r.fields[i].value| <= 0xFF
  }

  predicate AllFit(rs: seq<FruRecord>) {
    forall i | 0 <= i < |rs| :: Fits(rs[i])
  }

  function FieldBytes(f: Field): (s: seq<byte>)
    requires |f.value| <= 0xFF
    ensures |s| == 2 + |f.value|
  {
    [f.ty, |f.value|] + f.value
  }

  function FieldsBytes(fs: seq<Field>): seq<byte>
    requires forall i | 0 <= i < |fs| :: |fs[i].value| <= 0xFF
  {
    if fs == [] then [] else FieldBytes(fs[0]) + FieldsBytes(fs[1..])
  }

  function HeaderBytes(setId: u16, ty: byte, count: byte, encoding: byte): (s: seq<byte>)
    ensures |s| == RECORD_HEADER_SIZE
  {
    Le16(setId) + [ty, count, encoding]
  }

  function RecordBytes(r: FruRecord): seq<byte>
    requires Fits(r)
  {
    HeaderBytes(r.setId, r.ty, |r.fields|, r.encoding) + FieldsBytes(r.fields)
  }

  function TableBytes(rs: seq<FruRecord>): seq<byte>
    requires AllFit(rs)
  {
    if rs == [] then [] else RecordBytes(rs[0]) + TableBytes(rs[1..])
  }

  // ----- parsing -----

  /** `n` fields from the front of `s`, and what is left. */
  function ParseFields(s: seq<byte>, n: nat): (p: Option<(seq<Field>, seq<byte>)>)
    ensures p.Some? ==>
              && |p.value.0| == n && |p.value.1| <= |s|
              && p.value.1 == s[|s| - |p.value.1|..]
              && forall i | 0 <= i < n :: |p.value.0[i].value| <= 0xFF
    decreases n
  {
    if n == 0 then Some(([], s))
    else if |s| < 2 || |s| < 2 + s[1] as int then None
    else
      match ParseFields(s[2 + s[1] as int..], n - 1)
      case None => None
      case Some((fs, rest)) => Some(([Field(s[0], s[2..2 + s[1] as int])] + fs, rest))
  }

  function ParseTable(s: seq<byte>): (p: Option<seq<FruRecord>>)
    ensures p.Some? ==> AllFit(p.value)
    decreases |s|
  {
    if s == [] then Some([])
    else if |s| < RECORD_HEADER_SIZE then None
    else
      match ParseFields(s[RECORD_HEADER_SIZE..], s[3] as nat)
      case None => None
      case Some((fs, rest)) =>
        match ParseTable(rest)
        case None => None
        case Some(rs) => Some([FruRecord(Le16At(s, 0), s[2], s[4], fs)] + rs)
  }

  predicate WellFormed(s: seq<byte>) {
    ParseTable(s).Some?
  }

  lemma ParseFirst(f: Field, tail: seq<byte>, n: nat)
    requires |f.value| <= 0xFF && n > 0 && ParseFields(tail, n - 1).Some?
    ensures ParseFields(FieldBytes(f) + tail, n) ==
            Some(([f] + ParseFields(tail, n - 1).value.0, ParseFields(tail, n - 1).value.1))
  {
    var s := FieldBytes(f) + tail;
    assert s[2 + |f.value|..] == tail && s[2..2 + |f.value|] == f.value;
  }

  lemma {:induction false} FieldsRoundTrip(fs: seq<Field>, rest: seq<byte>)
    requires forall i | 0 <= i < |fs| :: |fs[i].value| <= 0xFF
    ensures ParseFields(FieldsBytes(fs) + rest, |fs|) == Some((fs, rest))
  {
    hide ParseFields, FieldsBytes, FieldBytes;
    if fs == [] {
      NoFields(rest);
    } else {
      FieldsRoundTrip(fs[1..], rest);
      ParseFirst(fs[0], FieldsBytes(fs[1..]) + rest, |fs|);
      FieldsCons(fs[0], fs[1..]);
      assert [fs[0]] + fs[1..] == fs;
      assert FieldBytes(fs[0]) + (FieldsBytes(fs[1..]) + rest) == FieldBytes(fs[0]) + FieldsBytes(fs[1..]) + rest;
    }
  }

  lemma HeaderFields(setId: u16, ty: byte, count: byte, encoding: byte, tail: seq<byte>)
    ensures var s := HeaderBytes(setId, ty, count, encoding) + tail;
            && Le16At(s, 0) == setId && s[2] == ty && s[3] == count && s[4] == encoding
            && s[RECORD_HEADER_SIZE..] == tail
  {
    var s := HeaderBytes(setId, ty, count, encoding) + tail;
    assert s[0..2] == Le16(setId);
    Le16RoundTrip(s, 0, setId);
  }

  /** One step of parsing, read in either direction. */
  lemma ParseStep(s: seq<byte>)
    requires s != []
    ensures ParseTable(s).Some? ==> RECORD_HEADER_SIZE <= |s| && ParseFields(s[RECORD_HEADER_SIZE..], s[3] as nat).Some?
    ensures RECORD_HEADER_SIZE <= |s| && ParseFields(s[RECORD_HEADER_SIZE..], s[3] as nat).Some? ==>
              var (fs, rest) := ParseFields(s[RECORD_HEADER_SIZE..], s[3] as nat).value;
              && |rest| < |s|
              && (ParseTable(s).Some? <==> ParseTable(rest).Some?)
              && (ParseTable(s).Some? ==>
                    ParseTable(s).value == [FruRecord(Le16At(s, 0), s[2], s[4], fs)] + ParseTable(rest).value)
  {
  }

  lemma TableCons(r: FruRecord, rs: seq<FruRecord>)
    requires Fits(r) && AllFit(rs)
    ensures AllFit([r] + rs) && TableBytes([r] + rs) == RecordBytes(r) + TableBytes(rs)
  {
    assert ([r] + rs)[1..] == rs;
  }

  /** A table's bytes parse back to the table. */
  lemma {:induction false} ParseOfBytes(rs: seq<FruRecord>)
    requires AllFit(rs)
    ensures ParseTable(TableBytes(rs)) == Some(rs)
  {
    if rs != [] {
      ParseOfBytes(rs[1..]);
      ParseOfCons(rs[0], rs[1..]);
      assert [rs[0]] + rs[1..] == rs;
    }
  }

  lemma ParseOfCons(r: FruRecord, rs: seq<FruRecord>)
    requires Fits(r) && AllFit(rs) && ParseTable(TableBytes(rs)) == Some(rs)
    ensures AllFit([r] + rs) && ParseTable(TableBytes([r] + rs)) == Some([r] + rs)
  {
    hide ParseTable, ParseFields, TableBytes, FieldsBytes, HeaderBytes, Le16At, AllFit;
    TableCons(r, rs);
    var s := TableBytes([r] + rs);
    var tail := FieldsBytes(r.fields) + TableBytes(rs);
    assert s == HeaderBytes(r.setId, r.ty, |r.fields|, r.encoding) + tail;
    HeaderFields(r.setId, r.ty, |r.fields|, r.encoding, tail);
    FieldsRoundTrip(r.fields, TableBytes(rs));
    ParseStep(s);
  }

  lemma UnfoldFields(s: seq<byte>, n: nat)
    requires n > 0 && ParseFields(s, n).Some?
    ensures 2 <= |s| && 2 + s[1] as int <= |s|
    ensures var k := 2 + s[1] as int;
            && ParseFields(s[k..], n - 1).Some?
            && ParseFields(s, n).value ==
               ([Field(s[0], s[2..k])] + ParseFields(s[k..], n - 1).value.0, ParseFields(s[k..], n - 1).value.1)
  {
  }

  lemma FieldsCons(f: Field, fs: seq<Field>)
    requires |f.value| <= 0xFF && forall i | 0 <= i < |fs| :: |fs[i].value| <= 0xFF
    ensures forall i | 0 <= i < |[f] + fs| :: |([f] + fs)[i].value| <= 0xFF
    ensures FieldsBytes([f] + fs) == FieldBytes(f) + FieldsBytes(fs)
  {
    assert ([f] + fs)[1..] == fs;
  }

  lemma {:induction false} FieldsOfParse(s: seq<byte>, n: nat)
    requires ParseFields(s, n).Some?
    ensures FieldsBytes(ParseFields(s, n).value.0) + ParseFields(s, n).value.1 == s
    decreases n
  {
    hide ParseFields, FieldsBytes, FieldBytes;
    if n == 0 {
      NoFields(s);
    } else {
      UnfoldFields(s, n);
      var k := 2 + s[1] as int;
      FieldsOfParse(s[k..], n - 1);
      var (fs, rest) := ParseFields(s[k..], n - 1).value;
      FieldsCons(Field(s[0], s[2..k]), fs);
      FirstField(s, FieldsBytes(fs), rest);
    }
  }

  lemma NoFields(s: seq<byte>)
    ensures ParseFields(s, 0) == Some(([], s)) && FieldsBytes([]) == [] && FieldsBytes([]) + s == s
  {
  }

  lemma FirstField(s: seq<byte>, mid: seq<byte>, rest: seq<byte>)
    requires 2 <= |s| && 2 + s[1] as int <= |s| && mid + rest == s[2 + s[1] as int..]
    ensures FieldBytes(Field(s[0], s[2..2 + s[1] as int])) + mid + rest == s
  {
    var k := 2 + s[1] as int;
    assert FieldBytes(Field(s[0], s[2..k])) == s[..k];
    assert s[..k] + mid + rest == s[..k] + (mid + rest);
  }

  /** What parses is the bytes of the table it parses to; so a table has one parse. */
  lemma {:induction false} BytesOfParse(s: seq<byte>)
    requires WellFormed(s)
    ensures TableBytes(ParseTable(s).value) == s
    decreases |s|
  {
    hide ParseTable, ParseFields, TableBytes, FieldsBytes, HeaderBytes, Le16At, AllFit;
    if s == [] {
      EmptyTable();
    } else {
      ParseStep(s);
      var (fs, rest) := ParseFields(s[RECORD_HEADER_SIZE..], s[3] as nat).value;
      BytesOfParse(rest);
      FieldsOfParse(s[RECORD_HEADER_SIZE..], s[3] as nat);
      TableCons(FruRecord(Le16At(s, 0), s[2], s[4], fs), ParseTable(rest).value);
      RecordOf(s, fs, rest);
    }
  }

  lemma RecordOf(s: seq<byte>, fs: seq<Field>, rest: seq<byte>)
    requires RECORD_HEADER_SIZE <= |s| && |fs| == s[3] && Fits(FruRecord(Le16At(s, 0), s[2], s[4], fs))
    requires FieldsBytes(fs) + rest == s[RECORD_HEADER_SIZE..]
    ensures RecordBytes(FruRecord(Le16At(s, 0), s[2], s[4], fs)) + rest == s
  {
    hide FieldsBytes;
    assert HeaderBytes(Le16At(s, 0), s[2], s[3], s[4]) == s[..RECORD_HEADER_SIZE];
    assert s[..RECORD_HEADER_SIZE] + FieldsBytes(fs) + rest == s[..RECORD_HEADER_SIZE] + (FieldsBytes(fs) + rest);
  }

  lemma EmptyTable()
    ensures ParseTable([]) == Some([]) && AllFit([]) && TableBytes([]) == []
  {
  }

  // ----- filtering -----

  predicate Selected(r: FruRecord, o: Selection) {
    (o.setId == 0 || r.setId == o.setId) && (o.recordType == 0 || r.ty == o.recordType)
  }

  function FilterFields(fs: seq<Field>, fieldType: byte): (gs: seq<Field>)
    ensures |gs| <= |fs|
    ensures (forall i | 0 <= i < |fs| :: |fs[i].value| <= 0xFF) ==> forall i | 0 <= i < |gs| :: |gs[i].value| <= 0xFF
  {
    if fs == [] then []
    else (if fs[0].ty == fieldType || fieldType == 0 then [fs[0]] else []) + FilterFields(fs[1..], fieldType)
  }

  function FilterRecord(r: FruRecord, o: Selection): FruRecord {
    r.(fields := FilterFields(r.fields, o.fieldType))
  }

  function FilterTable(rs: seq<FruRecord>, o: Selection): (ts: seq<FruRecord>)
    ensures AllFit(rs) ==> AllFit(ts)
  {
    if rs == [] then []
    else (if Selected(rs[0], o) then [FilterRecord(rs[0], o)] else []) + FilterTable(rs[1..], o)
  }

  /** What filtering a well-formed table by an option yields, as bytes. */
  function Filtered(s: seq<byte>, o: Selection): seq<byte>
    requires WellFormed(s)
  {
    TableBytes(FilterTable(ParseTable(s).value, o))
  }

  const ANY := Selection(0, 0, 0)

  lemma FilterFieldsCons(f: Field, fs: seq<Field>, fieldType: byte)
    ensures FilterFields([f] + fs, fieldType) ==
            (if f.ty == fieldType || fieldType == 0 then [f] + FilterFields(fs, fieldType)
             else FilterFields(fs, fieldType))
    ensures FilterFields([], fieldType) == []
  {
    assert ([f] + fs)[1..] == fs;
  }

  lemma {:induction false} FilterFieldsAgain(fs: seq<Field>, a: byte)
    ensures FilterFields(fs, 0) == fs
    ensures FilterFields(FilterFields(fs, a), a) == FilterFields(fs, a)
  {
    hide FilterFields;
    if fs == [] {
      FilterFieldsCons(Field(0, []), [], a);
      FilterFieldsCons(Field(0, []), [], 0);
    } else {
      FilterFieldsAgain(fs[1..], a);
      FilterFieldsCons(fs[0], fs[1..], 0);
      FilterFieldsCons(fs[0], fs[1..], a);
      FilterFieldsCons(fs[0], FilterFields(fs[1..], a), a);
      assert [fs[0]] + fs[1..] == fs;
    }
  }

  lemma FilterCons(r: FruRecord, rest: seq<FruRecord>, o: Selection)
    ensures FilterTable([r] + rest, o) ==
            if Selected(r, o) then [FilterRecord(r, o)] + FilterTable(rest, o) else FilterTable(rest, o)
    ensures FilterTable([], o) == []
  {
    assert ([r] + rest)[1..] == rest;
  }

  lemma {:induction false} FilterTableLaws(rs: seq<FruRecord>, o: Selection)
    ensures FilterTable(rs, ANY) == rs
    ensures FilterTable(FilterTable(rs, o), o) == FilterTable(rs, o)
    ensures FilterTable(FilterTable(rs, Selection(o.setId, 0, 0)), Selection(0, o.recordType, o.fieldType)) ==
            FilterTable(rs, o)
  {
    hide FilterTable, FilterFields;
    var bySet, byRest := Selection(o.setId, 0, 0), Selection(0, o.recordType, o.fieldType);
    if rs == [] {
      var r := FruRecord(0, 0, 0, []);
      FilterCons(r, [], ANY);
      FilterCons(r, [], o);
      FilterCons(r, [], bySet);
      FilterCons(r, [], byRest);
    } else {
      var r := rs[0];
      assert [r] + rs[1..] == rs;
      FilterTableLaws(rs[1..], o);
      FilterFieldsAgain(r.fields, o.fieldType);
      FilterCons(r, rs[1..], ANY);
      FilterCons(r, rs[1..], o);
      FilterCons(FilterRecord(r, o), FilterTable(rs[1..], o), o);
      FilterCons(r, rs[1..], bySet);
      assert FilterRecord(r, bySet) == r && FilterRecord(r, ANY) == r;
      FilterCons(r, FilterTable(rs[1..], bySet), byRest);
    }
  }

  /** Filtering with only wildcards changes nothing. */
  lemma AnyIsIdentity(s: seq<byte>)
    requires WellFormed(s)
    ensures Filtered(s, ANY) == s
  {
    FilterTableLaws(ParseTable(s).value, ANY);
    BytesOfParse(s);
  }

  /** The result is well formed again, and filtering it by the same option changes nothing more. */
  lemma FilterIsIdempotent(s: seq<byte>, o: Selection)
    requires WellFormed(s)
    ensures WellFormed(Filtered(s, o)) && Filtered(Filtered(s, o), o) == Filtered(s, o)
  {
    var rs := ParseTable(s).value;
    ParseOfBytes(FilterTable(rs, o));
    FilterTableLaws(rs, o);
  }

  /** Filtering by set id first and by the rest afterwards is filtering by all at once. */
  lemma FilterInStages(s: seq<byte>, o: Selection)
    requires WellFormed(s)
    ensures var first := Filtered(s, Selection(o.setId, 0, 0));
            WellFormed(first) && Filtered(first, Selection(0, o.recordType, o.fieldType)) == Filtered(s, o)
  {
    var rs := ParseTable(s).value;
    ParseOfBytes(FilterTable(rs, Selection(o.setId, 0, 0)));
    FilterTableLaws(rs, o);
  }

  // ----- what a filter keeps, by position -----

  predicate FieldWanted(f: Field, fieldType: byte) {
    fieldType == 0 || f.ty == fieldType
  }

  predicate RecordWanted(r: FruRecord, o: Selection) {
    (o.setId == 0 || o.setId == r.setId) && (o.recordType == 0 || o.recordType == r.ty)
  }

  function WantedFields(fs: seq<Field>, fieldType: byte): nat {
    if fs == [] then 0
    else WantedFields(fs[..|fs| - 1], fieldType) + if FieldWanted(fs[|fs| - 1], fieldType) then 1 else 0
  }

  function WantedRecords(rs: seq<FruRecord>, o: Selection): nat {
    if rs == [] then 0
    else WantedRecords(rs[..|rs| - 1], o) + if RecordWanted(rs[|rs| - 1], o) then 1 else 0
  }

  lemma {:induction false} FilterFieldsSnoc(fs: seq<Field>, f: Field, fieldType: byte)
    ensures FilterFields(fs + [f], fieldType) ==
            FilterFields(fs, fieldType) + if FieldWanted(f, fieldType) then [f] else []
  {
    hide FilterFields;
    FilterFieldsCons(f, [], fieldType);
    if fs == [] {
      assert fs + [f] == [f] + [];
    } else {
      FilterFieldsSnoc(fs[1..], f, fieldType);
      FilterFieldsCons(fs[0], fs[1..], fieldType);
      FilterFieldsCons(fs[0], fs[1..] + [f], fieldType);
      assert [fs[0]] + fs[1..] == fs && [fs[0]] + (fs[1..] + [f]) == fs + [f];
    }
  }

  /** The wanted fields, each at its rank among them, and nothing else. */
  lemma {:induction false} FieldsKept(fs: seq<Field>, fieldType: byte, i: nat)
    ensures |FilterFields(fs, fieldType)| == WantedFields(fs, fieldType)
    ensures i < |fs| && FieldWanted(fs[i], fieldType) ==>
              var rank := WantedFields(fs[..i], fieldType);
              rank < WantedFields(fs, fieldType) && FilterFields(fs, fieldType)[rank] == fs[i]
  {
    hide FilterFields;
    if fs == [] {
      FilterFieldsCons(Field(0, []), [], fieldType);
    } else {
      var k := |fs| - 1;
      FieldsKept(fs[..k], fieldType, i);
      FilterFieldsSnoc(fs[..k], fs[k], fieldType);
      assert fs[..k] + [fs[k]] == fs;
      if i < k {
        assert fs[..k][..i] == fs[..i];
      }
    }
  }

  lemma {:induction false} FilterTableSnoc(rs: seq<FruRecord>, r: FruRecord, o: Selection)
    ensures FilterTable(rs + [r], o) ==
            FilterTable(rs, o) + if RecordWanted(r, o) then [FilterRecord(r, o)] else []
  {
    hide FilterTable, FilterRecord;
    FilterCons(r, [], o);
    if rs == [] {
      assert rs + [r] == [r] + [];
    } else {
      FilterTableSnoc(rs[1..], r, o);
      FilterCons(rs[0], rs[1..], o);
      FilterCons(rs[0], rs[1..] + [r], o);
      assert [rs[0]] + rs[1..] == rs && [rs[0]] + (rs[1..] + [r]) == rs + [r];
    }
  }

  /** The wanted records, each at its rank among them with its header and its wanted fields, and nothing else. */
  lemma {:induction false} RecordsKept(rs: seq<FruRecord>, o: Selection, i: nat, j: nat)
    ensures |FilterTable(rs, o)| == WantedRecords(rs, o)
    ensures i < |rs| && RecordWanted(rs[i], o) ==>
              var rank := WantedRecords(rs[..i], o);
              && rank < WantedRecords(rs, o)
              && var r, t := rs[i], FilterTable(rs, o)[rank];
                 && t.setId == r.setId && t.ty == r.ty && t.encoding == r.encoding
                 && |t.fields| == WantedFields(r.fields, o.fieldType)
                 && (j < |r.fields| && FieldWanted(r.fields[j], o.fieldType) ==>
                       var place := WantedFields(r.fields[..j], o.fieldType);
                       place < |t.fields| && t.fields[place] == r.fields[j])
  {
    hide FilterTable, FilterFields, FieldWanted, RecordWanted, WantedFields;
    if rs == [] {
      FilterCons(FruRecord(0, 0, 0, []), [], o);
    } else {
      var k := |rs| - 1;
      RecordsKept(rs[..k], o, i, j);
      FilterTableSnoc(rs[..k], rs[k], o);
      assert rs[..k] + [rs[k]] == rs;
      if i < k {
        assert rs[..k][..i] == rs[..i];
      } else if i == k {
        FieldsKept(rs[k].fields, o.fieldType, j);
      }
    }
  }
}
