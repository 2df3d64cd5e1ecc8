/** PDR repository change events: the encoder, its precomputed size, and walking an event with the two decoders. */
module ChangeEvent {
  import opened Bytes
  import opened Wrappers

  datatype Rc = Success | InvalidData | InvalidLength

  datatype Change = Change(operation: byte, entries: seq<u32>)

  predicate AllFit(cs: seq<Change>) {
    forall i | 0 <= i < |cs| :: |cs[i].entries| <= 0xFF
  }

  // ----- the bytes of an event -----

  function EntriesBytes(es: seq<u32>): (s: seq<byte>)
    ensures |s| == 4 * |es|
  {
    if es == [] then [] else Le32(es[0]) + EntriesBytes(es[1..])
  }

  function ChangeBytes(c: Change): (s: seq<byte>)
    requires |c.entries| <= 0xFF
    ensures |s| == 2 + 4 * |c.entries|
  {
    [c.operation, |c.entries|] + EntriesBytes(c.entries)
  }

  function ChangesBytes(cs: seq<Change>): seq<byte>
    requires AllFit(cs)
  {
    if cs == [] then [] else ChangeBytes(cs[0]) + ChangesBytes(cs[1..])
  }

  function EventBytes(format: byte, cs: seq<Change>): (s: seq<byte>)
    requires AllFit(cs) && |cs| <= 0xFF
    ensures |s| == 2 + |ChangesBytes(cs)|
  {
    [format, |cs|] + ChangesBytes(cs)
  }

  lemma FirstChange(cs: seq<Change>)
    requires AllFit(cs)
    ensures cs != [] ==> AllFit(cs[1..]) && ChangesBytes(cs) == ChangeBytes(cs[0]) + ChangesBytes(cs[1..])
    ensures cs == [] ==> ChangesBytes(cs) == []
  {
  }

  lemma FirstEntry(es: seq<u32>)
    ensures es != [] ==> EntriesBytes(es) == Le32(es[0]) + EntriesBytes(es[1..])
    ensures es == [] ==> EntriesBytes(es) == []
  {
  }

  lemma DropFirst<T>(s: seq<T>, i: nat)
    requires i < |s|
    ensures s[i..] != [] && s[i..][0] == s[i] && s[i..][1..] == s[i + 1..]
  {
  }

  // ----- the encoder -----

  /** The caller's three parallel arrays describe these changes. */
  ghost predicate Describes(operations: seq<byte>, counts: seq<byte>, entries: seq<seq<u32>>, cs: seq<Change>) {
    && |operations| >= |cs| && |counts| >= |cs| && |entries| >= |cs|
    && forall i | 0 <= i < |cs| ::
         operations[i] == cs[i].operation && counts[i] as nat == |cs[i].entries| && cs[i].entries <= entries[i]
  }

  lemma DescribesAt(operations: seq<byte>, counts: seq<byte>, entries: seq<seq<u32>>, cs: seq<Change>, i: nat)
    requires Describes(operations, counts, entries, cs) && i < |cs|
    ensures AllFit(cs) && AllFit(cs[i..]) && i < |operations| && i < |counts| && i < |entries|
    ensures operations[i] == cs[i].operation && counts[i] as nat == |cs[i].entries| && cs[i].entries <= entries[i]
  {
  }

  method ExpectedSize(count: byte, counts: seq<byte>, ghost cs: seq<Change>) returns (size: nat)
    requires |cs| == count as nat && |counts| >= |cs| && forall i | 0 <= i < |cs| :: |cs[i].entries| == counts[i] as nat
    ensures AllFit(cs) && size == 2 + |ChangesBytes(cs)|
  {
    hide ChangesBytes;
    size := 2 + count as nat + count as nat;
    var i := 0;
    assert cs[0..] == cs;
    while i < count as nat
      invariant 0 <= i <= count as nat
      invariant size + |ChangesBytes(cs[i..])| == 2 + |ChangesBytes(cs)| + 2 * (count as nat - i)
    {
      DropFirst(cs, i);
      FirstChange(cs[i..]);
      size := size + 4 * counts[i] as nat;
      i := i + 1;
    }
    FirstChange(cs[i..]);
  }

  /** One change record: its header, then its entries, with the count read back from the header. */
  method EncodeChange(buffer: array<byte>, at: nat, operation: byte, count: byte, entries: seq<u32>) returns (next: nat)
    requires |entries| >= count as nat && at + 2 + 4 * count as nat <= buffer.Length
    modifies buffer
    ensures next == at + 2 + 4 * count as nat
    ensures buffer[..next] == old(buffer[..at]) + ChangeBytes(Change(operation, entries[..count]))
    ensures buffer[next..] == old(buffer[next..])
  {
    hide EntriesBytes, Le32;
    ghost var es := entries[..count];
    ghost var start := buffer[..at] + [operation, count];
    next := PutAt(buffer, at, [operation, count]);
    var j := 0;
    assert es[0..] == es;
    while j < buffer[at + 1] as nat
      invariant 0 <= j <= count as nat && next == at + 2 + 4 * j && buffer[at + 1] == count
      invariant buffer[..next] + EntriesBytes(es[j..]) == start + EntriesBytes(es)
      invariant buffer[next..] == old(buffer[next..])
    {
      DropFirst(es, j);
      FirstEntry(es[j..]);
      Associates(buffer[..next], Le32(es[j]), EntriesBytes(es[j + 1..]));
      KeepsCount(buffer[..next], Le32(entries[j]), at + 1);
      next := PutAt(buffer, next, Le32(entries[j]));
      assert buffer[at + 1] == buffer[..next][at + 1];
      j := j + 1;
    }
    FirstEntry(es[j..]);
    Associates(buffer[..next], [], []);
    Associates(old(buffer[..at]), [operation, count], EntriesBytes(es));
  }

  lemma KeepsCount(a: seq<byte>, b: seq<byte>, k: nat)
    requires k < |a|
    ensures (a + b)[k] == a[k]
  {
  }

  /** `cs` stands for what the arrays hold; the code does not see it. Without a buffer only the size is computed. */
  method Encode(format: byte, count: byte, operations: Option<seq<byte>>, counts: Option<seq<byte>>,
                entries: Option<seq<seq<u32>>>, eventData: array?<byte>, maxSize: nat, ghost cs: seq<Change>)
    returns (rc: Rc, actualSize: Option<nat>)
    requires |cs| == count as nat && AllFit(cs)
    requires operations.Some? && counts.Some? && entries.Some? ==>
               Describes(operations.value, counts.value, entries.value, cs)
    requires eventData != null ==> maxSize <= eventData.Length
    modifies eventData
    ensures rc.InvalidData? <==> operations.None? || counts.None? || entries.None?
    ensures actualSize == if rc.InvalidData? then None else Some(|EventBytes(format, cs)|)
    ensures rc.InvalidLength? <==> !rc.InvalidData? && eventData != null && maxSize < |EventBytes(format, cs)|
    ensures rc.Success? && eventData != null ==>
              |EventBytes(format, cs)| <= eventData.Length
              && eventData[..|EventBytes(format, cs)|] == EventBytes(format, cs)
              && eventData[|EventBytes(format, cs)|..] == old(eventData[|EventBytes(format, cs)|..])
    ensures !rc.Success? && eventData != null ==> eventData[..] == old(eventData[..])
  {
    hide ChangesBytes, ChangeBytes, Describes;
    if operations.None? || counts.None? || entries.None? {
      return InvalidData, None;
    }
    CountsMatch(operations.value, counts.value, entries.value, cs);
    var expected := ExpectedSize(count, counts.value, cs);
    actualSize := Some(expected);
    if eventData == null {
      return Success, actualSize;
    }
    if maxSize < expected {
      return InvalidLength, actualSize;
    }
    rc := Success;
    var at := PutAt(eventData, 0, [format, count]);
    var i := 0;
    assert cs[0..] == cs;
    while i < count as nat
      invariant 0 <= i <= count as nat && 0 <= at && at + |ChangesBytes(cs[i..])| == expected
      invariant eventData[..at] + ChangesBytes(cs[i..]) == EventBytes(format, cs)
      invariant eventData[at..] == old(eventData[at..])
    {
      DescribesAt(operations.value, counts.value, entries.value, cs, i);
      DropFirst(cs, i);
      FirstChange(cs[i..]);
      Associates(eventData[..at], ChangeBytes(cs[i]), ChangesBytes(cs[i + 1..]));
      assert Change(operations.value[i], entries.value[i][..counts.value[i]]) == cs[i];
      at := EncodeChange(eventData, at, operations.value[i], counts.value[i], entries.value[i]);
      i := i + 1;
    }
    FirstChange(cs[i..]);
    Associates(eventData[..at], [], []);
  }

  lemma CountsMatch(operations: seq<byte>, counts: seq<byte>, entries: seq<seq<u32>>, cs: seq<Change>)
    requires Describes(operations, counts, entries, cs)
    ensures |operations| >= |cs| && |counts| >= |cs| && |entries| >= |cs|
    ensures forall i | 0 <= i < |cs| :: |cs[i].entries| == counts[i] as nat
  {
  }

  // ----- the decoders -----

  datatype Decoded = Decoded(first: byte, count: byte, offset: nat) | Failed(rc: Rc)

  /** Format, number of change records, and where the records start. */
  function DecodeEvent(eventData: Option<seq<byte>>): Decoded {
    if eventData.None? then Failed(InvalidData)
    else if |eventData.value| < 2 then Failed(InvalidLength)
    else Decoded(eventData.value[0], eventData.value[1], 2)
  }

  /** Operation, number of entries, and where the entries start. */
  function DecodeRecord(record: Option<seq<byte>>): Decoded {
    if record.None? then Failed(InvalidData)
    else if |record.value| < 2 then Failed(InvalidLength)
    else Decoded(record.value[0], record.value[1], 2)
  }

  function ReadEntries(s: seq<byte>, n: nat): (es: seq<u32>)
    requires 4 * n <= |s|
    ensures |es| == n
    decreases n
  {
    if n == 0 then [] else [Le32At(s, 0)] + ReadEntries(s[4..], n - 1)
  }

  /** The receiver's walk: each record starts where the entries of the one before end. */
  function WalkRecords(s: seq<byte>, n: nat): (cs: Option<seq<Change>>)
    ensures cs.Some? ==> |cs.value| == n && AllFit(cs.value)
    decreases n
  {
    if n == 0 then Some([])
    else
      match DecodeRecord(Some(s))
      case Failed(_) => None
      case Decoded(operation, count, offset) =>
        if |s| < offset + 4 * count as nat then None
        else
          match WalkRecords(s[offset + 4 * count as nat..], n - 1)
          case None => None
          case Some(rest) => Some([Change(operation, ReadEntries(s[offset..], count as nat))] + rest)
  }

  function Walk(s: seq<byte>): Option<(byte, seq<Change>)> {
    match DecodeEvent(Some(s))
    case Failed(_) => None
    case Decoded(format, count, offset) =>
      match WalkRecords(s[offset..], count as nat)
      case None => None
      case Some(cs) => Some((format, cs))
  }

  lemma {:induction false} EntriesRoundTrip(es: seq<u32>, rest: seq<byte>)
    ensures ReadEntries(EntriesBytes(es) + rest, |es|) == es
  {
    hide EntriesBytes, Le32, Le32At;
    if es != [] {
      FirstEntry(es);
      var s := EntriesBytes(es) + rest;
      Associates(Le32(es[0]), EntriesBytes(es[1..]), rest);
      assert s[4..] == EntriesBytes(es[1..]) + rest && s[0..4] == Le32(es[0]);
      Le32RoundTrip(s, 0, es[0]);
      EntriesRoundTrip(es[1..], rest);
    }
  }

  lemma WalkFirst(c: Change, tail: seq<byte>, n: nat)
    requires |c.entries| <= 0xFF && n > 0 && WalkRecords(tail, n - 1).Some?
    ensures WalkRecords(ChangeBytes(c) + tail, n) == Some([c] + WalkRecords(tail, n - 1).value)
  {
    hide EntriesBytes, ReadEntries;
    var s := ChangeBytes(c) + tail;
    Associates([c.operation, |c.entries|], EntriesBytes(c.entries), tail);
    assert s[2..] == EntriesBytes(c.entries) + tail && s[2 + 4 * |c.entries|..] == tail;
    EntriesRoundTrip(c.entries, tail);
  }

  lemma {:induction false} RecordsRoundTrip(cs: seq<Change>, rest: seq<byte>)
    requires AllFit(cs)
    ensures WalkRecords(ChangesBytes(cs) + rest, |cs|) == Some(cs)
  {
    hide ChangeBytes, ChangesBytes, WalkRecords;
    FirstChange(cs);
    if cs == [] {
      WalkNone(rest);
    } else {
      RecordsRoundTrip(cs[1..], rest);
      Associates(ChangeBytes(cs[0]), ChangesBytes(cs[1..]), rest);
      WalkFirst(cs[0], ChangesBytes(cs[1..]) + rest, |cs|);
      assert [cs[0]] + cs[1..] == cs;
    }
  }

  lemma WalkNone(s: seq<byte>)
    ensures WalkRecords([] + s, 0) == Some([])
  {
  }

  /** Walking an encoded event, whatever follows it, recovers the format and every change with every entry. */
  lemma WalkOfEvent(format: byte, cs: seq<Change>, rest: seq<byte>)
    requires AllFit(cs) && |cs| <= 0xFF
    ensures Walk(EventBytes(format, cs) + rest) == Some((format, cs))
  {
    var s := EventBytes(format, cs) + rest;
    assert s[2..] == ChangesBytes(cs) + rest;
    RecordsRoundTrip(cs, rest);
  }

  lemma {:induction false} EntriesExact(s: seq<byte>, n: nat)
    requires 4 * n <= |s|
    ensures EntriesBytes(ReadEntries(s, n)) == s[..4 * n]
    decreases n
  {
    hide Le32, Le32At;
    if n > 0 {
      EntriesExact(s[4..], n - 1);
      Le32Exact(s, 0);
      assert s[..4 * n] == s[0..4] + s[4..][..4 * (n - 1)];
    }
  }

  lemma {:induction false} RecordsExact(s: seq<byte>, n: nat)
    requires WalkRecords(s, n).Some?
    ensures ChangesBytes(WalkRecords(s, n).value) <= s
    decreases n
  {
    hide EntriesBytes, ChangesBytes, ReadEntries;
    if n == 0 {
      FirstChange([]);
    } else {
      var k := 2 + 4 * s[1] as nat;
      var rest := WalkRecords(s[k..], n - 1).value;
      RecordsExact(s[k..], n - 1);
      EntriesExact(s[2..], s[1] as nat);
      var c := Change(s[0], ReadEntries(s[2..], s[1] as nat));
      FirstChange([c] + rest);
      assert ([c] + rest)[1..] == rest;
      assert ChangeBytes(c) == s[..k];
      assert s[..k] + s[k..] == s;
    }
  }

  /** Conversely, whatever the walk accepts starts with the encoding of what it returns. */
  lemma EventOfWalk(s: seq<byte>)
    requires Walk(s).Some?
    ensures EventBytes(Walk(s).value.0, Walk(s).value.1) <= s
  {
    var (format, cs) := Walk(s).value;
    RecordsExact(s[2..], s[1] as nat);
    assert s == [s[0], s[1]] + s[2..];
  }
}
