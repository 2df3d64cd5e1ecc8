/** Reading the routing table over a hierarchy of bridges: the traversal as functions of arbitrary
    replies, its termination, and when it keeps endpoint ids distinct. */
module Discovery {
  import opened Bytes
  import opened Wrappers

  datatype EntryKind = SingleEndpoint | BridgeAndEndpoints | Bridge | Endpoints

  /** The entry type byte: the kind of entry, and the bits that are not the kind. */
  datatype EntryType = EntryType(kind: EntryKind, flags: byte)

  datatype Row = Row(eid: byte, addr: u16, entryType: EntryType)

  /** One entry of a Get Routing Table Entries response. */
  datatype Reported = Reported(eidRangeSize: byte, startingEid: byte, overPcie: bool, entryType: EntryType, addr: u16)

  datatype Reply = Reply(nextHandle: byte, entries: seq<Reported>)

  type Pair = (byte, u16)

  /** What the devices answer: by number of requests sent so far, EID, address and entry handle. No
      reply stands for every failure of the request. */
  type Network = (nat, byte, u16, byte) -> Option<Reply>

  datatype Owner = Owner(eid: byte, addr: u16)

  /** The table being built, one called pair for every request sent, and one pair for every read. */
  datatype State = State(rt: seq<Row>, called: seq<Pair>, visited: seq<Pair>)

  predicate HasEid(rt: seq<Row>, eid: byte) {
    exists i :: 0 <= i < |rt| && rt[i].eid == eid
  }

  predicate IsActiveEntryBehindBridge(e: Reported, rt: seq<Row>) {
    !HasEid(rt, e.startingEid) && e.eidRangeSize == 1 && e.overPcie
  }

  predicate IsEntryBridge(r: Row) {
    r.entryType.kind == Bridge || r.entryType.kind == BridgeAndEndpoints
  }

  predicate IsBridgeCalled(r: Row, called: seq<Pair>) {
    (r.eid, r.addr) in called
  }

  predicate AllBridgesCalled(rt: seq<Row>, called: seq<Pair>) {
    forall i | 0 <= i < |rt| :: IsEntryBridge(rt[i]) ==> IsBridgeCalled(rt[i], called)
  }

  function InsertRow(rt: seq<Row>, at: nat, r: Row): seq<Row>
    requires at <= |rt|
  {
    rt[..at] + [r] + rt[at..]
  }

  /** One reported entry: the owner's are appended, unless they are ranges; a bridge's active new
      ones are inserted at `at` under the bridge's address. */
  function TakeEntry(o: Owner, rt: seq<Row>, at: nat, e: Reported, eid: byte, addr: u16): (r: (seq<Row>, nat))
    requires eid != o.eid ==> at <= |rt|
    ensures eid != o.eid ==> r.1 <= |r.0|
  {
    if !e.overPcie then (rt, at)
    else if eid == o.eid && e.entryType.kind == BridgeAndEndpoints then
      (rt + [Row(e.startingEid, e.addr, e.entryType.(kind := Bridge))], at)
    else if eid == o.eid && e.entryType.kind != Endpoints then
      (rt + [Row(e.startingEid, e.addr, e.entryType)], at)
    else if eid != o.eid && IsActiveEntryBehindBridge(e, rt) then
      (InsertRow(rt, at, Row(e.startingEid, addr, e.entryType)), at + 1)
    else (rt, at)
  }

  function TakeEntries(o: Owner, rt: seq<Row>, at: nat, es: seq<Reported>, eid: byte, addr: u16): (r: (seq<Row>, nat))
    requires eid != o.eid ==> at <= |rt|
    ensures eid != o.eid ==> r.1 <= |r.0|
    decreases es
  {
    if es == [] then (rt, at)
    else
      var (rt', at') := TakeEntry(o, rt, at, es[0], eid, addr);
      TakeEntries(o, rt', at', es[1..], eid, addr)
  }

  /** Requests to one device until the last handle, a failure, or 255 requests. */
  function Requests(o: Owner, n: Network, s: State, at: nat, eid: byte, addr: u16, handle: byte,
                    count: byte): (t: State)
    requires eid != o.eid ==> at <= |s.rt|
    ensures t.visited == s.visited
    decreases 0xFF - count
  {
    if handle == 0xFF || count == 0xFF then s
    else
      var sent := s.(called := s.called + [(eid, addr)]);
      match n(|s.called|, eid, addr, handle)
      case None => sent
      case Some(reply) =>
        var (rt', at') := TakeEntries(o, s.rt, at, reply.entries, eid, addr);
        Requests(o, n, sent.(rt := rt'), at', eid, addr, reply.nextHandle, count + 1)
  }

  lemma RequestsStep(o: Owner, n: Network, s: State, at: nat, eid: byte, addr: u16, handle: byte, count: byte)
    requires eid != o.eid ==> at <= |s.rt|
    ensures var t, reply := Requests(o, n, s, at, eid, addr, handle, count), n(|s.called|, eid, addr, handle);
            var sent := s.(called := s.called + [(eid, addr)]);
            if handle == 0xFF || count == 0xFF then t == s
            else if reply.None? then t == sent
            else
              var (rt', at') := TakeEntries(o, s.rt, at, reply.value.entries, eid, addr);
              t == Requests(o, n, sent.(rt := rt'), at', eid, addr, reply.value.nextHandle, count + 1)
  {
  }

  function ReadTable(o: Owner, n: Network, s: State, eid: byte, addr: u16, entryIndex: nat): State
    requires eid != o.eid ==> entryIndex < |s.rt|
  {
    Requests(o, n, s.(visited := s.visited + [(eid, addr)]), entryIndex + 1, eid, addr, 0, 0)
  }

  /** One pass over the rows `rt` known at its start, from row `i`. */
  function Pass(o: Owner, n: Network, rt: seq<Row>, i: nat, s: State): State
    requires i <= |rt| <= |s.rt|
    decreases |rt| - i
  {
    if i == |rt| then s
    else if !IsEntryBridge(rt[i]) || IsBridgeCalled(rt[i], s.called) then Pass(o, n, rt, i + 1, s)
    else
      ReadGrows(o, n, s, rt[i].eid, rt[i].addr, i);
      Pass(o, n, rt, i + 1, ReadTable(o, n, s, rt[i].eid, rt[i].addr, i))
  }

  // ----- growth -----

  /** `a` is `b` with some rows left out. */
  predicate Subsequence(a: seq<Row>, b: seq<Row>) {
    if a == [] then true
    else if b == [] then false
    else (a[0] == b[0] && Subsequence(a[1..], b[1..])) || Subsequence(a, b[1..])
  }

  lemma {:induction false} SubsequenceRefl(a: seq<Row>)
    ensures Subsequence(a, a)
  {
    if a != [] {
      SubsequenceRefl(a[1..]);
    }
  }

  lemma {:induction false} SubsequenceInsert(a: seq<Row>, b: seq<Row>, at: nat, r: Row)
    requires Subsequence(a, b) && at <= |b|
    ensures Subsequence(a, InsertRow(b, at, r))
  {
    var c := InsertRow(b, at, r);
    if a != [] {
      if at == 0 {
        assert c[1..] == b;
      } else {
        assert c[1..] == InsertRow(b[1..], at - 1, r) && c[0] == b[0];
        if a[0] == b[0] && Subsequence(a[1..], b[1..]) {
          SubsequenceInsert(a[1..], b[1..], at - 1, r);
        } else {
          SubsequenceInsert(a, b[1..], at - 1, r);
        }
      }
    }
  }

  lemma {:induction false} SubsequenceLength(a: seq<Row>, b: seq<Row>)
    requires Subsequence(a, b)
    ensures |a| <= |b|
  {
    if a != [] {
      if a[0] == b[0] && Subsequence(a[1..], b[1..]) {
        SubsequenceLength(a[1..], b[1..]);
      } else {
        SubsequenceLength(a, b[1..]);
      }
    }
  }

  lemma {:induction false} SubsequenceTrans(a: seq<Row>, b: seq<Row>, c: seq<Row>)
    requires Subsequence(a, b) && Subsequence(b, c)
    ensures Subsequence(a, c)
    decreases c
  {
    if a != [] {
      if b[0] == c[0] && Subsequence(b[1..], c[1..]) {
        if a[0] == b[0] && Subsequence(a[1..], b[1..]) {
          SubsequenceTrans(a[1..], b[1..], c[1..]);
        } else {
          SubsequenceTrans(a, b[1..], c[1..]);
        }
      } else {
        SubsequenceTrans(a, b, c[1..]);
      }
    }
  }

  lemma TakeEntryGrows(o: Owner, rt: seq<Row>, at: nat, e: Reported, eid: byte, addr: u16)
    requires eid != o.eid ==> at <= |rt|
    ensures Subsequence(rt, TakeEntry(o, rt, at, e, eid, addr).0)
  {
    SubsequenceRefl(rt);
    if at <= |rt| {
      SubsequenceInsert(rt, rt, at, Row(e.startingEid, addr, e.entryType));
    }
    forall r: Row
      ensures Subsequence(rt, rt + [r])
    {
      SubsequenceInsert(rt, rt, |rt|, r);
      assert InsertRow(rt, |rt|, r) == rt + [r];
    }
  }

  lemma {:induction false} TakeEntriesGrow(o: Owner, rt: seq<Row>, at: nat, es: seq<Reported>, eid: byte, addr: u16)
    requires eid != o.eid ==> at <= |rt|
    ensures Subsequence(rt, TakeEntries(o, rt, at, es, eid, addr).0)
    decreases es
  {
    if es == [] {
      SubsequenceRefl(rt);
    } else {
      var (rt', at') := TakeEntry(o, rt, at, es[0], eid, addr);
      TakeEntryGrows(o, rt, at, es[0], eid, addr);
      TakeEntriesGrow(o, rt', at', es[1..], eid, addr);
      SubsequenceTrans(rt, rt', TakeEntries(o, rt', at', es[1..], eid, addr).0);
    }
  }

  /** Rows are never dropped or reordered, and between 1 and 255 requests go to the one device. */
  lemma {:induction false} RequestsGrow(o: Owner, n: Network, s: State, at: nat, eid: byte, addr: u16, handle: byte,
                                        count: byte)
    requires eid != o.eid ==> at <= |s.rt|
    ensures var t := Requests(o, n, s, at, eid, addr, handle, count);
            && Subsequence(s.rt, t.rt)
            && |s.called| <= |t.called| <= |s.called| + (0xFF - count)
            && (handle != 0xFF && count != 0xFF ==> |s.called| < |t.called|)
            && s.called <= t.called
            && (forall i | |s.called| <= i < |t.called| :: t.called[i] == (eid, addr))
    decreases 0xFF - count
  {
    SubsequenceRefl(s.rt);
    if handle != 0xFF && count != 0xFF {
      var sent := s.(called := s.called + [(eid, addr)]);
      match n(|s.called|, eid, addr, handle)
      case None =>
      case Some(reply) =>
        var (rt', at') := TakeEntries(o, s.rt, at, reply.entries, eid, addr);
        TakeEntriesGrow(o, s.rt, at, reply.entries, eid, addr);
        RequestsGrow(o, n, sent.(rt := rt'), at', eid, addr, reply.nextHandle, count + 1);
        SubsequenceTrans(s.rt, rt', Requests(o, n, sent.(rt := rt'), at', eid, addr, reply.nextHandle, count + 1).rt);
    }
  }

  lemma ReadGrows(o: Owner, n: Network, s: State, eid: byte, addr: u16, entryIndex: nat)
    requires eid != o.eid ==> entryIndex < |s.rt|
    ensures var t := ReadTable(o, n, s, eid, addr, entryIndex);
            && Subsequence(s.rt, t.rt) && |s.rt| <= |t.rt|
            && t.visited == s.visited + [(eid, addr)]
            && |s.called| < |t.called| <= |s.called| + 0xFF
            && (forall p :: p in t.called <==> p in s.called || p == (eid, addr))
  {
    RequestsGrow(o, n, s.(visited := s.visited + [(eid, addr)]), entryIndex + 1, eid, addr, 0, 0);
    var t := ReadTable(o, n, s, eid, addr, entryIndex);
    SubsequenceLength(s.rt, t.rt);
    assert t.called[|s.called|] == (eid, addr);
    assert t.called == s.called + t.called[|s.called|..];
  }
}
