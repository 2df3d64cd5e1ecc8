/** Which rows a read of a routing table brings in, told by the entries that the device reports; and which devices a
    refresh reads. */
module DiscoveryEntries {
  import opened Bytes
  import opened Discovery
  import opened DiscoveryLaws
  import opened Wrappers

  /** All entries that a device reports in an exchange of up to `most` requests, in order. */
  function Heard(n: Network, sent: nat, eid: byte, addr: u16, handle: byte, most: nat): seq<Reported>
    decreases most
  {
    if handle == 0xFF || most == 0 then []
    else
      match n(sent, eid, addr, handle)
      case None => []
      case Some(reply) => reply.entries + Heard(n, sent + 1, eid, addr, reply.nextHandle, most - 1)
  }

  /** What an entry of the owner stands for: a row if it is reachable over PCIe and no range of endpoints, with the EID
      and the address reported. A bridge with a pool of endpoints counts as a bridge. */
  function OwnerRow(e: Reported): seq<Row> {
    var kind := if e.entryType.kind == BridgeAndEndpoints then Bridge else e.entryType.kind;
    if e.overPcie && kind != Endpoints then [Row(e.startingEid, e.addr, EntryType(kind, e.entryType.flags))] else []
  }

  function OwnerRows(es: seq<Reported>): seq<Row> {
    if es == [] then [] else OwnerRow(es[0]) + OwnerRows(es[1..])
  }

  /** What a bridge's entries stand for: a row for each single EID over PCIe that is not known yet, with the type
      reported, under the bridge's address. */
  function BridgeRows(es: seq<Reported>, known: set<byte>, addr: u16): seq<Row> {
    if es == [] then []
    else
      var e := es[0];
      if e.overPcie && e.eidRangeSize == 1 && e.startingEid !in known then
        [Row(e.startingEid, addr, e.entryType)] + BridgeRows(es[1..], known + {e.startingEid}, addr)
      else
        BridgeRows(es[1..], known, addr)
  }

  function KnownEids(rt: seq<Row>): set<byte> {
    set r | r in rt :: r.eid
  }

  // ----- the owner -----

  lemma {:induction false} OwnerRowsConcat(a: seq<Reported>, b: seq<Reported>)
    ensures OwnerRows(a + b) == OwnerRows(a) + OwnerRows(b)
  {
    hide OwnerRow;
    if a == [] {
      assert a + b == b;
    } else {
      OwnerRowsConcat(a[1..], b);
      assert (a + b)[1..] == a[1..] + b;
    }
  }

  lemma OwnerEntryIsRow(o: Owner, rt: seq<Row>, at: nat, e: Reported, addr: u16)
    ensures TakeEntry(o, rt, at, e, o.eid, addr) == (rt + OwnerRow(e), at)
  {
    assert rt + [] == rt;
  }

  lemma Regrouped(a: seq<Row>, b: seq<Row>, c: seq<Row>)
    ensures a + b + c == a + (b + c) && a + [] == a
  {
  }

  lemma {:induction false} OwnerEntriesAreRows(o: Owner, rt: seq<Row>, at: nat, es: seq<Reported>, addr: u16)
    ensures TakeEntries(o, rt, at, es, o.eid, addr).0 == rt + OwnerRows(es)
    decreases es
  {
    hide OwnerRow, TakeEntry;
    Regrouped(rt, [], []);
    if es != [] {
      OwnerEntryIsRow(o, rt, at, es[0], addr);
      OwnerEntriesAreRows(o, rt + OwnerRow(es[0]), at, es[1..], addr);
      Regrouped(rt, OwnerRow(es[0]), OwnerRows(es[1..]));
    }
  }

  lemma {:induction false} OwnerRequestsAppend(o: Owner, n: Network, s: State, at: nat, addr: u16, handle: byte,
                                               count: byte)
    ensures Requests(o, n, s, at, o.eid, addr, handle, count).rt
         == s.rt + OwnerRows(Heard(n, |s.called|, o.eid, addr, handle, 0xFF - count))
    decreases 0xFF - count
  {
    hide TakeEntries, OwnerRows, Requests;
    RequestsStep(o, n, s, at, o.eid, addr, handle, count);
    NoRows();
    if handle != 0xFF && count != 0xFF {
      match n(|s.called|, o.eid, addr, handle)
      case None =>
      case Some(reply) =>
        var (rt', at') := TakeEntries(o, s.rt, at, reply.entries, o.eid, addr);
        OwnerEntriesAreRows(o, s.rt, at, reply.entries, addr);
        var next := s.(called := s.called + [(o.eid, addr)], rt := rt');
        OwnerRequestsAppend(o, n, next, at', addr, reply.nextHandle, count + 1);
        OwnerRowsConcat(reply.entries, Heard(n, |next.called|, o.eid, addr, reply.nextHandle, 0xFF - count - 1));
    }
  }

  lemma NoRows()
    ensures OwnerRows([]) == [] && forall known, addr :: BridgeRows([], known, addr) == []
  {
  }

  /** A read of the owner appends, in order, exactly the rows that the entries it reports stand for. */
  lemma OwnerReadAppends(o: Owner, n: Network, s: State, addr: u16, entryIndex: nat)
    ensures ReadTable(o, n, s, o.eid, addr, entryIndex).rt
         == s.rt + OwnerRows(Heard(n, |s.called|, o.eid, addr, 0, 0xFF))
  {
    OwnerRequestsAppend(o, n, s.(visited := s.visited + [(o.eid, addr)]), entryIndex + 1, addr, 0, 0);
  }

  // ----- a bridge -----

  lemma {:induction false} BridgeRowsConcat(a: seq<Reported>, b: seq<Reported>, known: set<byte>, addr: u16)
    ensures BridgeRows(a + b, known, addr) ==
            BridgeRows(a, known, addr) + BridgeRows(b, known + KnownEids(BridgeRows(a, known, addr)), addr)
    decreases a
  {
    if a == [] {
      assert a + b == b && known + KnownEids([]) == known;
    } else {
      assert (a + b)[1..] == a[1..] + b;
      var e := a[0];
      if e.overPcie && e.eidRangeSize == 1 && e.startingEid !in known {
        var k := known + {e.startingEid};
        BridgeRowsConcat(a[1..], b, k, addr);
        var first := Row(e.startingEid, addr, e.entryType);
        KnownMore([first], BridgeRows(a[1..], k, addr));
        assert KnownEids([first]) == {e.startingEid};
        assert known + KnownEids(BridgeRows(a, known, addr)) == k + KnownEids(BridgeRows(a[1..], k, addr));
      } else {
        BridgeRowsConcat(a[1..], b, known, addr);
      }
    }
  }

  lemma KnownMore(a: seq<Row>, b: seq<Row>)
    ensures KnownEids(a + b) == KnownEids(a) + KnownEids(b)
  {
  }

  lemma KnownIff(rt: seq<Row>, eid: byte)
    ensures HasEid(rt, eid) <==> eid in KnownEids(rt)
  {
  }

  /** `rt` with `rows` put in at `at`. */
  function PutIn(rt: seq<Row>, at: nat, rows: seq<Row>): seq<Row>
    requires at <= |rt|
  {
    rt[..at] + rows + rt[at..]
  }

  lemma PutInTwice(rt: seq<Row>, at: nat, a: seq<Row>, b: seq<Row>)
    requires at <= |rt|
    ensures |PutIn(rt, at, a)| == |rt| + |a|
    ensures PutIn(PutIn(rt, at, a), at + |a|, b) == PutIn(rt, at, a + b)
    ensures KnownEids(PutIn(rt, at, a)) == KnownEids(rt) + KnownEids(a)
    ensures PutIn(rt, at, []) == rt
  {
    hide KnownEids;
    var s := PutIn(rt, at, a);
    assert s[..at + |a|] == rt[..at] + a && s[at + |a|..] == rt[at..];
    KnownMore(rt[..at] + a, rt[at..]);
    KnownMore(rt[..at], a);
    KnownMore(rt[..at], rt[at..]);
    assert rt == rt[..at] + rt[at..];
  }

  lemma {:induction false} BridgeEntriesAreRows(o: Owner, rt: seq<Row>, at: nat, es: seq<Reported>, eid: byte,
                                                addr: u16)
    requires eid != o.eid && at <= |rt|
    ensures var rows := BridgeRows(es, KnownEids(rt), addr);
            TakeEntries(o, rt, at, es, eid, addr) == (PutIn(rt, at, rows), at + |rows|)
    decreases es
  {
    hide KnownEids, HasEid, PutIn;
    PutInTwice(rt, at, [], []);
    if es != [] {
      var e := es[0];
      KnownIff(rt, e.startingEid);
      if e.overPcie && e.eidRangeSize == 1 && e.startingEid !in KnownEids(rt) {
        var row := Row(e.startingEid, addr, e.entryType);
        InsertIsPutIn(rt, at, row);
        BridgeEntriesAreRows(o, InsertRow(rt, at, row), at + 1, es[1..], eid, addr);
        PutInTwice(rt, at, [row], BridgeRows(es[1..], KnownEids(rt) + {e.startingEid}, addr));
      } else {
        BridgeEntriesAreRows(o, rt, at, es[1..], eid, addr);
      }
    }
  }

  lemma InsertIsPutIn(rt: seq<Row>, at: nat, row: Row)
    requires at <= |rt|
    ensures InsertRow(rt, at, row) == PutIn(rt, at, [row]) && |InsertRow(rt, at, row)| == |rt| + 1
    ensures KnownEids([row]) == {row.eid} && KnownEids(InsertRow(rt, at, row)) == KnownEids(rt) + {row.eid}
  {
    PutInTwice(rt, at, [row], []);
    assert KnownEids([row]) == {row.eid};
  }

  lemma {:induction false} BridgeRequestsInsert(o: Owner, n: Network, s: State, at: nat, eid: byte, addr: u16,
                                                handle: byte, count: byte)
    requires eid != o.eid && at <= |s.rt|
    ensures Requests(o, n, s, at, eid, addr, handle, count).rt ==
            PutIn(s.rt, at, BridgeRows(Heard(n, |s.called|, eid, addr, handle, 0xFF - count), KnownEids(s.rt), addr))
    decreases 0xFF - count
  {
    hide TakeEntries, BridgeRows, Requests, KnownEids, PutIn;
    RequestsStep(o, n, s, at, eid, addr, handle, count);
    NoRows();
    PutInTwice(s.rt, at, [], []);
    if handle != 0xFF && count != 0xFF {
      match n(|s.called|, eid, addr, handle)
      case None =>
      case Some(reply) =>
        var rows := BridgeRows(reply.entries, KnownEids(s.rt), addr);
        var (rt', at') := TakeEntries(o, s.rt, at, reply.entries, eid, addr);
        BridgeEntriesAreRows(o, s.rt, at, reply.entries, eid, addr);
        var next := s.(called := s.called + [(eid, addr)], rt := rt');
        var later := Heard(n, |next.called|, eid, addr, reply.nextHandle, 0xFF - count - 1);
        PutInTwice(s.rt, at, rows, BridgeRows(later, KnownEids(rt'), addr));
        BridgeRequestsInsert(o, n, next, at', eid, addr, reply.nextHandle, count + 1);
        BridgeRowsConcat(reply.entries, later, KnownEids(s.rt), addr);
    }
  }

  /** A read of a bridge inserts, behind the given index and in order, exactly the rows that the entries it reports
      stand for. */
  lemma BridgeReadInserts(o: Owner, n: Network, s: State, eid: byte, addr: u16, entryIndex: nat)
    requires eid != o.eid && entryIndex < |s.rt|
    ensures ReadTable(o, n, s, eid, addr, entryIndex).rt ==
            s.rt[..entryIndex + 1]
            + BridgeRows(Heard(n, |s.called|, eid, addr, 0, 0xFF), KnownEids(s.rt), addr)
            + s.rt[entryIndex + 1..]
  {
    hide BridgeRows, Heard, Requests;
    BridgeRequestsInsert(o, n, s.(visited := s.visited + [(eid, addr)]), entryIndex + 1, eid, addr, 0, 0);
  }

  // ----- which devices are read -----

  /** Every pair read is the owner or that of a bridge in the table, with or without a pool of endpoints. */
  ghost predicate ReadFromRows(o: Owner, s: State) {
    forall p | p in s.visited :: p == (o.eid, o.addr) || exists r | r in s.rt :: BridgeAt(r, p)
  }

  predicate BridgeAt(r: Row, p: Pair) {
    p == (r.eid, r.addr) && (r.entryType.kind == Bridge || r.entryType.kind == BridgeAndEndpoints)
  }

  lemma RowsStay(a: seq<Row>, b: seq<Row>, r: Row)
    requires Subsequence(a, b) && r in a
    ensures r in b
  {
    var i :| 0 <= i < |a| && a[i] == r;
    assert RowIn(r, a);
    SubsequenceRowIn(a, b, r);
  }

  lemma ReadFromMore(o: Owner, s: State, t: State)
    requires ReadFromRows(o, s) && Subsequence(s.rt, t.rt) && t.visited == s.visited
    ensures ReadFromRows(o, t)
  {
    forall p | p in t.visited && p != (o.eid, o.addr)
      ensures exists r | r in t.rt :: BridgeAt(r, p)
    {
      var r :| r in s.rt && BridgeAt(r, p);
      RowsStay(s.rt, t.rt, r);
    }
  }

  lemma {:induction false} PassReadsRows(o: Owner, n: Network, rt: seq<Row>, i: nat, s: State)
    requires i <= |rt| <= |s.rt| && Subsequence(rt, s.rt) && ReadFromRows(o, s)
    ensures ReadFromRows(o, Pass(o, n, rt, i, s))
    decreases |rt| - i
  {
    hide ReadTable, ReadFromRows, IsBridgeCalled;
    if i < |rt| {
      var r := rt[i];
      if !IsEntryBridge(r) || IsBridgeCalled(r, s.called) {
        PassReadsRows(o, n, rt, i + 1, s);
      } else {
        ReadGrows(o, n, s, r.eid, r.addr, i);
        var t := ReadTable(o, n, s, r.eid, r.addr, i);
        SubsequenceTrans(rt, s.rt, t.rt);
        ReadMarks(o, n, s, r.eid, r.addr, i);
        RowsStay(rt, t.rt, r);
        ReadFromMore(o, s, t.(visited := s.visited));
        ReadFromOneMore(o, t.(visited := s.visited), t, r);
        PassReadsRows(o, n, rt, i + 1, t);
      }
    }
  }

  lemma ReadMarks(o: Owner, n: Network, s: State, eid: byte, addr: u16, i: nat)
    requires eid != o.eid ==> i < |s.rt|
    ensures ReadTable(o, n, s, eid, addr, i).visited == s.visited + [(eid, addr)]
  {
  }

  lemma ReadFromOneMore(o: Owner, s: State, t: State, r: Row)
    requires ReadFromRows(o, s) && t.rt == s.rt && t.visited == s.visited + [(r.eid, r.addr)]
    requires r in t.rt && IsEntryBridge(r)
    ensures ReadFromRows(o, t)
  {
  }

  lemma {:induction false} DiscoverReadsRows(o: Owner, n: Network, s: State)
    requires ReadFromRows(o, s)
    ensures ReadFromRows(o, Discover(o, n, s))
    decreases Uncalled(s.called)
  {
    hide ReadFromRows;
    if !AllBridgesCalled(s.rt, s.called) {
      SubsequenceRefl(s.rt);
      PassReadsRows(o, n, s.rt, 0, s);
      RoundCallsNewPair(o, n, s);
      DiscoverReadsRows(o, n, Pass(o, n, s.rt, 0, s));
    }
  }

  /** A refresh reads the owner and exactly the bridges that are in the table at its end, those with a pool of endpoints
      among them. */
  lemma RefreshReadsBridges(o: Owner, n: Network)
    ensures var s := Refresh(o, n);
            && (o.eid, o.addr) in s.visited && ReadFromRows(o, s)
            && forall r, p | r in s.rt && BridgeAt(r, p) :: p in s.visited
  {
    hide Discover, Pass, ReadTable;
    var first := AfterOwner(o, n);
    ReadMarks(o, n, State([], [], []), o.eid, o.addr, 0);
    DiscoverReadsRows(o, n, first);
    RefreshReadsOnce(o, n);
    DiscoverVisits(o, n, first);
    var s := Refresh(o, n);
    assert first.visited[0] == (o.eid, o.addr) && first.visited[0] == s.visited[0];
    forall r | r in s.rt && IsEntryBridge(r) ensures (r.eid, r.addr) in s.visited {
      var i :| 0 <= i < |s.rt| && s.rt[i] == r;
      assert IsBridgeCalled(s.rt[i], s.called);
    }
  }

  lemma {:induction false} PassVisits(o: Owner, n: Network, rt: seq<Row>, i: nat, s: State)
    requires i <= |rt| <= |s.rt|
    ensures s.visited <= Pass(o, n, rt, i, s).visited
    decreases |rt| - i
  {
    hide ReadTable, IsEntryBridge, IsBridgeCalled;
    if i < |rt| {
      var r := rt[i];
      if !IsEntryBridge(r) || IsBridgeCalled(r, s.called) {
        PassVisits(o, n, rt, i + 1, s);
      } else {
        ReadGrows(o, n, s, r.eid, r.addr, i);
        ReadMarks(o, n, s, r.eid, r.addr, i);
        PassVisits(o, n, rt, i + 1, ReadTable(o, n, s, r.eid, r.addr, i));
      }
    }
  }

  lemma {:induction false} DiscoverVisits(o: Owner, n: Network, s: State)
    ensures s.visited <= Discover(o, n, s).visited
    decreases Uncalled(s.called)
  {
    if !AllBridgesCalled(s.rt, s.called) {
      PassVisits(o, n, s.rt, 0, s);
      RoundCallsNewPair(o, n, s);
      DiscoverVisits(o, n, Pass(o, n, s.rt, 0, s));
    }
  }
}
