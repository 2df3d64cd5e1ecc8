/** Termination of the bridge discovery loop, and exactly when it keeps endpoint ids distinct. */
module DiscoveryLaws {
  import opened Bytes
  import opened Discovery
  import opened Wrappers

  // ----- passes -----

  lemma {:induction false} PassGrows(o: Owner, n: Network, rt: seq<Row>, i: nat, s: State)
    requires i <= |rt| <= |s.rt|
    ensures var t := Pass(o, n, rt, i, s);
            && Subsequence(s.rt, t.rt) && |s.rt| <= |t.rt|
            && (forall p | p in s.called :: p in t.called)
    decreases |rt| - i
  {
    SubsequenceRefl(s.rt);
    if i < |rt| {
      if !IsEntryBridge(rt[i]) || IsBridgeCalled(rt[i], s.called) {
        PassGrows(o, n, rt, i + 1, s);
      } else {
        ReadGrows(o, n, s, rt[i].eid, rt[i].addr, i);
        var u := ReadTable(o, n, s, rt[i].eid, rt[i].addr, i);
        PassGrows(o, n, rt, i + 1, u);
        SubsequenceTrans(s.rt, u.rt, Pass(o, n, rt, i + 1, u).rt);
      }
    }
  }

  /** A pass calls every bridge of the table it started from. */
  lemma {:induction false} PassCalls(o: Owner, n: Network, rt: seq<Row>, i: nat, s: State, k: nat)
    requires i <= k < |rt| <= |s.rt| && IsEntryBridge(rt[k])
    ensures IsBridgeCalled(rt[k], Pass(o, n, rt, i, s).called)
    decreases |rt| - i
  {
    if !IsEntryBridge(rt[i]) || IsBridgeCalled(rt[i], s.called) {
      if i == k {
        PassGrows(o, n, rt, i + 1, s);
      } else {
        PassCalls(o, n, rt, i + 1, s, k);
      }
    } else {
      ReadGrows(o, n, s, rt[i].eid, rt[i].addr, i);
      var u := ReadTable(o, n, s, rt[i].eid, rt[i].addr, i);
      if i == k {
        PassGrows(o, n, rt, i + 1, u);
      } else {
        PassCalls(o, n, rt, i + 1, u, k);
      }
    }
  }

  ghost function AllPairs(): set<Pair> {
    set e: byte, a: u16 | 0 <= e < 0x100 && 0 <= a < 0x1_0000 :: (e, a)
  }

  ghost function Uncalled(called: seq<Pair>): set<Pair> {
    set p | p in AllPairs() && p !in called
  }

  /** Each round of the discovery loop calls an (EID, address) pair that was never called before, and
      there are finitely many pairs; so the loop ends whatever the replies are. */
  lemma RoundCallsNewPair(o: Owner, n: Network, s: State)
    requires !AllBridgesCalled(s.rt, s.called)
    ensures Uncalled(Pass(o, n, s.rt, 0, s).called) < Uncalled(s.called)
  {
    var k :| 0 <= k < |s.rt| && IsEntryBridge(s.rt[k]) && !IsBridgeCalled(s.rt[k], s.called);
    PassGrows(o, n, s.rt, 0, s);
    PassCalls(o, n, s.rt, 0, s, k);
    var p := (s.rt[k].eid, s.rt[k].addr);
    assert p in Uncalled(s.called) && p !in Uncalled(Pass(o, n, s.rt, 0, s).called);
  }

  /** The discovery loop. */
  ghost function Discover(o: Owner, n: Network, s: State): State
    decreases Uncalled(s.called)
  {
    if AllBridgesCalled(s.rt, s.called) then s
    else
      RoundCallsNewPair(o, n, s);
      Discover(o, n, Pass(o, n, s.rt, 0, s))
  }

  ghost function AfterOwner(o: Owner, n: Network): State {
    ReadTable(o, n, State([], [], []), o.eid, o.addr, 0)
  }

  /** One refresh of the table: the owner first, then bridges until all are called. */
  ghost function Refresh(o: Owner, n: Network): State {
    Discover(o, n, AfterOwner(o, n))
  }

  // ----- no pair is read twice -----

  ghost predicate NoRepeats(v: seq<Pair>) {
    forall i, j | 0 <= i < j < |v| :: v[i] != v[j]
  }

  /** The pairs read are the pairs called, each read once, with at most 255 requests a read. */
  ghost predicate ReadsOk(s: State) {
    && NoRepeats(s.visited)
    && (forall p :: p in s.visited <==> p in s.called)
    && |s.called| <= 0xFF * |s.visited|
  }

  lemma ReadKeepsReadsOk(o: Owner, n: Network, s: State, eid: byte, addr: u16, at: nat)
    requires eid != o.eid ==> at < |s.rt|
    requires ReadsOk(s) && (eid, addr) !in s.called
    ensures ReadsOk(ReadTable(o, n, s, eid, addr, at))
  {
    ReadGrows(o, n, s, eid, addr, at);
  }

  lemma {:induction false} PassKeepsReadsOk(o: Owner, n: Network, rt: seq<Row>, i: nat, s: State)
    requires i <= |rt| <= |s.rt| && ReadsOk(s)
    ensures ReadsOk(Pass(o, n, rt, i, s))
    decreases |rt| - i
  {
    if i < |rt| {
      if !IsEntryBridge(rt[i]) || IsBridgeCalled(rt[i], s.called) {
        PassKeepsReadsOk(o, n, rt, i + 1, s);
      } else {
        ReadGrows(o, n, s, rt[i].eid, rt[i].addr, i);
        ReadKeepsReadsOk(o, n, s, rt[i].eid, rt[i].addr, i);
        PassKeepsReadsOk(o, n, rt, i + 1, ReadTable(o, n, s, rt[i].eid, rt[i].addr, i));
      }
    }
  }

  lemma {:induction false} DiscoverKeepsReadsOk(o: Owner, n: Network, s: State)
    requires ReadsOk(s)
    ensures ReadsOk(Discover(o, n, s)) && AllBridgesCalled(Discover(o, n, s).rt, Discover(o, n, s).called)
    decreases Uncalled(s.called)
  {
    if !AllBridgesCalled(s.rt, s.called) {
      RoundCallsNewPair(o, n, s);
      PassKeepsReadsOk(o, n, s.rt, 0, s);
      DiscoverKeepsReadsOk(o, n, Pass(o, n, s.rt, 0, s));
    }
  }

  /** In one refresh no device is read twice, each read sends at most 255 requests, and at the end
      every bridge in the table has been read. */
  lemma RefreshReadsOnce(o: Owner, n: Network)
    ensures ReadsOk(Refresh(o, n)) && AllBridgesCalled(Refresh(o, n).rt, Refresh(o, n).called)
  {
    ReadKeepsReadsOk(o, n, State([], [], []), o.eid, o.addr, 0);
    DiscoverKeepsReadsOk(o, n, AfterOwner(o, n));
  }

  // ----- distinct endpoint ids -----

  ghost predicate DistinctEids(rt: seq<Row>) {
    forall i, j | 0 <= i < j < |rt| :: rt[i].eid != rt[j].eid
  }

  /** A bridge row that makes the traversal read some other device as if it were the bus owner. */
  predicate Impostor(o: Owner, r: Row) {
    IsEntryBridge(r) && r.eid == o.eid && r.addr != o.addr
  }

  /** The condition on the rows kept from the bus owner: no impostor among them, and the owner's own
      EID is taken unless every bridge shares the owner's address. */
  predicate Safe(o: Owner, rt: seq<Row>) {
    && (forall i | 0 <= i < |rt| :: !Impostor(o, rt[i]))
    && (HasEid(rt, o.eid) || forall i | 0 <= i < |rt| :: IsEntryBridge(rt[i]) ==> rt[i].addr == o.addr)
  }

  ghost predicate AddrsFrom(rt: seq<Row>, base: seq<Row>) {
    forall i | 0 <= i < |rt| :: exists j :: 0 <= j < |base| && base[j].addr == rt[i].addr
  }

  /** What holds throughout discovery from safe, distinct owner rows `base`. */
  ghost predicate Kept(o: Owner, base: seq<Row>, rt: seq<Row>) {
    DistinctEids(rt) && Safe(o, rt) && Subsequence(base, rt) && AddrsFrom(rt, base)
  }

  /** `r` stands in `rt`. */
  predicate RowIn(r: Row, rt: seq<Row>) {
    exists i :: 0 <= i < |rt| && rt[i] == r
  }

  lemma {:induction false} SubsequenceRowIn(a: seq<Row>, b: seq<Row>, r: Row)
    requires Subsequence(a, b) && RowIn(r, a)
    ensures RowIn(r, b)
  {
    if a[0] == b[0] && Subsequence(a[1..], b[1..]) {
      if r == a[0] {
        assert b[0] == r;
      } else {
        var i :| 0 <= i < |a| && a[i] == r;
        assert a[1..][i - 1] == r;
        SubsequenceRowIn(a[1..], b[1..], r);
        var k :| 0 <= k < |b[1..]| && b[1..][k] == r;
        assert b[k + 1] == r;
      }
    } else {
      SubsequenceRowIn(a, b[1..], r);
      var k :| 0 <= k < |b[1..]| && b[1..][k] == r;
      assert b[k + 1] == r;
    }
  }

  /** The rows after an insertion, each by its index before. */
  lemma InsertedRow(rt: seq<Row>, at: nat, r: Row, i: nat)
    requires at <= |rt| && i <= |rt|
    ensures InsertRow(rt, at, r)[i] == if i < at then rt[i] else if i == at then r else rt[i - 1]
  {
  }

  lemma InsertedRowIn(rt: seq<Row>, at: nat, r: Row, i: nat)
    requires at <= |rt| && i < |rt|
    ensures RowIn(rt[i], InsertRow(rt, at, r)) && HasEid(InsertRow(rt, at, r), rt[i].eid)
  {
    assert InsertRow(rt, at, r)[if i < at then i else i + 1] == rt[i];
  }

  lemma InsertKeepsDistinct(rt: seq<Row>, at: nat, r: Row)
    requires at <= |rt| && DistinctEids(rt) && !HasEid(rt, r.eid)
    ensures DistinctEids(InsertRow(rt, at, r))
  {
    var t := InsertRow(rt, at, r);
    forall i, j | 0 <= i < j < |t|
      ensures t[i].eid != t[j].eid
    {
      hide DistinctEids, InsertRow;
      InsertedRow(rt, at, r, i);
      InsertedRow(rt, at, r, j);
      if i != at && j != at {
        DistinctPair(rt, if i < at then i else i - 1, if j < at then j else j - 1);
      }
    }
  }

  lemma DistinctPair(rt: seq<Row>, i: nat, j: nat)
    requires DistinctEids(rt) && i < j < |rt|
    ensures rt[i].eid != rt[j].eid
  {
  }

  lemma InsertKeepsSafe(o: Owner, rt: seq<Row>, at: nat, bridge: Row, r: Row)
    requires at <= |rt| && Safe(o, rt) && IsEntryBridge(bridge) && RowIn(bridge, rt)
    requires !HasEid(rt, r.eid) && r.addr == bridge.addr
    ensures Safe(o, InsertRow(rt, at, r))
  {
    hide IsEntryBridge, InsertRow;
    var t := InsertRow(rt, at, r);
    assert |t| == |rt| + 1 by {
      InsertedLength(rt, at, r);
    }
    if HasEid(rt, o.eid) {
      var j :| 0 <= j < |rt| && rt[j].eid == o.eid;
      InsertedRowIn(rt, at, r, j);
    }
    forall i | 0 <= i < |t|
      ensures !Impostor(o, t[i])
      ensures !HasEid(rt, o.eid) && IsEntryBridge(t[i]) ==> t[i].addr == o.addr
    {
      InsertedRow(rt, at, r, i);
    }
  }

  lemma InsertedLength(rt: seq<Row>, at: nat, r: Row)
    requires at <= |rt|
    ensures |InsertRow(rt, at, r)| == |rt| + 1
  {
  }

  lemma InsertKeepsAddrs(base: seq<Row>, rt: seq<Row>, at: nat, bridge: Row, r: Row)
    requires at <= |rt| && AddrsFrom(rt, base) && RowIn(bridge, rt) && r.addr == bridge.addr
    ensures AddrsFrom(InsertRow(rt, at, r), base)
  {
    hide InsertRow;
    InsertedLength(rt, at, r);
    var t := InsertRow(rt, at, r);
    var b :| 0 <= b < |rt| && rt[b] == bridge;
    forall i | 0 <= i < |t|
      ensures exists j :: 0 <= j < |base| && base[j].addr == t[i].addr
    {
      InsertedRow(rt, at, r, i);
      var was := if i < at then i else if i == at then b else i - 1;
      assert t[i].addr == rt[was].addr;
    }
  }

  /** Inserting an active entry found behind the bridge `bridge`. */
  lemma InsertKeeps(o: Owner, base: seq<Row>, rt: seq<Row>, at: nat, bridge: Row, r: Row)
    requires Kept(o, base, rt) && at <= |rt|
    requires IsEntryBridge(bridge) && RowIn(bridge, rt)
    requires !HasEid(rt, r.eid) && r.addr == bridge.addr
    ensures Kept(o, base, InsertRow(rt, at, r)) && RowIn(bridge, InsertRow(rt, at, r))
  {
    hide Subsequence, IsEntryBridge, DistinctEids, Safe, AddrsFrom, HasEid, InsertRow;
    SubsequenceInsert(base, rt, at, r);
    InsertKeepsDistinct(rt, at, r);
    InsertKeepsSafe(o, rt, at, bridge, r);
    InsertKeepsAddrs(base, rt, at, bridge, r);
    var b :| 0 <= b < |rt| && rt[b] == bridge;
    InsertedRowIn(rt, at, r, b);
  }

  lemma {:induction false} TakeKeeps(o: Owner, base: seq<Row>, rt: seq<Row>, at: nat, es: seq<Reported>, bridge: Row)
    requires Kept(o, base, rt) && at <= |rt| && bridge.eid != o.eid
    requires IsEntryBridge(bridge) && RowIn(bridge, rt)
    ensures Kept(o, base, TakeEntries(o, rt, at, es, bridge.eid, bridge.addr).0)
    ensures RowIn(bridge, TakeEntries(o, rt, at, es, bridge.eid, bridge.addr).0)
    decreases es
  {
    if es != [] {
      var e := es[0];
      if e.overPcie && IsActiveEntryBehindBridge(e, rt) {
        InsertKeeps(o, base, rt, at, bridge, Row(e.startingEid, bridge.addr, e.entryType));
      }
      hide Kept, RowIn;
      var (rt', at') := TakeEntry(o, rt, at, e, bridge.eid, bridge.addr);
      TakeKeeps(o, base, rt', at', es[1..], bridge);
    }
  }

  lemma {:induction false} RequestsKeep(o: Owner, n: Network, base: seq<Row>, s: State, at: nat, bridge: Row,
                                        handle: byte, count: byte)
    requires Kept(o, base, s.rt) && at <= |s.rt| && bridge.eid != o.eid
    requires IsEntryBridge(bridge) && RowIn(bridge, s.rt)
    ensures Kept(o, base, Requests(o, n, s, at, bridge.eid, bridge.addr, handle, count).rt)
    decreases 0xFF - count
  {
    hide Kept, RowIn;
    if handle != 0xFF && count != 0xFF {
      var sent := s.(called := s.called + [(bridge.eid, bridge.addr)]);
      match n(|s.called|, bridge.eid, bridge.addr, handle)
      case None =>
      case Some(reply) =>
        var (rt', at') := TakeEntries(o, s.rt, at, reply.entries, bridge.eid, bridge.addr);
        TakeKeeps(o, base, s.rt, at, reply.entries, bridge);
        RequestsKeep(o, n, base, sent.(rt := rt'), at', bridge, reply.nextHandle, count + 1);
    }
  }

  lemma {:induction false} PassKeeps(o: Owner, n: Network, base: seq<Row>, rt: seq<Row>, i: nat, s: State)
    requires i <= |rt| <= |s.rt| && Subsequence(rt, s.rt)
    requires Kept(o, base, s.rt) && (o.eid, o.addr) in s.called
    ensures Kept(o, base, Pass(o, n, rt, i, s).rt)
    decreases |rt| - i
  {
    hide Kept, Subsequence, ReadTable;
    if i < |rt| {
      if !IsEntryBridge(rt[i]) || IsBridgeCalled(rt[i], s.called) {
        PassKeeps(o, n, base, rt, i + 1, s);
      } else {
        ReadKeeps(o, n, base, rt, i, s);
        PassKeeps(o, n, base, rt, i + 1, ReadTable(o, n, s, rt[i].eid, rt[i].addr, i));
      }
    }
  }

  lemma ReadKeeps(o: Owner, n: Network, base: seq<Row>, rt: seq<Row>, i: nat, s: State)
    requires i < |rt| <= |s.rt| && Subsequence(rt, s.rt)
    requires Kept(o, base, s.rt) && (o.eid, o.addr) in s.called
    requires IsEntryBridge(rt[i]) && !IsBridgeCalled(rt[i], s.called)
    ensures var u := ReadTable(o, n, s, rt[i].eid, rt[i].addr, i);
            && |rt| <= |u.rt| && Subsequence(rt, u.rt) && Kept(o, base, u.rt) && (o.eid, o.addr) in u.called
  {
    hide Kept, Subsequence, Requests;
    NoImpostor(o, base, rt, i, s.rt);
    var u := ReadTable(o, n, s, rt[i].eid, rt[i].addr, i);
    ReadGrows(o, n, s, rt[i].eid, rt[i].addr, i);
    RequestsKeep(o, n, base, s.(visited := s.visited + [(rt[i].eid, rt[i].addr)]), i + 1, rt[i], 0, 0);
    SubsequenceTrans(rt, s.rt, u.rt);
  }

  lemma NoImpostor(o: Owner, base: seq<Row>, rt: seq<Row>, i: nat, now: seq<Row>)
    requires i < |rt| && Subsequence(rt, now) && Kept(o, base, now)
    ensures !Impostor(o, rt[i]) && RowIn(rt[i], now)
  {
    hide Subsequence;
    assert RowIn(rt[i], rt);
    SubsequenceRowIn(rt, now, rt[i]);
  }

  lemma {:induction false} DiscoverKeeps(o: Owner, n: Network, base: seq<Row>, s: State)
    requires Kept(o, base, s.rt) && (o.eid, o.addr) in s.called
    ensures Kept(o, base, Discover(o, n, s).rt)
    decreases Uncalled(s.called)
  {
    hide Kept;
    if !AllBridgesCalled(s.rt, s.called) {
      RoundCallsNewPair(o, n, s);
      SubsequenceRefl(s.rt);
      PassKeeps(o, n, base, s.rt, 0, s);
      PassGrows(o, n, s.rt, 0, s);
      DiscoverKeeps(o, n, base, Pass(o, n, s.rt, 0, s));
    }
  }

  /** Throughout discovery, from safe owner rows with distinct EIDs and whatever the bridges answer:
      EIDs stay distinct, the owner's rows keep their order, and every address is one the owner reported. */
  lemma SafeRowsStayDistinct(o: Owner, n: Network, s: State)
    requires DistinctEids(s.rt) && Safe(o, s.rt) && (o.eid, o.addr) in s.called
    ensures Kept(o, s.rt, Discover(o, n, s).rt)
  {
    SubsequenceRefl(s.rt);
    DiscoverKeeps(o, n, s.rt, s);
  }

  // ----- unsafe rows: replies that break distinctness -----

  /** Repetition of an EID cannot be undone. */
  lemma {:induction false} RepetitionStays(a: seq<Row>, b: seq<Row>)
    requires Subsequence(a, b) && !DistinctEids(a)
    ensures !DistinctEids(b)
  {
    if a[0] == b[0] && Subsequence(a[1..], b[1..]) {
      if DistinctEids(a[1..]) {
        var j :| 0 < j < |a| && a[0].eid == a[j].eid;
        assert a[1..][j - 1] == a[j];
        SubsequenceRowIn(a[1..], b[1..], a[j]);
        var k :| 0 <= k < |b[1..]| && b[1..][k] == a[j];
        assert b[0].eid == b[k + 1].eid;
      } else {
        RepetitionStays(a[1..], b[1..]);
        TailRepetition(b);
      }
    } else {
      RepetitionStays(a, b[1..]);
      TailRepetition(b);
    }
  }

  lemma TailRepetition(b: seq<Row>)
    requires b != [] && !DistinctEids(b[1..])
    ensures !DistinctEids(b)
  {
    var i, j :| 0 <= i < j < |b[1..]| && b[1..][i].eid == b[1..][j].eid;
    assert b[i + 1].eid == b[j + 1].eid;
  }

  const ENDPOINT: EntryType := EntryType(SingleEndpoint, 0)
  const BRIDGE: EntryType := EntryType(Bridge, 0)

  /** Well-formed replies that make unsafe rows go wrong: a device read as the owner reports one EID
      twice, and a bridge at another address than the owner's reports the owner's EID as a bridge. */
  function BadReply(o: Owner, eid: byte, addr: u16): Reply {
    if eid == o.eid then
      var e := Reported(1, 0, true, ENDPOINT, addr);
      Reply(0xFF, [e, e])
    else if addr == o.addr then Reply(0xFF, [])
    else Reply(0xFF, [Reported(1, o.eid, true, BRIDGE, addr)])
  }

  function BadNetwork(o: Owner): Network {
    (sent: nat, eid: byte, addr: u16, handle: byte) => Some(BadReply(o, eid, addr))
  }

  /** One read under the bad replies. */
  lemma BadRead(o: Owner, s: State, eid: byte, addr: u16, at: nat)
    requires eid != o.eid ==> at < |s.rt|
    ensures var t := ReadTable(o, BadNetwork(o), s, eid, addr, at);
            && t.called == s.called + [(eid, addr)] && Subsequence(s.rt, t.rt)
            && (eid == o.eid ==> !DistinctEids(t.rt))
            && (eid != o.eid && addr == o.addr ==> t.rt == s.rt)
            && (eid != o.eid && addr != o.addr ==>
                  t.rt == if HasEid(s.rt, o.eid) then s.rt else InsertRow(s.rt, at + 1, Row(o.eid, addr, BRIDGE)))
  {
    ReadGrows(o, BadNetwork(o), s, eid, addr, at);
    var t := ReadTable(o, BadNetwork(o), s, eid, addr, at);
    var es := BadReply(o, eid, addr).entries;
    var (rt', at') := TakeEntries(o, s.rt, at + 1, es, eid, addr);
    assert t.rt == rt';
    if eid == o.eid {
      var r := Row(0, addr, ENDPOINT);
      assert es[1..] == [es[1]];
      assert TakeEntry(o, s.rt, at + 1, es[0], eid, addr) == (s.rt + [r], at + 1);
      assert TakeEntry(o, s.rt + [r], at + 1, es[1], eid, addr) == (s.rt + [r] + [r], at + 1);
      TakeOne(o, s.rt + [r], at + 1, es[1], eid, addr);
      assert rt' == s.rt + [r] + [r];
      assert rt'[|s.rt|].eid == rt'[|s.rt| + 1].eid;
    } else if addr != o.addr {
      TakeOne(o, s.rt, at + 1, es[0], eid, addr);
    }
  }

  lemma TakeOne(o: Owner, rt: seq<Row>, at: nat, e: Reported, eid: byte, addr: u16)
    requires eid != o.eid ==> at <= |rt|
    ensures TakeEntries(o, rt, at, [e], eid, addr) == TakeEntry(o, rt, at, e, eid, addr)
  {
    var (rt', at') := TakeEntry(o, rt, at, e, eid, addr);
    assert [e][1..] == [];
    assert TakeEntries(o, rt', at', [], eid, addr) == (rt', at');
  }

  lemma {:induction false} ImpostorBreaksPass(o: Owner, rt: seq<Row>, i: nat, s: State, k: nat)
    requires i <= k < |rt| <= |s.rt| && Impostor(o, rt[k]) && !IsBridgeCalled(rt[k], s.called)
    ensures !DistinctEids(Pass(o, BadNetwork(o), rt, i, s).rt)
    decreases |rt| - i
  {
    var n := BadNetwork(o);
    if !IsEntryBridge(rt[i]) || IsBridgeCalled(rt[i], s.called) {
      ImpostorBreaksPass(o, rt, i + 1, s, k);
    } else {
      BadRead(o, s, rt[i].eid, rt[i].addr, i);
      ReadGrows(o, n, s, rt[i].eid, rt[i].addr, i);
      var u := ReadTable(o, n, s, rt[i].eid, rt[i].addr, i);
      if rt[i].eid == o.eid {
        PassGrows(o, n, rt, i + 1, u);
        RepetitionStays(u.rt, Pass(o, n, rt, i + 1, u).rt);
      } else {
        ImpostorBreaksPass(o, rt, i + 1, u, k);
      }
    }
  }

  ghost predicate OwnerCalledOnly(o: Owner, called: seq<Pair>) {
    forall p | p in called :: p.0 == o.eid ==> p.1 == o.addr
  }

  lemma NotThere(rt: seq<Row>, eid: byte, i: nat)
    requires !HasEid(rt, eid) && i < |rt|
    ensures rt[i].eid != eid
  {
  }

  /** With the owner's EID free and a bridge elsewhere still to be read, a pass brings in an impostor. */
  lemma {:induction false} PassBringsImpostor(o: Owner, rt: seq<Row>, i: nat, s: State, k: nat)
    requires i <= |rt| <= |s.rt| && !HasEid(rt, o.eid) && OwnerCalledOnly(o, s.called)
    requires i <= k < |rt| && IsEntryBridge(rt[k]) && rt[k].addr != o.addr && !IsBridgeCalled(rt[k], s.called)
    requires !HasEid(s.rt, o.eid)
    ensures var t := Pass(o, BadNetwork(o), rt, i, s);
            OwnerCalledOnly(o, t.called) && exists r :: Impostor(o, r) && RowIn(r, t.rt)
    decreases |rt| - i
  {
    hide ReadTable, BadNetwork, Subsequence, HasEid;
    var n := BadNetwork(o);
    if !IsEntryBridge(rt[i]) || IsBridgeCalled(rt[i], s.called) {
      PassBringsImpostor(o, rt, i + 1, s, k);
    } else {
      NotThere(rt, o.eid, i);
      BadRead(o, s, rt[i].eid, rt[i].addr, i);
      ReadGrows(o, n, s, rt[i].eid, rt[i].addr, i);
      var u := ReadTable(o, n, s, rt[i].eid, rt[i].addr, i);
      if rt[i].addr == o.addr {
        PassBringsImpostor(o, rt, i + 1, u, k);
      } else {
        var r := Row(o.eid, rt[i].addr, BRIDGE);
        InsertedRow(s.rt, i + 1, r, i + 1);
        assert RowIn(r, u.rt) && Impostor(o, r);
        PassGrows(o, n, rt, i + 1, u);
        SubsequenceRowIn(u.rt, Pass(o, n, rt, i + 1, u).rt, r);
        PassOwnerCalledOnly(o, n, rt, i + 1, u);
      }
    }
  }

  lemma {:induction false} PassOwnerCalledOnly(o: Owner, n: Network, rt: seq<Row>, i: nat, s: State)
    requires i <= |rt| <= |s.rt| && !HasEid(rt, o.eid) && OwnerCalledOnly(o, s.called)
    ensures OwnerCalledOnly(o, Pass(o, n, rt, i, s).called)
    decreases |rt| - i
  {
    if i < |rt| {
      if !IsEntryBridge(rt[i]) || IsBridgeCalled(rt[i], s.called) {
        PassOwnerCalledOnly(o, n, rt, i + 1, s);
      } else {
        assert rt[i].eid != o.eid;
        ReadGrows(o, n, s, rt[i].eid, rt[i].addr, i);
        PassOwnerCalledOnly(o, n, rt, i + 1, ReadTable(o, n, s, rt[i].eid, rt[i].addr, i));
      }
    }
  }

  lemma {:induction false} DiscoverGrows(o: Owner, n: Network, s: State)
    ensures Subsequence(s.rt, Discover(o, n, s).rt)
    decreases Uncalled(s.called)
  {
    SubsequenceRefl(s.rt);
    if !AllBridgesCalled(s.rt, s.called) {
      RoundCallsNewPair(o, n, s);
      var t := Pass(o, n, s.rt, 0, s);
      PassGrows(o, n, s.rt, 0, s);
      DiscoverGrows(o, n, t);
      SubsequenceTrans(s.rt, t.rt, Discover(o, n, t).rt);
    }
  }

  lemma ImpostorBreaksDiscovery(o: Owner, s: State, r: Row)
    requires OwnerCalledOnly(o, s.called) && Impostor(o, r) && RowIn(r, s.rt)
    ensures !DistinctEids(Discover(o, BadNetwork(o), s).rt)
  {
    var n := BadNetwork(o);
    var k :| 0 <= k < |s.rt| && s.rt[k] == r;
    assert !IsBridgeCalled(s.rt[k], s.called);
    RoundCallsNewPair(o, n, s);
    ImpostorBreaksPass(o, s.rt, 0, s, k);
    var t := Pass(o, n, s.rt, 0, s);
    DiscoverGrows(o, n, t);
    RepetitionStays(t.rt, Discover(o, n, t).rt);
  }

  /** If the owner's rows are not safe, there are replies after which an EID is repeated. */
  lemma UnsafeRowsBreak(o: Owner, s: State)
    requires !(DistinctEids(s.rt) && Safe(o, s.rt)) && forall p | p in s.called :: p == (o.eid, o.addr)
    ensures !DistinctEids(Discover(o, BadNetwork(o), s).rt)
  {
    var n := BadNetwork(o);
    if !DistinctEids(s.rt) {
      DiscoverGrows(o, n, s);
      RepetitionStays(s.rt, Discover(o, n, s).rt);
    } else if i :| 0 <= i < |s.rt| && Impostor(o, s.rt[i]) {
      ImpostorBreaksDiscovery(o, s, s.rt[i]);
    } else {
      var k :| 0 <= k < |s.rt| && IsEntryBridge(s.rt[k]) && s.rt[k].addr != o.addr;
      assert s.rt[k].eid != o.eid;
      RoundCallsNewPair(o, n, s);
      PassBringsImpostor(o, s.rt, 0, s, k);
      var t := Pass(o, n, s.rt, 0, s);
      var r :| Impostor(o, r) && RowIn(r, t.rt);
      ImpostorBreaksDiscovery(o, t, r);
    }
  }

  /** Exactly when discovery keeps EIDs distinct for all replies of the bridges. */
  lemma DistinctForAllRepliesIff(o: Owner, first: Network)
    ensures var s := AfterOwner(o, first);
            (forall n: Network :: DistinctEids(Discover(o, n, s).rt)) <==> DistinctEids(s.rt) && Safe(o, s.rt)
  {
    var s := AfterOwner(o, first);
    ReadGrows(o, first, State([], [], []), o.eid, o.addr, 0);
    if DistinctEids(s.rt) && Safe(o, s.rt) {
      forall n: Network
        ensures DistinctEids(Discover(o, n, s).rt)
      {
        SafeRowsStayDistinct(o, n, s);
      }
    } else {
      UnsafeRowsBreak(o, s);
    }
  }
}
