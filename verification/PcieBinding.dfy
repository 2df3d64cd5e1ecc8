/** The PCIe binding: the routing table refresh as loops over the table, and the endpoint interfaces. */
module PcieBinding {
  import opened Bytes
  import opened Discovery
  import opened DiscoveryEntries
  import opened DiscoveryLaws
  import opened Registration
  import opened Wrappers

  class Binding {
    const owner: Owner
    var ownEid: byte
    var discovered: bool
    var routingTable: seq<Row>
    var endpointInterface: map<byte, Info>
    var msgTypeInterface: map<byte, Info>
    var uuidInterface: map<byte, Info>
    var vendorIdInterface: map<byte, Info>

    constructor (owner: Owner, ownEid: byte)
      ensures this.owner == owner && this.ownEid == ownEid && !discovered
      ensures routingTable == [] && Registered() == NOTHING
    {
      this.owner := owner;
      this.ownEid := ownEid;
      discovered := false;
      routingTable := [];
      endpointInterface, msgTypeInterface, uuidInterface, vendorIdInterface := map[], map[], map[], map[];
    }

    ghost function Registered(): Interfaces
      reads `endpointInterface, `msgTypeInterface, `uuidInterface, `vendorIdInterface
    {
      Interfaces(endpointInterface, msgTypeInterface, uuidInterface, vendorIdInterface)
    }

    /** Whether the end of a Get Routing Table Entries exchange is reached, and the new request count. */
    method IsEndOfGetRoutingTableResp(entryHandle: byte, responseCount: byte) returns (end: bool, count: byte)
      ensures end == (entryHandle == 0xFF || responseCount == 0xFF)
      ensures count == if end then responseCount else responseCount + 1
    {
      if entryHandle == 0xFF || responseCount == 0xFF {
        return true, responseCount;
      }
      return false, responseCount + 1;
    }

    /** The entries of one response. */
    method TakeResponse(entries: seq<Reported>, rt0: seq<Row>, at0: nat, eid: byte, physAddr: u16)
      returns (rt: seq<Row>, insertIndex: nat)
      requires eid != owner.eid ==> at0 <= |rt0|
      ensures TakeEntries(owner, rt0, at0, entries, eid, physAddr) == (rt, insertIndex)
      ensures eid == owner.eid ==> rt == rt0 + OwnerRows(entries)
      ensures eid != owner.eid ==>
                var rows := BridgeRows(entries, KnownEids(rt0), physAddr);
                rt == PutIn(rt0, at0, rows) && insertIndex == at0 + |rows|
    {
      hide OwnerRows, BridgeRows, KnownEids, PutIn;
      if eid == owner.eid {
        OwnerEntriesAreRows(owner, rt0, at0, entries, physAddr);
      } else {
        BridgeEntriesAreRows(owner, rt0, at0, entries, eid, physAddr);
      }
      rt, insertIndex := rt0, at0;
      var i := 0;
      while i < |entries|
        invariant 0 <= i <= |entries|
        invariant eid != owner.eid ==> insertIndex <= |rt|
        invariant TakeEntries(owner, rt, insertIndex, entries[i..], eid, physAddr)
               == TakeEntries(owner, rt0, at0, entries, eid, physAddr)
      {
        var e := entries[i];
        assert entries[i..][0] == e && entries[i..][1..] == entries[i + 1..];
        i := i + 1;
        if !e.overPcie {
          continue;
        }
        if eid == owner.eid && e.entryType.kind == BridgeAndEndpoints {
          rt := rt + [Row(e.startingEid, e.addr, e.entryType.(kind := Bridge))];
        } else if eid == owner.eid && e.entryType.kind != Endpoints {
          rt := rt + [Row(e.startingEid, e.addr, e.entryType)];
        } else if eid != owner.eid && IsActiveEntryBehindBridge(e, rt) {
          rt := rt[..insertIndex] + [Row(e.startingEid, physAddr, e.entryType)] + rt[insertIndex..];
          insertIndex := insertIndex + 1;
        }
      }
    }

    /** Reads one device's table into `rt0`, with everything sent so far in `called0`. */
    method ReadRoutingTable(network: Network, rt0: seq<Row>, called0: seq<Pair>, eid: byte, physAddr: u16,
                            entryIndex: nat, ghost visited0: seq<Pair>)
      returns (rt: seq<Row>, called: seq<Pair>)
      requires eid != owner.eid ==> entryIndex < |rt0|
      ensures ReadTable(owner, network, State(rt0, called0, visited0), eid, physAddr, entryIndex)
           == State(rt, called, visited0 + [(eid, physAddr)])
    {
      hide TakeEntries, Requests;
      ghost var visited := visited0 + [(eid, physAddr)];
      rt, called := rt0, called0;
      var entryHandle: byte := 0;
      var responseCount: byte := 0;
      var insertIndex: nat := entryIndex + 1;
      while true
        invariant eid != owner.eid ==> insertIndex <= |rt|
        invariant ReadTable(owner, network, State(rt0, called0, visited0), eid, physAddr, entryIndex)
               == Requests(owner, network, State(rt, called, visited), insertIndex, eid, physAddr, entryHandle,
                           responseCount)
        decreases 0xFF - responseCount
      {
        RequestsStep(owner, network, State(rt, called, visited), insertIndex, eid, physAddr, entryHandle,
                     responseCount);
        var end;
        end, responseCount := IsEndOfGetRoutingTableResp(entryHandle, responseCount);
        if end {
          break;
        }
        called := called + [(eid, physAddr)];
        var reply := network(|called| - 1, eid, physAddr, entryHandle);
        if reply.None? {
          return;
        }
        rt, insertIndex := TakeResponse(reply.value.entries, rt, insertIndex, eid, physAddr);
        entryHandle := reply.value.nextHandle;
      }
    }

    /** One pass: rows are taken from the table known at the start, insertions go to a copy. */
    method ProcessBridgeEntries(network: Network, rt0: seq<Row>, called0: seq<Pair>, ghost visited0: seq<Pair>)
      returns (rt: seq<Row>, called: seq<Pair>, ghost visited: seq<Pair>)
      ensures rt == Pass(owner, network, rt0, 0, State(rt0, called0, visited0)).rt
      ensures called == Pass(owner, network, rt0, 0, State(rt0, called0, visited0)).called
      ensures visited == Pass(owner, network, rt0, 0, State(rt0, called0, visited0)).visited
    {
      rt, called, visited := rt0, called0, visited0;
      var i := 0;
      while i < |rt0|
        invariant 0 <= i <= |rt0| <= |rt|
        invariant Pass(owner, network, rt0, 0, State(rt0, called0, visited0)) ==
                  Pass(owner, network, rt0, i, State(rt, called, visited))
      {
        if IsEntryBridge(rt0[i]) && !IsBridgeCalled(rt0[i], called) {
          ReadGrows(owner, network, State(rt, called, visited), rt0[i].eid, rt0[i].addr, i);
          rt, called := ReadRoutingTable(network, rt, called, rt0[i].eid, rt0[i].addr, i, visited);
          visited := visited + [(rt0[i].eid, rt0[i].addr)];
        }
        i := i + 1;
      }
    }

    /** One refresh of the routing table. */
    method UpdateRoutingTable(network: Network, outcomes: Outcomes)
      modifies `routingTable, `endpointInterface, `msgTypeInterface, `uuidInterface, `vendorIdInterface
      ensures !discovered ==> routingTable == old(routingTable) && Registered() == old(Registered())
      ensures discovered ==>
                && routingTable == Refresh(owner, network).rt
                && Registered() == Update(old(Registered()), old(routingTable), routingTable, ownEid, outcomes)
    {
      if !discovered {
        return;
      }
      hide Discover, Refresh, Pass, ReadTable, Update, TakeNew, DropGone, Uncalled, AllBridgesCalled;
      ghost var visited := [] + [(owner.eid, owner.addr)];
      RefreshSteps(owner, network);
      var rt, called := ReadRoutingTable(network, [], [], owner.eid, owner.addr, 0, []);
      while !AllBridgesCalled(rt, called)
        invariant unchanged(this)
        invariant Discover(owner, network, State(rt, called, visited)) == Refresh(owner, network)
        decreases Uncalled(called)
      {
        DiscoverStep(owner, network, State(rt, called, visited));
        rt, called, visited := ProcessBridgeEntries(network, rt, called, visited);
      }
      DiscoverStep(owner, network, State(rt, called, visited));
      UpdateSteps(Registered(), routingTable, rt, ownEid, outcomes);
      if rt != routingTable {
        ProcessRoutingTableChanges(rt, outcomes);
        routingTable := rt;
      }
    }

    /** Unregisters rows that went away, then registers new rows other than the own one. */
    method ProcessRoutingTableChanges(newTable: seq<Row>, outcomes: Outcomes)
      modifies `endpointInterface, `msgTypeInterface, `uuidInterface, `vendorIdInterface
      ensures Registered()
           == TakeNew(DropGone(old(Registered()), routingTable, newTable, 0),
                      routingTable, newTable, ownEid, outcomes, 0)
    {
      var i := 0;
      while i < |routingTable|
        invariant 0 <= i <= |routingTable|
        invariant DropGone(Registered(), routingTable, newTable, i) ==
                  DropGone(old(Registered()), routingTable, newTable, 0)
      {
        if routingTable[i] !in newTable {
          UnregisterEndpoint(routingTable[i].eid);
        }
        i := i + 1;
      }
      ghost var dropped := Registered();
      i := 0;
      while i < |newTable|
        invariant 0 <= i <= |newTable|
        invariant TakeNew(Registered(), routingTable, newTable, ownEid, outcomes, i)
               == TakeNew(dropped, routingTable, newTable, ownEid, outcomes, 0)
      {
        var row := newTable[i];
        if row !in routingTable && row.eid != ownEid {
          var registered := RegisterEndpoint(row.eid, outcomes(i));
        }
        i := i + 1;
      }
    }

    method RegisterEndpoint(eid: byte, outcome: Option<Info>) returns (registered: bool)
      modifies `endpointInterface, `msgTypeInterface, `uuidInterface, `vendorIdInterface
      ensures Registered() == Register(old(Registered()), eid, outcome)
      ensures registered == (outcome.Some? && eid !in old(endpointInterface))
    {
      if outcome.None? {
        return false;
      }
      registered := PopulateEndpointProperties(eid, outcome.value);
    }

    method PopulateEndpointProperties(eid: byte, info: Info) returns (added: bool)
      modifies `endpointInterface, `msgTypeInterface, `uuidInterface, `vendorIdInterface
      ensures Registered() == Populate(old(Registered()), eid, info)
      ensures added == (eid !in old(endpointInterface)) && eid in endpointInterface
      ensures forall k | k != eid :: SameAt(old(Registered()), Registered(), k)
    {
      if eid in endpointInterface {
        return false;
      }
      endpointInterface := Emplace(endpointInterface, eid, info);
      msgTypeInterface := Emplace(msgTypeInterface, eid, info);
      uuidInterface := Emplace(uuidInterface, eid, info);
      if info.vdpci {
        vendorIdInterface := Emplace(vendorIdInterface, eid, info);
      }
      return true;
    }

    method UnregisterEndpoint(eid: byte)
      modifies `endpointInterface, `msgTypeInterface, `uuidInterface, `vendorIdInterface
      ensures Registered() == Unregister(old(Registered()), eid)
      ensures eid !in endpointInterface && eid !in msgTypeInterface
      ensures eid !in uuidInterface && eid !in vendorIdInterface
      ensures forall k | k != eid :: SameAt(old(Registered()), Registered(), k)
    {
      endpointInterface := endpointInterface - {eid};
      msgTypeInterface := msgTypeInterface - {eid};
      uuidInterface := uuidInterface - {eid};
      vendorIdInterface := vendorIdInterface - {eid};
    }
  }

  lemma RefreshSteps(o: Owner, n: Network)
    ensures Refresh(o, n) == Discover(o, n, ReadTable(o, n, State([], [], []), o.eid, o.addr, 0))
  {
  }

  lemma DiscoverStep(o: Owner, n: Network, s: State)
    ensures AllBridgesCalled(s.rt, s.called) ==> Discover(o, n, s) == s
    ensures !AllBridgesCalled(s.rt, s.called) ==>
              var t := Pass(o, n, s.rt, 0, s);
              Discover(o, n, s) == Discover(o, n, t) && Uncalled(t.called) < Uncalled(s.called)
  {
    if !AllBridgesCalled(s.rt, s.called) {
      RoundCallsNewPair(o, n, s);
    }
  }

  lemma UpdateSteps(f: Interfaces, old_: seq<Row>, new_: seq<Row>, own: byte, outcomes: Outcomes)
    ensures Update(f, old_, new_, own, outcomes) ==
            if new_ == old_ then f else TakeNew(DropGone(f, old_, new_, 0), old_, new_, own, outcomes, 0)
  {
  }
}
