/** Endpoint interfaces and the difference between two routing tables: what is registered after any
    run of routing table updates. */
module Registration {
  import opened Bytes
  import opened Discovery
  import opened DiscoveryLaws
  import opened Wrappers

  /** What an endpoint reports about itself when it answers. */
  datatype Info = Info(uuid: string, vdpci: bool)

  /** The four interface maps, by EID. */
  datatype Interfaces = Interfaces(endpoint: map<byte, Info>, msgType: map<byte, Info>, uuid: map<byte, Info>,
                                   vendorId: map<byte, Info>)

  /** What registering row `i` of the new table gives; no info stands for an endpoint that does not answer. */
  type Outcomes = nat -> Option<Info>

  /** Inserting without overwriting. */
  function Emplace(m: map<byte, Info>, eid: byte, info: Info): map<byte, Info> {
    if eid in m then m else m[eid := info]
  }

  function Populate(f: Interfaces, eid: byte, info: Info): Interfaces {
    if eid in f.endpoint then f
    else
      Interfaces(Emplace(f.endpoint, eid, info), Emplace(f.msgType, eid, info), Emplace(f.uuid, eid, info),
                 if info.vdpci then Emplace(f.vendorId, eid, info) else f.vendorId)
  }

  function Register(f: Interfaces, eid: byte, outcome: Option<Info>): Interfaces {
    match outcome
    case None => f
    case Some(info) => Populate(f, eid, info)
  }

  function Unregister(f: Interfaces, eid: byte): Interfaces {
    Interfaces(f.endpoint - {eid}, f.msgType - {eid}, f.uuid - {eid}, f.vendorId - {eid})
  }

  /** The first loop over the old table, from row `i`. */
  function DropGone(f: Interfaces, old_: seq<Row>, new_: seq<Row>, i: nat): Interfaces
    requires i <= |old_|
    decreases |old_| - i
  {
    if i == |old_| then f
    else DropGone(if old_[i] in new_ then f else Unregister(f, old_[i].eid), old_, new_, i + 1)
  }

  /** The second loop over the new table, from row `i`. */
  function TakeNew(f: Interfaces, old_: seq<Row>, new_: seq<Row>, own: byte, outcomes: Outcomes, i: nat): Interfaces
    requires i <= |new_|
    decreases |new_| - i
  {
    if i == |new_| then f
    else
      TakeNew(if new_[i] in old_ || new_[i].eid == own then f else Register(f, new_[i].eid, outcomes(i)),
              old_, new_, own, outcomes, i + 1)
  }

  /** One update: nothing is done when the table read equals the table held. */
  function Update(f: Interfaces, old_: seq<Row>, new_: seq<Row>, own: byte, outcomes: Outcomes): Interfaces {
    if new_ == old_ then f
    else TakeNew(DropGone(f, old_, new_, 0), old_, new_, own, outcomes, 0)
  }

  // ----- the interface maps agree -----

  ghost predicate MapsAgree(f: Interfaces) {
    && f.endpoint.Keys == f.msgType.Keys == f.uuid.Keys
    && forall k :: k in f.vendorId <==> k in f.endpoint && f.endpoint[k].vdpci
  }

  ghost function Eids(rt: seq<Row>): set<byte> {
    set r | r in rt :: r.eid
  }

  lemma {:induction false} DropGoneKeys(f: Interfaces, old_: seq<Row>, new_: seq<Row>, i: nat)
    requires i <= |old_|
    ensures var g := DropGone(f, old_, new_, i);
            && (MapsAgree(f) ==> MapsAgree(g))
            && (forall k :: k in g.endpoint <==>
                  k in f.endpoint && forall j | i <= j < |old_| :: old_[j] !in new_ ==> old_[j].eid != k)
    decreases |old_| - i
  {
    if i < |old_| {
      DropGoneKeys(if old_[i] in new_ then f else Unregister(f, old_[i].eid), old_, new_, i + 1);
    }
  }

  lemma {:induction false} TakeNewKeys(f: Interfaces, old_: seq<Row>, new_: seq<Row>, own: byte, outcomes: Outcomes,
                                       i: nat)
    requires i <= |new_|
    ensures var g := TakeNew(f, old_, new_, own, outcomes, i);
            && (MapsAgree(f) ==> MapsAgree(g))
            && (forall k :: k in g.endpoint <==>
                  k in f.endpoint
                  || exists j ::
                       i <= j < |new_| && new_[j] !in old_ && new_[j].eid == k && k != own && outcomes(j).Some?)
    decreases |new_| - i
  {
    if i < |new_| {
      var f' := if new_[i] in old_ || new_[i].eid == own then f else Register(f, new_[i].eid, outcomes(i));
      PopulateKeys(f, new_[i].eid, outcomes(i));
      TakeNewKeys(f', old_, new_, own, outcomes, i + 1);
    }
  }

  lemma PopulateKeys(f: Interfaces, eid: byte, outcome: Option<Info>)
    ensures var g := Register(f, eid, outcome);
            && (MapsAgree(f) ==> MapsAgree(g))
            && (forall k :: k in g.endpoint <==> k in f.endpoint || (k == eid && outcome.Some?))
  {
  }

  /** The interfaces of one endpoint are the same before and after. */
  ghost predicate SameAt(f: Interfaces, g: Interfaces, k: byte) {
    && (k in f.endpoint <==> k in g.endpoint) && (k in f.endpoint ==> f.endpoint[k] == g.endpoint[k])
    && (k in f.msgType <==> k in g.msgType) && (k in f.msgType ==> f.msgType[k] == g.msgType[k])
    && (k in f.uuid <==> k in g.uuid) && (k in f.uuid ==> f.uuid[k] == g.uuid[k])
    && (k in f.vendorId <==> k in g.vendorId) && (k in f.vendorId ==> f.vendorId[k] == g.vendorId[k])
  }

  /** A new endpoint gets its interfaces, a registered one keeps its old ones, nobody else's change, and the maps stay
      in agreement; unregistering the new endpoint undoes it all. */
  lemma PopulateAdds(f: Interfaces, eid: byte, info: Info)
    requires MapsAgree(f)
    ensures var g := Populate(f, eid, info);
            && MapsAgree(g) && g.endpoint.Keys == f.endpoint.Keys + {eid}
            && g.endpoint[eid] == (if eid in f.endpoint then f.endpoint[eid] else info)
            && (eid in f.endpoint ==> g == f)
            && (eid !in f.endpoint ==> g.msgType[eid] == g.uuid[eid] == info && (eid in g.vendorId <==> info.vdpci))
            && (forall k | k != eid :: SameAt(f, g, k))
            && (eid !in f.endpoint ==> Unregister(g, eid) == f)
  {
    var g := Populate(f, eid, info);
    if eid !in f.endpoint {
      assert eid !in f.msgType.Keys && eid !in f.uuid.Keys && eid !in f.vendorId;
      assert g.endpoint - {eid} == f.endpoint && g.msgType - {eid} == f.msgType;
      assert g.uuid - {eid} == f.uuid && g.vendorId - {eid} == f.vendorId;
    }
  }

  /** An unregistered endpoint has no interface left, nobody else's change, and the maps stay in agreement; registering
      it again adds its information to the others. */
  lemma UnregisterRemoves(f: Interfaces, eid: byte, info: Info)
    requires MapsAgree(f)
    ensures var g := Unregister(f, eid);
            && MapsAgree(g) && g.endpoint.Keys == f.endpoint.Keys - {eid}
            && eid !in g.msgType && eid !in g.uuid && eid !in g.vendorId
            && (forall k | k != eid :: SameAt(f, g, k))
            && Populate(g, eid, info).endpoint == f.endpoint[eid := info]
  {
    assert (f.endpoint - {eid})[eid := info] == f.endpoint[eid := info];
  }

  // ----- what is registered -----

  /** A row with the EID went away; a row with it is new; a row with it is new and its registration was answered. */
  ghost predicate Gone(old_: seq<Row>, new_: seq<Row>, eid: byte) {
    exists j :: 0 <= j < |old_| && old_[j] !in new_ && old_[j].eid == eid
  }

  ghost predicate Fresh(old_: seq<Row>, new_: seq<Row>, eid: byte) {
    exists j :: 0 <= j < |new_| && new_[j] !in old_ && new_[j].eid == eid
  }

  ghost predicate Answered(old_: seq<Row>, new_: seq<Row>, outcomes: Outcomes, eid: byte) {
    exists j :: 0 <= j < |new_| && new_[j] !in old_ && new_[j].eid == eid && outcomes(j).Some?
  }

  /** Who is registered after an update, for any tables, outcomes and endpoints registered before. */
  lemma UpdateKeys(f: Interfaces, old_: seq<Row>, new_: seq<Row>, own: byte, outcomes: Outcomes)
    ensures MapsAgree(f) ==> MapsAgree(Update(f, old_, new_, own, outcomes))
    ensures forall k :: k in Update(f, old_, new_, own, outcomes).endpoint <==>
                        (k in f.endpoint && !Gone(old_, new_, k)) || (k != own && Answered(old_, new_, outcomes, k))
  {
    if new_ != old_ {
      DropGoneKeys(f, old_, new_, 0);
      TakeNewKeys(DropGone(f, old_, new_, 0), old_, new_, own, outcomes, 0);
    }
  }

  /** An update keeps the maps in agreement and registers nothing outside the new table, whatever the outcomes. */
  lemma UpdateStaysInside(f: Interfaces, old_: seq<Row>, new_: seq<Row>, own: byte, outcomes: Outcomes)
    requires MapsAgree(f) && f.endpoint.Keys <= Eids(old_)
    ensures MapsAgree(Update(f, old_, new_, own, outcomes))
    ensures Update(f, old_, new_, own, outcomes).endpoint.Keys <= Eids(new_)
  {
    hide Update;
    UpdateKeys(f, old_, new_, own, outcomes);
    forall k | k in f.endpoint && !Gone(old_, new_, k) ensures k in Eids(new_) {
      var r :| r in old_ && r.eid == k;
      var j :| 0 <= j < |old_| && old_[j] == r;
      assert r in new_;
    }
  }

  /** Exactly when an update leaves all of the new table's EIDs except the own one registered: each of them was
      registered and lost no row, or got a new row whose registration was answered. */
  lemma UpdateRegistersTableIff(f: Interfaces, old_: seq<Row>, new_: seq<Row>, own: byte, outcomes: Outcomes)
    requires f.endpoint.Keys <= Eids(old_) - {own}
    ensures Update(f, old_, new_, own, outcomes).endpoint.Keys == Eids(new_) - {own} <==>
            forall e | e in Eids(new_) - {own} ::
              (e in f.endpoint && !Gone(old_, new_, e)) || Answered(old_, new_, outcomes, e)
  {
    hide Update;
    UpdateKeys(f, old_, new_, own, outcomes);
    var after := Update(f, old_, new_, own, outcomes).endpoint.Keys;
    forall k | k in after ensures k in Eids(new_) - {own} {
      if k in f.endpoint && !Gone(old_, new_, k) {
        var r :| r in old_ && r.eid == k;
        var j :| 0 <= j < |old_| && old_[j] == r;
        assert r in new_;
      }
    }
  }

  /** The condition on two tables alone: an EID that stays although a row with it went away has a new row. */
  ghost predicate Replaces(old_: seq<Row>, new_: seq<Row>, own: byte) {
    forall e | e in Eids(new_) - {own} && Gone(old_, new_, e) :: Fresh(old_, new_, e)
  }

  ghost predicate AllAnswer(new_: seq<Row>, outcomes: Outcomes) {
    forall i | 0 <= i < |new_| :: outcomes(i).Some?
  }

  /** With all of the old table registered and every registration answered, exactly the pairs of tables that satisfy the
      condition have all of the new table registered; and which endpoints are lost otherwise, which takes a repeated
      EID. */
  lemma AnsweredUpdateIff(f: Interfaces, old_: seq<Row>, new_: seq<Row>, own: byte, outcomes: Outcomes)
    requires f.endpoint.Keys == Eids(old_) - {own} && AllAnswer(new_, outcomes)
    ensures Update(f, old_, new_, own, outcomes).endpoint.Keys == Eids(new_) - {own} <==> Replaces(old_, new_, own)
    ensures forall e | e in Eids(new_) - {own} ::
              e !in Update(f, old_, new_, own, outcomes).endpoint <==> Gone(old_, new_, e) && !Fresh(old_, new_, e)
    ensures Replaces(old_, new_, own) || !DistinctEids(old_)
  {
    hide Update;
    UpdateRegistersTableIff(f, old_, new_, own, outcomes);
    UpdateKeys(f, old_, new_, own, outcomes);
    forall e | e in Eids(new_) - {own}
      ensures Answered(old_, new_, outcomes, e) <==> Fresh(old_, new_, e)
      ensures e in f.endpoint || Fresh(old_, new_, e)
      ensures Gone(old_, new_, e) && !Fresh(old_, new_, e) ==> !DistinctEids(old_)
    {
      if !Fresh(old_, new_, e) {
        KeptRow(old_, new_, e);
      }
    }
  }

  /** An EID without a new row has a row in both tables; if one of its rows went away, there are two. */
  lemma KeptRow(old_: seq<Row>, new_: seq<Row>, e: byte)
    requires e in Eids(new_) && !Fresh(old_, new_, e)
    ensures e in Eids(old_)
    ensures Gone(old_, new_, e) ==> !DistinctEids(old_)
  {
    var r :| r in new_ && r.eid == e;
    var j :| 0 <= j < |new_| && new_[j] == r;
    assert r in old_;
    var k :| 0 <= k < |old_| && old_[k] == r;
    if Gone(old_, new_, e) {
      var g :| 0 <= g < |old_| && old_[g] !in new_ && old_[g].eid == e;
      assert g != k;
    }
  }

  /** With distinct EIDs in the old table and every registration answered, exactly the new table's EIDs except the own
      one are registered. */
  lemma UpdateRegistersTable(f: Interfaces, old_: seq<Row>, new_: seq<Row>, own: byte, outcomes: Outcomes)
    requires f.endpoint.Keys == Eids(old_) - {own} && DistinctEids(old_) && AllAnswer(new_, outcomes)
    ensures Update(f, old_, new_, own, outcomes).endpoint.Keys == Eids(new_) - {own}
  {
    AnsweredUpdateIff(f, old_, new_, own, outcomes);
  }

  /** An endpoint that did not answer is not asked again while its row stays in the table. */
  lemma UnansweredStaysOut(f: Interfaces, old_: seq<Row>, new_: seq<Row>, own: byte, outcomes: Outcomes, r: Row)
    requires r in old_ && r in new_ && DistinctEids(new_) && r.eid !in f.endpoint
    ensures r.eid !in Update(f, old_, new_, own, outcomes).endpoint
  {
    UpdateKeys(f, old_, new_, own, outcomes);
    var k :| 0 <= k < |new_| && new_[k] == r;
    forall j | 0 <= j < |new_| && new_[j].eid == r.eid
      ensures new_[j] in old_
    {
      assert j == k;
    }
  }

  /** A repeated EID can lose an endpoint: one of two rows goes away, and the other stays in the table. */
  lemma RepeatedEidLosesEndpoint(eid: byte, own: byte, a: Row, b: Row, f: Interfaces, outcomes: Outcomes)
    requires a != b && a.eid == b.eid == eid != own
    ensures eid in Eids([a]) - {own} && eid !in Update(f, [a, b], [a], own, outcomes).endpoint
  {
    assert a in [a] && [a, b][1] !in [a] && a in [a, b];
    UpdateKeys(f, [a, b], [a], own, outcomes);
  }

  // ----- runs of updates -----

  const NOTHING := Interfaces(map[], map[], map[], map[])

  /** `states` after the updates to `tables`, from no table and nothing registered. */
  ghost predicate IsRun(tables: seq<seq<Row>>, outcomes: seq<Outcomes>, own: byte, states: seq<Interfaces>) {
    && |tables| == |states| == |outcomes| + 1
    && tables[0] == [] && states[0] == NOTHING
    && forall i | 0 <= i < |outcomes| :: states[i + 1] == Update(states[i], tables[i], tables[i + 1], own, outcomes[i])
  }

  /** Over every run of updates the maps agree and only endpoints of the table held are registered. */
  lemma {:induction false} RunsStayInside(tables: seq<seq<Row>>, outcomes: seq<Outcomes>, own: byte,
                                          states: seq<Interfaces>, k: nat)
    requires IsRun(tables, outcomes, own, states) && k < |states|
    ensures MapsAgree(states[k]) && states[k].endpoint.Keys <= Eids(tables[k])
  {
    if k > 0 {
      RunsStayInside(tables, outcomes, own, states, k - 1);
      UpdateStaysInside(states[k - 1], tables[k - 1], tables[k], own, outcomes[k - 1]);
      assert states[k - 1 + 1] == Update(states[k - 1], tables[k - 1], tables[k - 1 + 1], own, outcomes[k - 1]);
    }
  }

  /** Over a run with every registration answered, all tables are registered exactly, without the own EID, if and only
      if each table replaces the one before. */
  lemma {:induction false} RunsRegisterTableIff(tables: seq<seq<Row>>, outcomes: seq<Outcomes>, own: byte,
                                                states: seq<Interfaces>)
    requires IsRun(tables, outcomes, own, states)
    requires forall i | 0 <= i < |outcomes| :: AllAnswer(tables[i + 1], outcomes[i])
    ensures (forall k | 0 <= k < |states| :: states[k].endpoint.Keys == Eids(tables[k]) - {own}) <==>
            (forall i | 0 <= i < |outcomes| :: Replaces(tables[i], tables[i + 1], own))
    decreases |outcomes|
  {
    if outcomes == [] {
      assert states[0].endpoint.Keys == Eids(tables[0]) - {own};
    } else {
      var n := |outcomes| - 1;
      RunsRegisterTableIff(tables[..n + 1], outcomes[..n], own, states[..n + 1]);
      assert forall k | 0 <= k <= n :: tables[..n + 1][k] == tables[k] && states[..n + 1][k] == states[k];
      if states[n].endpoint.Keys == Eids(tables[n]) - {own} {
        AnsweredUpdateIff(states[n], tables[n], tables[n + 1], own, outcomes[n]);
      }
    }
  }

  /** So tables with distinct EIDs are always registered exactly. */
  lemma RunsRegisterTable(tables: seq<seq<Row>>, outcomes: seq<Outcomes>, own: byte, states: seq<Interfaces>, k: nat)
    requires IsRun(tables, outcomes, own, states) && k < |states|
    requires forall t | t in tables :: DistinctEids(t)
    requires forall i | 0 <= i < |outcomes| :: AllAnswer(tables[i + 1], outcomes[i])
    ensures states[k].endpoint.Keys == Eids(tables[k]) - {own}
  {
    forall i | 0 <= i < |outcomes| ensures Replaces(tables[i], tables[i + 1], own) {
      assert tables[i] in tables;
      DistinctIsReplaced(tables[i], tables[i + 1], own);
    }
    RunsRegisterTableIff(tables, outcomes, own, states);
  }

  lemma DistinctIsReplaced(old_: seq<Row>, new_: seq<Row>, own: byte)
    requires DistinctEids(old_)
    ensures Replaces(old_, new_, own)
  {
    forall e | e in Eids(new_) - {own} && Gone(old_, new_, e) ensures Fresh(old_, new_, e) {
      if !Fresh(old_, new_, e) {
        KeptRow(old_, new_, e);
      }
    }
  }

  /** Discovery and registration together: if in every refresh the rows kept from the bus owner are
      distinct and safe, then whatever all devices answer, exactly the last table's EIDs except the own
      one are registered. */
  lemma RefreshesRegisterTable(o: Owner, networks: seq<Network>, tables: seq<seq<Row>>, outcomes: seq<Outcomes>,
                               own: byte, states: seq<Interfaces>, k: nat)
    requires IsRun(tables, outcomes, own, states) && k < |states| && |networks| == |outcomes|
    requires forall i | 0 <= i < |networks| ::
               && tables[i + 1] == Refresh(o, networks[i]).rt
               && DistinctEids(AfterOwner(o, networks[i]).rt) && Safe(o, AfterOwner(o, networks[i]).rt)
    requires forall i | 0 <= i < |outcomes| :: AllAnswer(tables[i + 1], outcomes[i])
    ensures states[k].endpoint.Keys == Eids(tables[k]) - {own}
  {
    forall t | t in tables
      ensures DistinctEids(t)
    {
      var i :| 0 <= i < |tables| && tables[i] == t;
      if i > 0 {
        var n := networks[i - 1];
        assert tables[i - 1 + 1] == Refresh(o, n).rt;
        ReadGrows(o, n, State([], [], []), o.eid, o.addr, 0);
        SafeRowsStayDistinct(o, n, AfterOwner(o, n));
      }
    }
    RunsRegisterTable(tables, outcomes, own, states, k);
  }
}
