/** What the interfaces of a registered endpoint say about it: what it answered when it was registered. */
module RegistrationInfo {
  import opened Bytes
  import opened Discovery
  import opened DiscoveryLaws
  import opened Registration
  import opened Wrappers

  /** The endpoint, type and UUID interfaces hold the information, and a vendor interface does exactly if the endpoint
      supports vendor messages. */
  ghost predicate Tells(f: Interfaces, e: byte, info: Info) {
    && e in f.endpoint && e in f.msgType && e in f.uuid
    && f.endpoint[e] == f.msgType[e] == f.uuid[e] == info
    && (e in f.vendorId <==> info.vdpci) && (e in f.vendorId ==> f.vendorId[e] == info)
  }

  ghost predicate AnsweredAt(old_: seq<Row>, new_: seq<Row>, outcomes: Outcomes, e: byte, j: int) {
    0 <= j < |new_| && new_[j] !in old_ && new_[j].eid == e && outcomes(j).Some?
  }

  /** Row `j` is the first new row with the EID whose registration was answered. */
  ghost predicate FirstAnswered(old_: seq<Row>, new_: seq<Row>, outcomes: Outcomes, e: byte, j: int) {
    AnsweredAt(old_, new_, outcomes, e, j) && forall m | 0 <= m < j :: !AnsweredAt(old_, new_, outcomes, e, m)
  }

  /** The interfaces hold what the first of its answered new rows gave. */
  ghost predicate TellsAnswer(f: Interfaces, old_: seq<Row>, new_: seq<Row>, outcomes: Outcomes, e: byte) {
    exists j :: FirstAnswered(old_, new_, outcomes, e, j) && Tells(f, e, outcomes(j).value)
  }

  lemma {:induction false} DropGoneKeepsOthers(f: Interfaces, old_: seq<Row>, new_: seq<Row>, i: nat, e: byte)
    requires i <= |old_|
    requires forall j | i <= j < |old_| && old_[j].eid == e :: old_[j] in new_
    ensures SameAt(f, DropGone(f, old_, new_, i), e)
    decreases |old_| - i
  {
    if i < |old_| {
      DropGoneKeepsOthers(if old_[i] in new_ then f else Unregister(f, old_[i].eid), old_, new_, i + 1, e);
    }
  }

  lemma PopulateTells(f: Interfaces, eid: byte, outcome: Option<Info>, e: byte)
    requires MapsAgree(f)
    ensures var g := Register(f, eid, outcome);
            && MapsAgree(g)
            && (e != eid || outcome.None? || e in f.endpoint ==> SameAt(f, g, e))
            && (e == eid && outcome.Some? && e !in f.endpoint ==> Tells(g, e, outcome.value))
  {
    assert e in f.msgType.Keys <==> e in f.endpoint.Keys;
    assert e in f.uuid.Keys <==> e in f.endpoint.Keys;
    PopulateKeys(f, eid, outcome);
  }

  lemma {:induction false} TakeNewTells(f: Interfaces, old_: seq<Row>, new_: seq<Row>, own: byte, outcomes: Outcomes,
                                        i: nat, e: byte)
    requires i <= |new_| && MapsAgree(f)
    requires forall m | 0 <= m < i && e != own && e !in f.endpoint :: !AnsweredAt(old_, new_, outcomes, e, m)
    ensures var g := TakeNew(f, old_, new_, own, outcomes, i);
            && (e in f.endpoint ==> SameAt(f, g, e))
            && (e !in f.endpoint && e in g.endpoint ==> TellsAnswer(g, old_, new_, outcomes, e))
    decreases |new_| - i
  {
    hide MapsAgree, Register, Tells;
    if i < |new_| {
      var row := new_[i];
      var next := if row in old_ || row.eid == own then f else Register(f, row.eid, outcomes(i));
      PopulateTells(f, row.eid, outcomes(i), e);
      TakeNewTells(next, old_, new_, own, outcomes, i + 1, e);
      if e !in f.endpoint && e in next.endpoint {
        TellsPart(next, e, outcomes(i).value);
        assert FirstAnswered(old_, new_, outcomes, e, i);
        SameTells(next, TakeNew(f, old_, new_, own, outcomes, i), e, outcomes(i).value);
      }
    }
  }

  lemma TellsPart(f: Interfaces, e: byte, info: Info)
    ensures Tells(f, e, info) ==> e in f.endpoint
  {
  }

  lemma SameTells(f: Interfaces, g: Interfaces, e: byte, info: Info)
    requires Tells(f, e, info) && SameAt(f, g, e)
    ensures Tells(g, e, info)
  {
  }

  lemma SameTellsAnswer(f: Interfaces, g: Interfaces, old_: seq<Row>, new_: seq<Row>, outcomes: Outcomes, e: byte)
    requires TellsAnswer(f, old_, new_, outcomes, e) && SameAt(f, g, e)
    ensures TellsAnswer(g, old_, new_, outcomes, e)
  {
    hide Tells, SameAt;
    var j :| FirstAnswered(old_, new_, outcomes, e, j) && Tells(f, e, outcomes(j).value);
    SameTells(f, g, e, outcomes(j).value);
  }

  /** After an update, a registered endpoint that was registered before and lost no row has all its interfaces as they
      were; any other one has those that the first answer of its new rows gives. */
  lemma UpdateTells(f: Interfaces, old_: seq<Row>, new_: seq<Row>, own: byte, outcomes: Outcomes, e: byte)
    requires MapsAgree(f) && e in Update(f, old_, new_, own, outcomes).endpoint
    ensures var g := Update(f, old_, new_, own, outcomes);
            if e in f.endpoint && !Gone(old_, new_, e) then SameAt(f, g, e)
            else TellsAnswer(g, old_, new_, outcomes, e)
  {
    if new_ != old_ {
      var dropped := DropGone(f, old_, new_, 0);
      DropGoneKeys(f, old_, new_, 0);
      if e in f.endpoint && !Gone(old_, new_, e) {
        DropGoneKeepsOthers(f, old_, new_, 0, e);
      }
      TakeNewTells(dropped, old_, new_, own, outcomes, 0, e);
    } else {
      assert !Gone(old_, new_, e);
    }
  }

  /** Since update `i` the endpoint has been registered and lost no row. */
  ghost predicate StaysSince(tables: seq<seq<Row>>, states: seq<Interfaces>, i: nat, k: nat, e: byte)
    requires k < |states| == |tables|
  {
    && (forall m | i < m <= k :: e in states[m].endpoint)
    && (forall m | i < m < k :: !Gone(tables[m], tables[m + 1], e))
  }

  /** In every state of every run a registered endpoint's interfaces hold what it answered in the update that registered
      it, since when it has been registered without losing a row. */
  lemma {:induction false} RunsTellTheAnswer(tables: seq<seq<Row>>, outcomes: seq<Outcomes>, own: byte,
                                             states: seq<Interfaces>, k: nat, e: byte)
    requires IsRun(tables, outcomes, own, states) && k < |states| && e in states[k].endpoint
    ensures exists i | 0 <= i < k ::
              TellsAnswer(states[k], tables[i], tables[i + 1], outcomes[i], e) && StaysSince(tables, states, i, k, e)
  {
    hide TellsAnswer, SameAt, MapsAgree, Update, Gone;
    if k > 0 {
      var p := k - 1;
      RunsStayInside(tables, outcomes, own, states, p);
      assert states[p + 1] == Update(states[p], tables[p], tables[p + 1], own, outcomes[p]);
      UpdateTells(states[p], tables[p], tables[p + 1], own, outcomes[p], e);
      if e in states[p].endpoint && !Gone(tables[p], tables[p + 1], e) {
        RunsTellTheAnswer(tables, outcomes, own, states, p, e);
        var i :| 0 <= i < p && TellsAnswer(states[p], tables[i], tables[i + 1], outcomes[i], e)
                 && StaysSince(tables, states, i, p, e);
        SameTellsAnswer(states[p], states[k], tables[i], tables[i + 1], outcomes[i], e);
        assert StaysSince(tables, states, i, k, e);
      } else {
        assert StaysSince(tables, states, p, k, e);
      }
    }
  }
}
