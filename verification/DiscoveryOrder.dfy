/** When the exchange with one device ends, and where a pass over the bridges puts what it finds. */
module DiscoveryOrder {
  import opened Bytes
  import opened Discovery
  import opened DiscoveryLaws
  import opened Wrappers

  // ----- the end of an exchange -----

  /** The handle of the `k`-th request after one with `handle`, if the exchange gets there: each response names the next
      handle, and the exchange ends at a response that names none or at a request that fails. */
  function HandleOf(n: Network, sent: nat, eid: byte, addr: u16, handle: byte, k: nat): Option<byte>
    decreases k
  {
    if k == 0 then Some(handle)
    else
      match n(sent, eid, addr, handle)
      case None => None
      case Some(reply) =>
        if reply.nextHandle == 0xFF then None else HandleOf(n, sent + 1, eid, addr, reply.nextHandle, k - 1)
  }

  /** `made` requests are as many as the exchange has handles for, up to `most`. */
  ghost predicate AsManyAsAsked(n: Network, sent: nat, eid: byte, addr: u16, handle: byte, made: int, most: nat) {
    && 0 < made <= most
    && (forall k | 0 <= k < made :: HandleOf(n, sent, eid, addr, handle, k).Some?)
    && (made < most ==> HandleOf(n, sent, eid, addr, handle, made).None?)
  }

  lemma OneMore(n: Network, sent: nat, eid: byte, addr: u16, handle: byte, made: int, most: nat)
    requires 0 < most
    requires n(sent, eid, addr, handle).Some? && n(sent, eid, addr, handle).value.nextHandle != 0xFF
    requires AsManyAsAsked(n, sent + 1, eid, addr, n(sent, eid, addr, handle).value.nextHandle, made, most - 1)
    ensures AsManyAsAsked(n, sent, eid, addr, handle, made + 1, most)
  {
    var next := n(sent, eid, addr, handle).value.nextHandle;
    forall k | 0 <= k < made + 1 ensures HandleOf(n, sent, eid, addr, handle, k).Some? {
      assert k > 0 ==> HandleOf(n, sent, eid, addr, handle, k) == HandleOf(n, sent + 1, eid, addr, next, k - 1);
    }
  }

  lemma {:induction false} RequestsAsAsked(o: Owner, n: Network, s: State, at: nat, eid: byte, addr: u16, handle: byte,
                                           count: byte)
    requires eid != o.eid ==> at <= |s.rt|
    requires handle != 0xFF && count != 0xFF
    ensures var t := Requests(o, n, s, at, eid, addr, handle, count);
            AsManyAsAsked(n, |s.called|, eid, addr, handle, |t.called| - |s.called|, 0xFF - count)
    decreases 0xFF - count
  {
    hide TakeEntries;
    var sent := s.(called := s.called + [(eid, addr)]);
    match n(|s.called|, eid, addr, handle)
    case None =>
    case Some(reply) =>
      var (rt', at') := TakeEntries(o, s.rt, at, reply.entries, eid, addr);
      var next := sent.(rt := rt');
      if reply.nextHandle != 0xFF && count + 1 != 0xFF {
        RequestsAsAsked(o, n, next, at', eid, addr, reply.nextHandle, count + 1);
        var t := Requests(o, n, next, at', eid, addr, reply.nextHandle, count + 1);
        OneMore(n, |s.called|, eid, addr, handle, |t.called| - |next.called|, 0xFF - count);
      }
  }

  /** How many requests one device gets: one for each handle of the exchange, which starts at 0, but at most 255. */
  lemma ReadAsksEveryHandle(o: Owner, n: Network, s: State, eid: byte, addr: u16, entryIndex: nat)
    requires eid != o.eid ==> entryIndex < |s.rt|
    ensures var t := ReadTable(o, n, s, eid, addr, entryIndex);
            AsManyAsAsked(n, |s.called|, eid, addr, 0, |t.called| - |s.called|, 0xFF)
  {
    hide Requests, AsManyAsAsked;
    RequestsAsAsked(o, n, s.(visited := s.visited + [(eid, addr)]), entryIndex + 1, eid, addr, 0, 0);
  }

  // ----- where the rows go -----

  /** No EID occurs in both. */
  ghost predicate Apart(a: seq<Row>, b: seq<Row>) {
    forall i, j | 0 <= i < |a| && 0 <= j < |b| :: a[i].eid != b[j].eid
  }

  /** What a bridge reports goes into the table in one piece, under the bridge's address and with new EIDs. */
  ghost predicate InsertedAt(before: seq<Row>, after: seq<Row>, at: nat, addr: u16) {
    && at <= |before| <= |after|
    && var k := |after| - |before|;
       && after[..at] == before[..at] && after[at + k..] == before[at..]
       && (forall i | at <= i < at + k :: after[i].addr == addr)
       && Apart(after[at..at + k], before)
  }

  lemma InsertedTwice(a: seq<Row>, b: seq<Row>, c: seq<Row>, at: nat, mid: nat, addr: u16)
    requires InsertedAt(a, b, at, addr) && mid == at + |b| - |a| && InsertedAt(b, c, mid, addr)
    ensures InsertedAt(a, c, at, addr)
  {
    var j, k := |b| - |a|, |c| - |b|;
    assert c[..at] == c[..mid][..at] == b[..mid][..at] == b[..at];
    assert c[at + j + k..] == c[mid + k..] == b[mid..] == a[at..];
    forall i | at <= i < at + j + k ensures c[i].addr == addr {
      if i < mid {
        assert c[i] == c[..mid][i] == b[i];
      }
    }
    assert c[at..at + j + k] == b[at..mid] + c[mid..mid + k] by {
      assert c[..mid] == b[..mid];
    }
    ApartFromMore(c[mid..mid + k], a, b, at, j);
    ApartTogether(b[at..mid], c[mid..mid + k], a);
  }

  lemma ApartTogether(a: seq<Row>, b: seq<Row>, c: seq<Row>)
    requires Apart(a, c) && Apart(b, c)
    ensures Apart(a + b, c)
  {
  }

  lemma ApartFromMore(s: seq<Row>, a: seq<Row>, b: seq<Row>, at: nat, j: nat)
    requires at <= |a| && |b| == |a| + j && b[..at] == a[..at] && b[at + j..] == a[at..] && Apart(s, b)
    ensures Apart(s, a)
  {
    forall i, l | 0 <= i < |s| && 0 <= l < |a| ensures s[i].eid != a[l].eid {
      if l < at {
        assert a[l] == a[..at][l] == b[l];
      } else {
        assert a[l] == a[at..][l - at] == b[l + j];
      }
    }
  }

  lemma {:induction false} EntriesInsert(o: Owner, rt: seq<Row>, at: nat, es: seq<Reported>, eid: byte, addr: u16)
    requires eid != o.eid && at <= |rt|
    ensures var (rt', at') := TakeEntries(o, rt, at, es, eid, addr);
            InsertedAt(rt, rt', at, addr) && at' == at + |rt'| - |rt|
    decreases es
  {
    if es != [] {
      var (r1, at1) := TakeEntry(o, rt, at, es[0], eid, addr);
      var (r2, at2) := TakeEntries(o, r1, at1, es[1..], eid, addr);
      EntriesInsert(o, r1, at1, es[1..], eid, addr);
      assert InsertedAt(rt, r1, at, addr);
      InsertedTwice(rt, r1, r2, at, at1, addr);
    }
  }

  lemma {:induction false} RequestsInsert(o: Owner, n: Network, s: State, at: nat, eid: byte, addr: u16, handle: byte,
                                          count: byte)
    requires eid != o.eid && at <= |s.rt|
    ensures InsertedAt(s.rt, Requests(o, n, s, at, eid, addr, handle, count).rt, at, addr)
    decreases 0xFF - count
  {
    if handle != 0xFF && count != 0xFF {
      var sent := s.(called := s.called + [(eid, addr)]);
      match n(|s.called|, eid, addr, handle)
      case None =>
      case Some(reply) =>
        var (rt', at') := TakeEntries(o, s.rt, at, reply.entries, eid, addr);
        EntriesInsert(o, s.rt, at, reply.entries, eid, addr);
        RequestsInsert(o, n, sent.(rt := rt'), at', eid, addr, reply.nextHandle, count + 1);
        var t := Requests(o, n, sent.(rt := rt'), at', eid, addr, reply.nextHandle, count + 1);
        InsertedTwice(s.rt, rt', t.rt, at, at', addr);
    }
  }

  /** What a pass does at the row `r`, the `i`th of the table at its start. */
  ghost function PassRow(o: Owner, n: Network, r: Row, i: nat, u: State): (v: State)
    requires i < |u.rt|
    ensures |u.rt| <= |v.rt|
  {
    if !IsEntryBridge(r) || IsBridgeCalled(r, u.called) then u
    else
      ReadGrows(o, n, u, r.eid, r.addr, i);
      ReadTable(o, n, u, r.eid, r.addr, i)
  }

  /** A pass that has come to row `i`. */
  ghost function PassUntil(o: Owner, n: Network, rt: seq<Row>, i: nat, s: State): (u: State)
    requires i <= |rt| <= |s.rt|
    ensures |rt| <= |u.rt|
  {
    if i == 0 then s else PassRow(o, n, rt[i - 1], i - 1, PassUntil(o, n, rt, i - 1, s))
  }

  /** What is left of the pass is the pass from there. */
  lemma {:induction false} PassGoesOn(o: Owner, n: Network, rt: seq<Row>, i: nat, s: State)
    requires i <= |rt| <= |s.rt|
    ensures Pass(o, n, rt, 0, s) == Pass(o, n, rt, i, PassUntil(o, n, rt, i, s))
  {
    hide ReadTable;
    if i > 0 {
      PassGoesOn(o, n, rt, i - 1, s);
    }
  }

  /** Before row `i` is read: `d` rows were inserted among the first ones, the rows still to come follow in order and
      with EIDs of their own, and with no insertion the table only grew at its end. */
  ghost predicate Shifted(rt: seq<Row>, now: seq<Row>, i: nat, d: nat) {
    && i <= |rt| && |rt| + d <= |now| && now[i + d..|rt| + d] == rt[i..] && (d == 0 ==> rt <= now)
    && Apart(now[..i + d], rt[i..])
  }

  lemma {:induction false} OwnerEntriesAppend(o: Owner, rt: seq<Row>, at: nat, es: seq<Reported>, addr: u16)
    ensures rt <= TakeEntries(o, rt, at, es, o.eid, addr).0
    decreases es
  {
    if es != [] {
      var (r1, at1) := TakeEntry(o, rt, at, es[0], o.eid, addr);
      OwnerEntriesAppend(o, r1, at1, es[1..], addr);
    }
  }

  lemma {:induction false} OwnerAppends(o: Owner, n: Network, s: State, at: nat, addr: u16, handle: byte, count: byte)
    ensures s.rt <= Requests(o, n, s, at, o.eid, addr, handle, count).rt
    decreases 0xFF - count
  {
    if handle != 0xFF && count != 0xFF {
      match n(|s.called|, o.eid, addr, handle)
      case None =>
      case Some(reply) =>
        var (rt', at') := TakeEntries(o, s.rt, at, reply.entries, o.eid, addr);
        OwnerEntriesAppend(o, s.rt, at, reply.entries, addr);
        var sent := s.(called := s.called + [(o.eid, addr)], rt := rt');
        OwnerAppends(o, n, sent, at', addr, reply.nextHandle, count + 1);
    }
  }

  lemma ReadInserts(o: Owner, n: Network, s: State, eid: byte, addr: u16, i: nat)
    requires i < |s.rt|
    ensures eid != o.eid ==> InsertedAt(s.rt, ReadTable(o, n, s, eid, addr, i).rt, i + 1, addr)
    ensures eid == o.eid ==> s.rt <= ReadTable(o, n, s, eid, addr, i).rt
  {
    var from := s.(visited := s.visited + [(eid, addr)]);
    if eid == o.eid {
      OwnerAppends(o, n, from, i + 1, addr, 0, 0);
    } else {
      RequestsInsert(o, n, from, i + 1, eid, addr, 0, 0);
    }
  }

  lemma InsertedNothing(a: seq<Row>, b: seq<Row>, at: nat, addr: u16)
    requires InsertedAt(a, b, at, addr) && |a| == |b|
    ensures a == b
  {
    assert a == a[..at] + a[at..] && b == b[..at] + b[at..];
  }

  lemma RestShifted(rt: seq<Row>, now: seq<Row>, i: nat, d: nat)
    requires Shifted(rt, now, i, d) && i < |rt| && DistinctEids(rt)
    ensures now[i + d] == rt[i] && now[i + 1 + d..|rt| + d] == rt[i + 1..]
    ensures Apart(now[..i + 1], rt[i + 1..]) && Apart(now[i + 1..i + 1 + d], rt[i + 1..])
    ensures Apart(now[..i + 1 + d], rt[i + 1..])
  {
    assert now[i + d] == now[i + d..|rt| + d][0];
    assert now[i + 1 + d..|rt| + d] == now[i + d..|rt| + d][1..] == rt[i..][1..] == rt[i + 1..];
    var done, rest := now[..i + 1 + d], rt[i + 1..];
    forall k, j | 0 <= k < |done| && 0 <= j < |rest| ensures done[k].eid != rest[j].eid {
      if k < i + d {
        assert now[..i + d][k].eid != rt[i..][j + 1].eid;
      }
    }
    assert now[..i + 1] == now[..i + 1 + d][..i + 1];
    assert now[i + 1..i + 1 + d] == now[..i + 1 + d][i + 1..];
  }

  lemma ApartFromPart(s: seq<Row>, a: seq<Row>, from: nat, to: nat)
    requires Apart(s, a) && from <= to <= |a|
    ensures Apart(s, a[from..to])
  {
  }

  lemma ShiftedByInsertion(rt: seq<Row>, now: seq<Row>, then_: seq<Row>, i: nat, d: nat, addr: u16)
    requires Shifted(rt, now, i, d) && i < |rt| && InsertedAt(now, then_, i + 1, addr) && |now| < |then_|
    requires DistinctEids(rt)
    ensures Shifted(rt, then_, i + 1, d + |then_| - |now|)
  {
    hide Apart, DistinctEids;
    RestShifted(rt, now, i, d);
    var k, n := |then_| - |now|, |rt| - i - 1;
    assert then_[i + 1 + d + k..|rt| + d + k] == then_[i + 1 + k..][d..d + n];
    assert now[i + 1..][d..d + n] == now[i + 1 + d..|rt| + d];
    var inserted := then_[i + 1..i + 1 + k];
    ApartFromPart(inserted, now, i + 1 + d, |rt| + d);
    assert then_[i + 1 + k..i + 1 + d + k] == then_[i + 1 + k..][..d] == now[i + 1..][..d] == now[i + 1..i + 1 + d];
    assert then_[..i + 1 + d + k] == now[..i + 1] + inserted + now[i + 1..i + 1 + d];
    ApartTogether(now[..i + 1], inserted, rt[i + 1..]);
    ApartTogether(now[..i + 1] + inserted, now[i + 1..i + 1 + d], rt[i + 1..]);
  }

  lemma ShiftedByAppending(rt: seq<Row>, now: seq<Row>, then_: seq<Row>, i: nat, d: nat)
    requires Shifted(rt, now, i, d) && i < |rt| && now <= then_ && DistinctEids(rt)
    ensures Shifted(rt, then_, i + 1, d)
  {
    hide Apart, DistinctEids;
    RestShifted(rt, now, i, d);
    assert then_[i + 1 + d..|rt| + d] == now[i + 1 + d..|rt| + d];
    assert then_[..i + 1 + d] == now[..i + 1 + d];
  }

  lemma ShiftOn(rt: seq<Row>, now: seq<Row>, then_: seq<Row>, i: nat, d: nat, addr: u16) returns (e: nat)
    requires Shifted(rt, now, i, d) && i < |rt| && (InsertedAt(now, then_, i + 1, addr) || now <= then_)
    requires DistinctEids(rt)
    ensures Shifted(rt, then_, i + 1, e)
  {
    hide Apart, DistinctEids, Shifted;
    if now <= then_ {
      e := d;
      ShiftedByAppending(rt, now, then_, i, d);
    } else {
      if |then_| == |now| {
        InsertedNothing(now, then_, i + 1, addr);
      }
      e := d + |then_| - |now|;
      ShiftedByInsertion(rt, now, then_, i, d, addr);
    }
  }

  lemma ShiftedAtStart(rt: seq<Row>)
    ensures Shifted(rt, rt, 0, 0)
  {
  }

  lemma {:induction false} PassShifts(o: Owner, n: Network, rt: seq<Row>, i: nat, s: State) returns (d: nat)
    requires i <= |rt| && s.rt == rt && DistinctEids(rt)
    ensures Shifted(rt, PassUntil(o, n, rt, i, s).rt, i, d)
  {
    hide ReadTable, IsEntryBridge, IsBridgeCalled, Shifted, InsertedAt, DistinctEids;
    if i == 0 {
      d := 0;
      ShiftedAtStart(rt);
    } else {
      var u, r := PassUntil(o, n, rt, i - 1, s), rt[i - 1];
      d := PassShifts(o, n, rt, i - 1, s);
      ReadInserts(o, n, u, r.eid, r.addr, i - 1);
      d := ShiftOn(rt, u.rt, PassRow(o, n, r, i - 1, u).rt, i - 1, d, r.addr);
    }
  }

  /** The rows found behind a bridge go in one piece to the position after the bridge's index at the start of the pass.
      If its EIDs were distinct, that is right behind the bridge exactly when nothing was inserted earlier in the pass;
      in front of the bridge otherwise. */
  lemma InsertsRightBehindIff(o: Owner, n: Network, rt: seq<Row>, i: nat, s: State)
    requires i < |rt| && s.rt == rt && rt[i].eid != o.eid && DistinctEids(rt)
    ensures var u := PassUntil(o, n, rt, i, s);
            var v := ReadTable(o, n, u, rt[i].eid, rt[i].addr, i);
            && InsertedAt(u.rt, v.rt, i + 1, rt[i].addr)
            && (v.rt[i] == rt[i] <==> rt <= u.rt)
            && (!(rt <= u.rt) ==> rt[i] in u.rt[i + 1..])
  {
    hide PassUntil, ReadTable;
    var u := PassUntil(o, n, rt, i, s);
    ReadInserts(o, n, u, rt[i].eid, rt[i].addr, i);
    var v := ReadTable(o, n, u, rt[i].eid, rt[i].addr, i);
    assert v.rt[i] == v.rt[..i + 1][i] == u.rt[i];
    var d := PassShifts(o, n, rt, i, s);
    if d > 0 {
      assert u.rt[i] == u.rt[..i + d][i] && rt[i] == rt[i..][0];
      assert u.rt[i + 1..][d - 1] == u.rt[i + d..|rt| + d][0] == rt[i];
    }
  }

  /** Two bridges with one endpoint each: the endpoint found behind the second one ends up in front of it. */
  lemma FoundBehindStandsBefore()
    ensures var b1, b2 := Row(2, 2, BRIDGE), Row(3, 3, BRIDGE);
            var n := (sent: nat, eid: byte, addr: u16, handle: byte) =>
                       Some(Reply(0xFF, [Reported(1, if eid == 2 then 4 else 5, true, ENDPOINT, addr)]));
            Pass(Owner(1, 1), n, [b1, b2], 0, State([b1, b2], [(1, 1)], [(1, 1)])).rt ==
            [b1, Row(4, 2, ENDPOINT), Row(5, 3, ENDPOINT), b2]
  {
    var o, b1, b2 := Owner(1, 1), Row(2, 2, BRIDGE), Row(3, 3, BRIDGE);
    var n := (sent: nat, eid: byte, addr: u16, handle: byte) =>
               Some(Reply(0xFF, [Reported(1, if eid == 2 then 4 else 5, true, ENDPOINT, addr)]));
    var e1, e2 := Reported(1, 4, true, ENDPOINT, 2), Reported(1, 5, true, ENDPOINT, 3);
    var r1, r2 := Row(4, 2, ENDPOINT), Row(5, 3, ENDPOINT);
    var s0 := State([b1, b2], [(1, 1)], [(1, 1)]);
    TakeOne(o, [b1, b2], 1, e1, 2, 2);
    assert InsertRow([b1, b2], 1, r1) == [b1, r1, b2];
    var s1 := State([b1, r1, b2], [(1, 1), (2, 2)], [(1, 1), (2, 2)]);
    assert ReadTable(o, n, s0, 2, 2, 0) == s1;
    TakeOne(o, [b1, r1, b2], 2, e2, 3, 3);
    assert InsertRow([b1, r1, b2], 2, r2) == [b1, r1, r2, b2];
    var s2 := State([b1, r1, r2, b2], [(1, 1), (2, 2), (3, 3)], [(1, 1), (2, 2), (3, 3)]);
    assert ReadTable(o, n, s1, 3, 3, 1) == s2;
    assert Pass(o, n, [b1, b2], 2, s2) == s2;
    assert Pass(o, n, [b1, b2], 1, s1) == Pass(o, n, [b1, b2], 2, s2);
  }
}
