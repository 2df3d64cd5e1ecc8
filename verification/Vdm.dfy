/** Vendor-defined message support: the database of vendors, the responder, and the enumeration that reads it out. */
module Vdm {
  import opened Bytes

  const NO_MORE_SETS: byte := 0xFF

  datatype VdmSet = VdmSet(vendorId: u16, commandSet: u16, format: byte)

  function SwapBytes(n: u16): (m: u16)
    ensures m % 0x100 == n / 0x100 && m / 0x100 == n % 0x100
  {
    n % 0x100 * 0x100 + n / 0x100
  }

  // ----- the database -----

  predicate DistinctVendors(db: seq<VdmSet>) {
    forall i, j | 0 <= i < j < |db| :: db[i].vendorId != db[j].vendorId
  }

  /** The index of a vendor, or the size of the database. */
  function IndexOf(db: seq<VdmSet>, vendorId: u16): (i: nat)
    ensures i <= |db| && (i < |db| ==> db[i].vendorId == vendorId)
    ensures forall j | 0 <= j < i :: db[j].vendorId != vendorId
  {
    if db == [] || db[0].vendorId == vendorId then 0 else 1 + IndexOf(db[1..], vendorId)
  }

  function Managed(db: seq<VdmSet>, vendorId: u16, commandSet: u16): seq<VdmSet> {
    var i := IndexOf(db, vendorId);
    if i == |db| then db + [VdmSet(vendorId, commandSet, 0)]
    else if db[i].commandSet != commandSet then db[i := VdmSet(vendorId, commandSet, 0)]
    else db
  }

  class VendorDatabase {
    var vdmSetDatabase: seq<VdmSet>

    constructor ()
      ensures vdmSetDatabase == []
    {
      vdmSetDatabase := [];
    }

    method ManageVdpciVersionInfo(vendorIdx: u16, cmdSetType: u16) returns (ok: bool)
      modifies this
      ensures ok && vdmSetDatabase == Managed(old(vdmSetDatabase), vendorIdx, cmdSetType)
    {
      var i := 0;
      while i < |vdmSetDatabase| && vdmSetDatabase[i].vendorId != vendorIdx
        invariant 0 <= i <= IndexOf(vdmSetDatabase, vendorIdx) && unchanged(this)
      {
        i := i + 1;
      }
      if i == |vdmSetDatabase| {
        vdmSetDatabase := vdmSetDatabase + [VdmSet(vendorIdx, cmdSetType, 0)];
      } else if vdmSetDatabase[i].commandSet != cmdSetType {
        vdmSetDatabase := vdmSetDatabase[i := VdmSet(vendorIdx, cmdSetType, 0)];
      }
      ok := true;
    }

    /** The responder. `format`, `vendorId` and `commandSet` are only meant when the request is not refused. */
    method HandleGetVdmSupport(selector: byte) returns (reply: Reply)
      ensures reply == Respond(vdmSetDatabase, selector)
    {
      if selector + 1 > |vdmSetDatabase| {
        return Refused;
      }
      var next: byte;
      if selector + 1 == |vdmSetDatabase| {
        next := NO_MORE_SETS;
      } else {
        next := (selector + 1) % 0x100;
      }
      var entry := vdmSetDatabase[selector];
      reply := Set(next, entry.format, entry.vendorId, entry.commandSet);
    }
  }

  datatype Registration = Registration(vendorId: u16, commandSet: u16)

  /** The database after registrations, the latest last. */
  function Run(regs: seq<Registration>): seq<VdmSet> {
    if regs == [] then []
    else
      var last := regs[|regs| - 1];
      Managed(Run(regs[..|regs| - 1]), last.vendorId, last.commandSet)
  }

  /** The command set a vendor registered last. */
  function Latest(regs: seq<Registration>, vendorId: u16): int {
    if regs == [] then -1
    else if regs[|regs| - 1].vendorId == vendorId then regs[|regs| - 1].commandSet
    else Latest(regs[..|regs| - 1], vendorId)
  }

  /** A vendor's row, or -1 without one. */
  function CommandSetOf(db: seq<VdmSet>, vendorId: u16): int {
    var i := IndexOf(db, vendorId);
    if i == |db| then -1 else db[i].commandSet
  }

  lemma ManagedLookup(db: seq<VdmSet>, vendorId: u16, commandSet: u16)
    requires DistinctVendors(db)
    ensures var after := Managed(db, vendorId, commandSet);
            && DistinctVendors(after) && |db| <= |after|
            && (forall i | 0 <= i < |db| :: after[i].vendorId == db[i].vendorId)
            && (forall v: u16 :: CommandSetOf(after, v) == if v == vendorId then commandSet else CommandSetOf(db, v))
  {
    var after := Managed(db, vendorId, commandSet);
    forall v: u16 ensures CommandSetOf(after, v) == if v == vendorId then commandSet else CommandSetOf(db, v) {
      var i := IndexOf(db, v);
      if i < |db| {
        assert after[i].vendorId == v;
      } else if v == vendorId {
        assert after[|db|].vendorId == v;
      }
    }
  }

  /** After any registrations: vendor ids are distinct, every vendor that registered has one row, with the command set
      it registered last, and no other vendor has one. */
  lemma {:induction false} RunsKeepDistinct(regs: seq<Registration>)
    ensures DistinctVendors(Run(regs))
    ensures forall v: u16 :: CommandSetOf(Run(regs), v) == Latest(regs, v)
  {
    hide Managed, CommandSetOf, DistinctVendors;
    if regs == [] {
      EmptyDatabase();
    } else {
      var last := regs[|regs| - 1];
      RunsKeepDistinct(regs[..|regs| - 1]);
      ManagedLookup(Run(regs[..|regs| - 1]), last.vendorId, last.commandSet);
    }
  }

  /** Every row identifies its vendor by a PCI vendor id, format 0. */
  lemma {:induction false} RunsUsePciIds(regs: seq<Registration>)
    ensures forall i | 0 <= i < |Run(regs)| :: Run(regs)[i].format == 0
  {
    if regs != [] {
      RunsUsePciIds(regs[..|regs| - 1]);
    }
  }

  lemma EmptyDatabase()
    ensures DistinctVendors([]) && forall v: u16 :: CommandSetOf([], v) == -1
  {
  }

  /** A vendor keeps its place: a run extended by registrations has the same vendors in place, then new ones. */
  lemma {:induction false} VendorsKeepTheirPlace(regs: seq<Registration>, more: seq<Registration>)
    ensures |Run(regs)| <= |Run(regs + more)|
    ensures forall i | 0 <= i < |Run(regs)| :: Run(regs + more)[i].vendorId == Run(regs)[i].vendorId
    decreases |more|
  {
    hide Managed;
    if more == [] {
      assert regs + more == regs;
    } else {
      var k := |more| - 1;
      VendorsKeepTheirPlace(regs, more[..k]);
      RunsKeepDistinct(regs + more[..k]);
      ManagedLookup(Run(regs + more[..k]), more[k].vendorId, more[k].commandSet);
      assert (regs + more)[..|regs + more| - 1] == regs + more[..k];
    }
  }

  // ----- responder and enumeration -----

  /** What comes back for a request: a set, a refusal, or nothing usable. */
  datatype Reply = Set(next: byte, format: byte, vendorId: u16, commandSet: u16) | Refused | Unanswered

  function Respond(db: seq<VdmSet>, selector: byte): Reply {
    if selector as nat >= |db| then Refused
    else
      Set(if selector as nat + 1 == |db| then NO_MORE_SETS else (selector + 1) % 0x100,
          db[selector].format, db[selector].vendorId, db[selector].commandSet)
  }

  /** The rows read by a peer that asks for the selector reported with each answer until no more sets follow. */
  ghost function Follow(db: seq<VdmSet>, selector: byte): seq<VdmSet>
    requires selector != NO_MORE_SETS
    decreases 0xFF - selector
  {
    match Respond(db, selector)
    case Set(next, format, vendorId, commandSet) =>
      [VdmSet(vendorId, commandSet, format)] + if next == NO_MORE_SETS then [] else Follow(db, next)
    case _ => []
  }

  lemma FollowStep(db: seq<VdmSet>, selector: byte)
    requires selector as nat < |db| && selector != NO_MORE_SETS
    ensures Follow(db, selector) ==
            [db[selector]] + if selector + 1 < 255 && selector as nat + 1 < |db| then Follow(db, selector + 1) else []
  {
    hide Respond;
    RespondNext(db, selector);
  }

  lemma RespondNext(db: seq<VdmSet>, selector: byte)
    requires selector as nat < |db| && selector != NO_MORE_SETS
    ensures var reply, last := Respond(db, selector), selector + 1 == 255 || selector as nat + 1 == |db|;
            && reply.Set? && VdmSet(reply.vendorId, reply.commandSet, reply.format) == db[selector]
            && reply.next == if last then NO_MORE_SETS else selector + 1
  {
  }

  lemma {:induction false} FollowFrom(db: seq<VdmSet>, selector: byte)
    requires selector as nat < |db| && selector != NO_MORE_SETS
    ensures Follow(db, selector) == db[selector..if |db| <= 255 then |db| else 255]
    decreases 0xFF - selector
  {
    hide Follow, Respond;
    FollowStep(db, selector);
    var end := if |db| <= 255 then |db| else 255;
    assert db[selector..end] == [db[selector]] + db[selector + 1..end];
    if selector + 1 < 255 && selector as nat + 1 < |db| {
      FollowFrom(db, selector + 1);
    }
  }

  /** The selectors the responder reports lead a peer through the whole database, each vendor once and in registration
      order, with every field as stored; at most 255 vendors can be reached, and none of an empty database. */
  lemma SelectorsLeadThroughAll(db: seq<VdmSet>)
    ensures Follow(db, 0) == db[..if |db| <= 255 then |db| else 255]
  {
    if db != [] {
      FollowFrom(db, 0);
    }
  }

  /** The enumeration, against any peer: `replies` is what the peer would answer to each selector. The list is appended
      to; the last vendor id is kept. */
  method GetPciVdMessageSupport(replies: seq<Reply>, before: seq<u16>) returns (ok: bool, list: seq<u16>, vendor: u16)
    requires |replies| == 255
    ensures var stop := Stop(replies);
            && ok == (stop < 255 && replies[stop].Set?)
            && list == before + Taken(replies, if ok then stop + 1 else stop)
            && (ok ==> vendor == SwapBytes(replies[stop].vendorId))
  {
    list, vendor := before, 0;
    var vendorIdSet, done := 0, false;
    while vendorIdSet < 255 && !done
      invariant 0 <= vendorIdSet <= Stop(replies) && vendorIdSet < 255
      invariant done ==> vendorIdSet == Stop(replies) && replies[vendorIdSet].Set?
                         && vendor == SwapBytes(replies[vendorIdSet].vendorId)
      invariant list == before + Taken(replies, if done then vendorIdSet + 1 else vendorIdSet)
      decreases 255 - vendorIdSet, !done
    {
      var reply := replies[vendorIdSet];
      if !reply.Set? {
        return false, list, vendor;
      }
      vendor := SwapBytes(reply.vendorId);
      list := list + [SwapBytes(reply.commandSet)];
      if reply.next == NO_MORE_SETS {
        done := true;
      } else {
        vendorIdSet := vendorIdSet + 1;
        if vendorIdSet == 255 {
          return false, list, vendor;
        }
      }
    }
    ok := true;
  }

  /** The first selector whose answer ends the enumeration: not a set, or the last set; 255 if none does. */
  function Stop(replies: seq<Reply>): (k: nat)
    ensures k <= |replies|
    ensures k < |replies| ==> !replies[k].Set? || replies[k].next == NO_MORE_SETS
    ensures forall i | 0 <= i < k :: replies[i].Set? && replies[i].next != NO_MORE_SETS
  {
    if replies == [] || !replies[0].Set? || replies[0].next == NO_MORE_SETS then 0 else 1 + Stop(replies[1..])
  }

  function Taken(replies: seq<Reply>, n: nat): (list: seq<u16>)
    requires n <= |replies| && forall i | 0 <= i < n :: replies[i].Set?
    ensures |list| == n && forall i | 0 <= i < n :: list[i] == SwapBytes(replies[i].commandSet)
  {
    seq(n, i requires 0 <= i < n => SwapBytes(replies[i].commandSet))
  }

  function Responder(db: seq<VdmSet>): (replies: seq<Reply>)
    ensures |replies| == 255 && forall i | 0 <= i < 255 :: replies[i] == Respond(db, i)
  {
    seq(255, i requires 0 <= i < 255 => Respond(db, i))
  }

  /** Against the responder, the enumeration reads the whole database in registration order exactly when it holds 1 to
      255 vendors. From 256 on it reports success with the first 255, since the selector 255 says that no more follow;
      an empty database is refused. */
  lemma EnumerationReadsAll(db: seq<VdmSet>)
    ensures var stop := Stop(Responder(db));
            && (db == [] ==> stop == 0 && !Responder(db)[stop].Set?)
            && (db != [] ==> stop == (if |db| <= 255 then |db| else 255) - 1 && Responder(db)[stop].Set?)
            && (db != [] ==> |Taken(Responder(db), stop + 1)| == (if |db| <= 255 then |db| else 255))
            && (db != [] ==>
                  forall i | 0 <= i <= stop :: Taken(Responder(db), stop + 1)[i] == SwapBytes(db[i].commandSet))
  {
    var replies := Responder(db);
    var stop := Stop(replies);
    if db != [] {
      var last := (if |db| <= 255 then |db| else 255) - 1;
      assert replies[last] == Respond(db, last);
      assert forall i | 0 <= i < last :: replies[i].Set? && replies[i].next != NO_MORE_SETS;
      assert last <= stop;
      assert forall i | 0 <= i <= stop :: replies[i] == Respond(db, i);
    } else {
      assert replies[0] == Respond(db, 0);
    }
  }
}
