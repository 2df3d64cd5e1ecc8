/** The PDR repository itself: a singly linked list with cached ends and counters. */
module PdrRepository {
  import opened Bytes
  import opened PdrRecords

  class PdrRecord {
    var handle: u32
    var size: u32
    var data: seq<byte>
    var next: PdrRecord?
    var isRemote: bool

    constructor (handle: u32, bytes: seq<byte>, isRemote: bool)
      requires |bytes| <= U32_MAX
      ensures this.handle == handle && this.size == |bytes| && this.isRemote == isRemote
      ensures data == bytes && next == null
    {
      this.handle := handle;
      this.size := |bytes|;
      this.isRemote := isRemote;
      this.next := null;
      this.data := bytes;
    }
  }

  class PdrRepo {
    var recordCount: u32
    var size: u32
    var first: PdrRecord?
    var last: PdrRecord?
    ghost var contents: seq<Record>
    ghost var nodes: seq<PdrRecord>
    ghost var repr: set<PdrRecord>

    /** Distinct nodes, linked in order; the cached ends agree. */
    ghost predicate Linked()
      reads `nodes, `repr, `first, `last, repr
    {
      && (forall i | 0 <= i < |nodes| :: nodes[i] in repr)
      && (forall i, j | 0 <= i < j < |nodes| :: nodes[i] != nodes[j])
      && (forall i, j {:trigger nodes[i].next, nodes[j]} | 0 <= i < j < |nodes| && j == i + 1 ::
            nodes[i].next == nodes[j])
      && (nodes != [] ==> nodes[|nodes| - 1].next == null)
      && first == (if nodes == [] then null else nodes[0])
      && last == (if nodes == [] then null else nodes[|nodes| - 1])
    }

    /** The nodes store `contents`. */
    ghost predicate Stores()
      requires Linked()
      reads `nodes, `repr, `first, `last, `contents, repr
    {
      Hold(nodes, contents)
    }

    /** The 32-bit counters agree with the list. */
    ghost predicate Counted()
      reads this
    {
      recordCount == Wrap32(|contents|) && size == Wrap32(TotalSize(contents))
    }

    ghost predicate Valid()
      reads this, repr
    {
      Linked() && Stores() && Counted()
    }

    constructor ()
      ensures Valid() && contents == [] && repr == {}
    {
      recordCount, size, first, last := 0, 0, null, null;
      contents, nodes, repr := [], [], {};
    }

    method AddRecord(record: PdrRecord, ghost r: Record)
      requires Valid() && record !in repr && record.next == null
      requires r == Record(record.handle, record.data, record.isRemote)
      requires record.size == |record.data|
      modifies this, repr
      ensures Valid() && repr == old(repr) + {record}
      ensures contents == old(contents) + [r]
    {
      hide Wrap32, TotalSize, Hold;
      AddCounts(contents, r);
      HoldAfterAdd(nodes, contents, record, r);
      size := Wrap32(size + record.size);
      recordCount := Wrap32(recordCount + 1);
      if first == null {
        first := record;
        last := record;
      } else {
        last.next := record;
        last := record;
      }
      nodes := nodes + [record];
      repr := repr + {record};
      contents := contents + [r];
    }

    method Add(data: seq<byte>, recordHandle: u32, isRemote: bool) returns (handle: u32)
      requires Valid()
      requires 0 < |data| <= U32_MAX
      requires recordHandle == 0 ==> HANDLE_SIZE <= |data| && LastHandle(contents) != U32_MAX
      modifies this, repr
      ensures Valid() && fresh(repr - old(repr))
      ensures contents == old(contents) + [NewRecord(old(contents), data, recordHandle, isRemote)]
      ensures handle == LastHandle(contents)
      ensures var r := contents[|old(contents)|];
              r.remote == isRemote && (if recordHandle != 0 then r.data == data else r.data[4..] == data[4..])
    {
      var newHandle := if recordHandle != 0 then recordHandle
                       else if last != null then last.handle + 1 else 1;
      var record := new PdrRecord(newHandle, data, isRemote);
      if recordHandle == 0 {
        record.data := Patched(record.data, newHandle);
      }
      AddRecord(record, NewRecord(contents, data, recordHandle, isRemote));
      handle := record.handle;
    }

    /** Lookup by handle; handle 0 means the first record. */
    method FindRecord(recordHandle: u32) returns (record: PdrRecord?, data: seq<byte>, size: u32, next: u32)
      requires Valid()
      ensures record == NodeOrNull(Lookup(contents, recordHandle))
      ensures Lookup(contents, recordHandle) == |contents| ==> record == null && size == 0 && next == 0
      ensures var i := Lookup(contents, recordHandle);
              i < |contents| ==>
                record != null && data == contents[i].data && size == |data| && next == NextHandle(contents, i)
    {
      hide *;
      EndsOfList();
      NodeAt(0);
      LookupIsFirst(contents, recordHandle);
      var wanted := if recordHandle == 0 && first != null then first.handle else recordHandle;
      ghost var at := 0;
      record := first;
      while record != null
        invariant 0 <= at <= |contents| && record == NodeOrNull(at)
        invariant at <= Lookup(contents, recordHandle)
        decreases |contents| - at
      {
        NodeAt(at);
        NodeAt(at + 1);
        if record.handle == wanted {
          NextHandleOf(contents, at);
          next := if record == last then 0 else record.next.handle;
          return record, record.data, record.size, next;
        }
        record := record.next;
        at := at + 1;
      }
      NodeAt(at);
      return null, [], 0, 0;
    }

    /** The record after `current`; nothing after the last one. */
    method GetNextRecord(current: PdrRecord, ghost at: nat)
      returns (record: PdrRecord?, data: seq<byte>, size: u32, next: u32)
      requires Valid() && current == NodeOrNull(at)
      ensures record == NodeOrNull(at + 1)
      ensures record == null <==> at + 1 == |contents|
      ensures record == null ==> data == [] && size == 0 && next == 0
      ensures record != null ==>
                data == contents[at + 1].data && size == |data| && next == NextHandle(contents, at + 1)
    {
      hide *;
      NodeAt(at);
      NodeAt(at + 1);
      NodeAt(at + 2);
      if current == last {
        return null, [], 0, 0;
      }
      record := current.next;
      NextHandleOf(contents, at + 1);
      next := if record == last then 0 else record.next.handle;
      return record, record.data, record.size, next;
    }

    /** The first record of a type, from the start or after `current`. */
    method FindRecordByType(pdrType: byte, current: PdrRecord?, ghost at: nat)
      returns (record: PdrRecord?, data: seq<byte>, size: u32)
      requires Valid() && (if current == null then at == 0 else current == NodeOrNull(at - 1))
      requires Examinable(contents, pdrType, at)
      ensures record == NodeOrNull(FirstOfType(contents, pdrType, at))
      ensures record == null ==> FirstOfType(contents, pdrType, at) >= |contents| && size == 0
      ensures record != null ==>
                var i := FirstOfType(contents, pdrType, at);
                i < |contents| && data == contents[i].data && size == |data|
    {
      hide *;
      EndsOfList();
      ghost var i := at;
      record := first;
      if current != null {
        NodeAt(at - 1);
        record := current.next;
      }
      while record != null
        invariant at <= i && record == NodeOrNull(i)
        invariant Examinable(contents, pdrType, i)
        invariant FirstOfType(contents, pdrType, i) == FirstOfType(contents, pdrType, at)
        decreases |contents| - i
      {
        NodeAt(i);
        FirstOfTypeStep(contents, pdrType, i);
        if record.data[PDR_TYPE_OFFSET] == pdrType {
          return record, record.data, record.size;
        }
        record := record.next;
        i := i + 1;
      }
      NodeAt(i);
      FirstOfTypeStep(contents, pdrType, i);
      return null, [], 0;
    }

    method RemoveRemotePdrs()
      requires Valid() && Patchable(contents)
      modifies this, repr
      ensures Valid() && repr == old(repr)
      ensures contents == RemotesRemoved(old(contents))
    {
      hide *;
      ghost var all := contents;
      ghost var scanned := 0;
      EndsOfList();
      ScanEnds(all);
      var removed := false;
      var record := first;
      var prev: PdrRecord? := null;
      while record != null
        invariant Valid() && repr == old(repr)
        invariant 0 <= scanned <= |all| && contents == Scanned(all, scanned)
        invariant record == NodeOrNull(KeptCount(all, scanned))
        invariant prev == NodeOrNull(KeptCount(all, scanned) - 1)
        invariant removed == AnyRemote(all[..scanned])
        decreases |all| - scanned
      {
        NodeAt(KeptCount(all, scanned));
        ScanStep(all, scanned);
        var next := record.next;
        if record.isRemote {
          Unlink(record, prev, next, KeptCount(all, scanned));
          removed := true;
        } else {
          prev := record;
        }
        record := next;
        scanned := scanned + 1;
      }
      NodeAt(KeptCount(all, scanned));
      ScanStep(all, scanned);
      EndOfScan(all, scanned);
      if removed {
        Renumber();
      }
    }

    /** The unlinking step inside the removal loop. */
    method Unlink(record: PdrRecord, prev: PdrRecord?, next: PdrRecord?, ghost at: nat)
      requires Valid() && record == NodeOrNull(at) && record.next == next && prev == NodeOrNull(at - 1)
      modifies this, if prev == null then {} else {prev}
      ensures Valid() && repr == old(repr)
      ensures at < |old(contents)| && contents == old(contents[..at] + contents[at + 1..])
      ensures next == NodeOrNull(at) && prev == NodeOrNull(at - 1)
    {
      hide PdrRepo.Linked, Hold, Wrap32, TotalSize;
      NodeAt(at);
      RemoveCounts(contents, at);
      HoldAfterDrop(nodes, contents, at);
      UnlinkPointers(record, prev, next, at);
      contents := contents[..at] + contents[at + 1..];
      recordCount := Wrap32(recordCount - 1);
      size := Wrap32(size - record.size);
    }

    method UnlinkPointers(record: PdrRecord, prev: PdrRecord?, next: PdrRecord?, ghost at: nat)
      requires Linked() && at < |nodes| && nodes[at] == record && record.next == next
      requires prev == if at == 0 then null else nodes[at - 1]
      modifies `first, `last, `nodes, (if prev == null then {} else {prev})`next
      ensures Linked() && nodes == old(nodes[..at] + nodes[at + 1..])
    {
      if first == record {
        first := next;
      } else {
        prev.next := next;
      }
      if last == record {
        last := prev;
      }
      nodes := nodes[..at] + nodes[at + 1..];
    }

    method Renumber()
      requires Valid() && WellFormed(contents)
      modifies this, repr
      ensures Valid() && repr == old(repr)
      ensures contents == Renumbered(old(contents))
    {
      hide *;
      ghost var all := contents;
      ghost var at := 0;
      EndsOfList();
      RenumberEnds(all);
      var record := first;
      var handle: u32 := 0;
      while record != null
        invariant Valid() && nodes == old(nodes) && repr == old(repr)
        invariant 0 <= at <= |all| && contents == PartlyRenumbered(all, at)
        invariant record == NodeOrNull(at)
        invariant handle == Wrap32(at)
        decreases |all| - at
      {
        NodeAt(at);
        RenumberStep(all, at);
        handle := Wrap32(handle + 1);
        Relabel(record, handle, at);
        record := record.next;
        at := at + 1;
      }
      NodeAt(at);
      RenumberStep(all, at);
    }

    /** One renumbering step: the node and the header inside its stored PDR change together. */
    method Relabel(record: PdrRecord, handle: u32, ghost at: nat)
      requires Valid() && record == NodeOrNull(at)
      requires at < |contents| && HANDLE_SIZE <= |contents[at].data|
      modifies this`contents, record`handle, record`data
      ensures Valid()
      ensures contents == old(contents)[at := Relabelled(old(contents[at]), handle)]
    {
      hide Wrap32, TotalSize, Patched, LastHandle, Locals;
      ghost var r := Relabelled(contents[at], handle);
      SameSize(contents, at, r);
      record.handle := handle;
      record.data := Patched(record.data, handle);
      contents := contents[at := r];
    }

    ghost function NodeOrNull(i: int): PdrRecord?
      reads `nodes
    {
      if 0 <= i < |nodes| then nodes[i] else null
    }

    lemma EndsOfList()
      requires Valid()
      ensures first == NodeOrNull(0) && NodeOrNull(-1) == null
    {
    }

    lemma NodeAt(at: nat)
      requires Valid()
      ensures NodeOrNull(at) == null <==> |contents| <= at
      ensures NodeOrNull(at - 1) != null ==> NodeOrNull(at - 1) in repr
      ensures NodeOrNull(at) != null ==>
                var n := NodeOrNull(at);
                && n in repr && n.next == NodeOrNull(at + 1)
                && (n == last <==> at + 1 == |contents|)
                && Record(n.handle, n.data, n.isRemote) == contents[at]
                && n.size == |contents[at].data|
    {
    }
  }

  /** Each node stores its record, and its size field is the length of the stored PDR. */
  ghost predicate Hold(ns: seq<PdrRecord>, rs: seq<Record>)
    reads (set n | n in ns)`handle, (set n | n in ns)`isRemote, (set n | n in ns)`data, (set n | n in ns)`size
  {
    && |ns| == |rs|
    && (forall i {:trigger ns[i]} {:trigger rs[i]} | 0 <= i < |ns| ::
          && ns[i].handle == rs[i].handle
          && ns[i].isRemote == rs[i].remote
          && ns[i].data == rs[i].data
          && ns[i].size == |rs[i].data|)
  }

  lemma HoldAfterAdd(ns: seq<PdrRecord>, rs: seq<Record>, n: PdrRecord, r: Record)
    requires Hold(ns, rs) && r == Record(n.handle, n.data, n.isRemote) && n.size == |n.data|
    ensures Hold(ns + [n], rs + [r])
  {
  }

  lemma HoldAfterDrop(ns: seq<PdrRecord>, rs: seq<Record>, at: nat)
    requires Hold(ns, rs) && at < |ns|
    ensures Hold(ns[..at] + ns[at + 1..], rs[..at] + rs[at + 1..])
  {
  }

  lemma AddCounts(rs: seq<Record>, r: Record)
    ensures Wrap32(Wrap32(|rs|) + 1) == Wrap32(|rs + [r]|)
    ensures Wrap32(Wrap32(TotalSize(rs)) + |r.data|) == Wrap32(TotalSize(rs + [r]))
  {
    TotalSizeConcat(rs, [r]);
    assert TotalSize([r]) == |r.data|;
    WrapAdd(|rs|, 1);
    WrapAdd(TotalSize(rs), |r.data|);
  }

  lemma RemoveCounts(rs: seq<Record>, at: nat)
    requires at < |rs|
    ensures Wrap32(Wrap32(|rs|) - 1) == Wrap32(|rs[..at] + rs[at + 1..]|)
    ensures Wrap32(Wrap32(TotalSize(rs)) - |rs[at].data|) == Wrap32(TotalSize(rs[..at] + rs[at + 1..]))
  {
    RemoveOneSize(rs, at);
    WrapAdd(|rs|, -1);
    WrapAdd(TotalSize(rs), -|rs[at].data|);
  }

  lemma RemoveOneSize(rs: seq<Record>, at: nat)
    requires at < |rs|
    ensures TotalSize(rs) == TotalSize(rs[..at] + rs[at + 1..]) + |rs[at].data|
  {
    assert rs == rs[..at] + ([rs[at]] + rs[at + 1..]);
    TotalSizeConcat(rs[..at], [rs[at]] + rs[at + 1..]);
    TotalSizeConcat([rs[at]], rs[at + 1..]);
    TotalSizeConcat(rs[..at], rs[at + 1..]);
    assert TotalSize([rs[at]]) == |rs[at].data|;
  }

  lemma SameSize(rs: seq<Record>, at: nat, r: Record)
    requires at < |rs| && |r.data| == |rs[at].data|
    ensures TotalSize(rs[at := r]) == TotalSize(rs)
  {
    RemoveOneSize(rs, at);
    RemoveOneSize(rs[at := r], at);
    assert rs[at := r][..at] + rs[at := r][at + 1..] == rs[..at] + rs[at + 1..];
  }

  /** The list while the removal scan stands at record `k` of `all`. */
  ghost function Scanned(all: seq<Record>, k: nat): seq<Record>
    requires k <= |all|
  {
    Locals(all[..k]) + all[k..]
  }

  ghost function KeptCount(all: seq<Record>, k: nat): nat
    requires k <= |all|
  {
    |Locals(all[..k])|
  }

  lemma ScanEnds(all: seq<Record>)
    ensures Scanned(all, 0) == all && KeptCount(all, 0) == 0 && !AnyRemote(all[..0])
  {
  }

  lemma ScanStep(all: seq<Record>, k: nat)
    requires k <= |all|
    ensures KeptCount(all, k) <= |Scanned(all, k)|
    ensures KeptCount(all, k) == |Scanned(all, k)| <==> k == |all|
    ensures k < |all| ==>
              var list, at := Scanned(all, k), KeptCount(all, k);
              && list[at] == all[k]
              && AnyRemote(all[..k + 1]) == (AnyRemote(all[..k]) || all[k].remote)
              && KeptCount(all, k + 1) == (if all[k].remote then at else at + 1)
              && Scanned(all, k + 1) == if all[k].remote then list[..at] + list[at + 1..] else list
  {
    if k < |all| {
      assert all[k..] == [all[k]] + all[k + 1..];
      assert all[..k + 1] == all[..k] + [all[k]];
      assert all[..k + 1][..k] == all[..k];
      AnyRemoteConcat(all[..k], [all[k]]);
      assert AnyRemote([all[k]]) == [all[k]][0].remote;
    }
  }

  lemma AnyRemoteConcat(a: seq<Record>, b: seq<Record>)
    ensures AnyRemote(a + b) == (AnyRemote(a) || AnyRemote(b))
  {
    if i :| 0 <= i < |a| && a[i].remote {
      assert (a + b)[i].remote;
    }
    if i :| 0 <= i < |b| && b[i].remote {
      assert (a + b)[|a| + i].remote;
    }
    if i :| 0 <= i < |a + b| && (a + b)[i].remote {
      assert if i < |a| then a[i].remote else b[i - |a|].remote;
    }
  }

  /** After the scan: what is left to do is exactly the renumbering. */
  lemma EndOfScan(all: seq<Record>, k: nat)
    requires Patchable(all) && k == |all|
    ensures all[..k] == all && (AnyRemote(all) ==> WellFormed(Scanned(all, k)))
    ensures RemotesRemoved(all) == if AnyRemote(all) then Renumbered(Scanned(all, k)) else Scanned(all, k)
  {
    assert all[..k] == all;
    LocalsKeepShape(all);
  }

  ghost function PartlyRenumbered(all: seq<Record>, k: nat): seq<Record>
    requires WellFormed(all) && k <= |all|
  {
    Renumbered(all)[..k] + all[k..]
  }

  lemma RenumberEnds(all: seq<Record>)
    requires WellFormed(all)
    ensures Wrap32(0) == 0 && PartlyRenumbered(all, 0) == all
  {
  }

  lemma RenumberStep(all: seq<Record>, at: nat)
    requires WellFormed(all) && at <= |all|
    ensures |PartlyRenumbered(all, at)| == |all|
    ensures at == |all| ==> PartlyRenumbered(all, at) == Renumbered(all)
    ensures at < |all| ==>
              var list := PartlyRenumbered(all, at);
              && list[at] == all[at] && HANDLE_SIZE <= |all[at].data|
              && Wrap32(Wrap32(at) + 1) == Wrap32(at + 1)
              && list[at := Relabelled(all[at], Wrap32(at + 1))] == PartlyRenumbered(all, at + 1)
  {
    WrapAdd(at, 1);
  }
}
