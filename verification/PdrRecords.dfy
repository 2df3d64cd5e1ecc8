/** The PDR repository as a sequence of records: what each repository operation does to it, and
    what every run of operations keeps. */
module PdrRecords {
  import opened Bytes

  /** Size of the common PDR header; the record handle is its first field. */
  const PDR_HEADER_SIZE := 10
  const HANDLE_SIZE := 4
  const PDR_TYPE_OFFSET := 5

  datatype Record = Record(handle: u32, data: seq<byte>, remote: bool)

  /** Every stored PDR has room for the record handle field. */
  ghost predicate WellFormed(rs: seq<Record>) {
    forall i | 0 <= i < |rs| :: HANDLE_SIZE <= |rs[i].data|
  }

  /** What a removal writes to: if it removes anything, the headers of all local records. */
  ghost predicate Patchable(rs: seq<Record>) {
    AnyRemote(rs) ==> WellFormed(Locals(rs))
  }

  function LastHandle(rs: seq<Record>): u32 {
    if rs == [] then 0 else rs[|rs| - 1].handle
  }

  /** `data` with the record handle field of its header set to `handle`. */
  function Patched(data: seq<byte>, handle: u32): (p: seq<byte>)
    requires HANDLE_SIZE <= |data|
    ensures |p| == |data| && Le32At(p, 0) == handle
  {
    Le32RoundTrip(Le32(handle) + data[4..], 0, handle);
    Le32(handle) + data[4..]
  }

  /** The record that an add stores: handle 0 asks for the next handle, which then also goes into
      the stored header; any other handle is taken as it is. */
  function NewRecord(rs: seq<Record>, data: seq<byte>, handle: u32, remote: bool): Record
    requires handle == 0 ==> HANDLE_SIZE <= |data| && LastHandle(rs) != U32_MAX
  {
    if handle == 0 then
      Record(LastHandle(rs) + 1, Patched(data, LastHandle(rs) + 1), remote)
    else
      Record(handle, data, remote)
  }

  function Locals(rs: seq<Record>): seq<Record> {
    if rs == [] then []
    else if rs[|rs| - 1].remote then Locals(rs[..|rs| - 1])
    else Locals(rs[..|rs| - 1]) + [rs[|rs| - 1]]
  }

  predicate AnyRemote(rs: seq<Record>) {
    exists i :: 0 <= i < |rs| && rs[i].remote
  }

  /** `r` under another handle, in the node and in the stored header. */
  function Relabelled(r: Record, handle: u32): Record
    requires HANDLE_SIZE <= |r.data|
  {
    r.(handle := handle, data := Patched(r.data, handle))
  }

  /** The record at position `i` once handles count up from 1 (a 32-bit counter). */
  function RenumberedAt(r: Record, i: nat): Record
    requires HANDLE_SIZE <= |r.data|
  {
    Relabelled(r, Wrap32(i + 1))
  }

  ghost function Renumbered(rs: seq<Record>): (s: seq<Record>)
    requires WellFormed(rs)
    ensures |s| == |rs|
  {
    seq(|rs|, i requires 0 <= i < |rs| => RenumberedAt(rs[i], i))
  }

  ghost function RemotesRemoved(rs: seq<Record>): seq<Record>
    requires Patchable(rs)
  {
    if AnyRemote(rs) then Renumbered(Locals(rs)) else rs
  }

  function TotalSize(rs: seq<Record>): nat {
    if rs == [] then 0 else TotalSize(rs[..|rs| - 1]) + |rs[|rs| - 1].data|
  }

  lemma {:induction false} TotalSizeConcat(a: seq<Record>, b: seq<Record>)
    ensures TotalSize(a + b) == TotalSize(a) + TotalSize(b)
  {
    if b == [] {
      assert a + b == a;
    } else {
      assert (a + b)[..|a + b| - 1] == a + b[..|b| - 1];
      TotalSizeConcat(a, b[..|b| - 1]);
    }
  }

  lemma {:induction false} LocalsKeepShape(rs: seq<Record>)
    ensures WellFormed(rs) ==> WellFormed(Locals(rs))
    ensures |Locals(rs)| <= |rs|
    ensures !AnyRemote(Locals(rs))
    ensures !AnyRemote(rs) ==> Locals(rs) == rs
  {
    if rs != [] {
      LocalsKeepShape(rs[..|rs| - 1]);
    }
  }

  // ----- lookup -----

  /** Index of the first record with a handle; the length if there is none. */
  function IndexOf(rs: seq<Record>, handle: u32): (i: nat)
    ensures i <= |rs| && (i < |rs| ==> rs[i].handle == handle)
    ensures forall j | 0 <= j < i :: rs[j].handle != handle
  {
    if rs == [] then 0
    else if rs[0].handle == handle then 0
    else 1 + IndexOf(rs[1..], handle)
  }

  /** What a lookup finds; handle 0 stands for the first record's handle. */
  function Lookup(rs: seq<Record>, handle: u32): (i: nat)
    ensures i <= |rs|
  {
    IndexOf(rs, if handle == 0 && rs != [] then rs[0].handle else handle)
  }

  /** The handle reported as the one to ask for next; 0 ends the iteration. */
  function NextHandle(rs: seq<Record>, i: nat): u32
    requires i < |rs|
  {
    if i + 1 < |rs| then rs[i + 1].handle else 0
  }

  lemma LookupIsFirst(rs: seq<Record>, handle: u32)
    ensures var wanted := if handle == 0 && rs != [] then rs[0].handle else handle;
            && (Lookup(rs, handle) < |rs| ==> rs[Lookup(rs, handle)].handle == wanted)
            && (forall j | 0 <= j < Lookup(rs, handle) :: rs[j].handle != wanted)
            && Lookup(rs, handle) <= |rs|
  {
  }

  lemma NextHandleOf(rs: seq<Record>, i: nat)
    requires i < |rs|
    ensures NextHandle(rs, i) == if i + 1 < |rs| then rs[i + 1].handle else 0
  {
  }

  /** The records looked at, from `from` to the first of the type, have a type byte. */
  ghost predicate Examinable(rs: seq<Record>, pdrType: byte, from: nat)
    decreases |rs| - from
  {
    from < |rs| ==>
      PDR_TYPE_OFFSET < |rs[from].data|
      && (rs[from].data[PDR_TYPE_OFFSET] != pdrType ==> Examinable(rs, pdrType, from + 1))
  }

  /** Index of the first record of a PDR type at or after `from`. */
  ghost function FirstOfType(rs: seq<Record>, pdrType: byte, from: nat): (i: nat)
    requires Examinable(rs, pdrType, from)
    ensures from <= i
    ensures i < |rs| ==> PDR_TYPE_OFFSET < |rs[i].data| && rs[i].data[PDR_TYPE_OFFSET] == pdrType
    ensures forall j | from <= j < i && j < |rs| ::
              PDR_TYPE_OFFSET < |rs[j].data| && rs[j].data[PDR_TYPE_OFFSET] != pdrType
    decreases |rs| - from
  {
    if |rs| <= from then from
    else if rs[from].data[PDR_TYPE_OFFSET] == pdrType then from
    else FirstOfType(rs, pdrType, from + 1)
  }

  lemma FirstOfTypeStep(rs: seq<Record>, pdrType: byte, from: nat)
    requires Examinable(rs, pdrType, from)
    ensures |rs| <= from ==> FirstOfType(rs, pdrType, from) == from
    ensures from < |rs| ==> 0 <= PDR_TYPE_OFFSET < |rs[from].data|
    ensures from < |rs| && rs[from].data[PDR_TYPE_OFFSET] == pdrType ==> FirstOfType(rs, pdrType, from) == from
    ensures from < |rs| && rs[from].data[PDR_TYPE_OFFSET] != pdrType ==>
              Examinable(rs, pdrType, from + 1)
              && FirstOfType(rs, pdrType, from) == FirstOfType(rs, pdrType, from + 1)
  {
  }
}
