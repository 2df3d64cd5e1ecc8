/** The SMBus device table of a bus owner: discovery passes, and the two lookups between EIDs and addresses. */
module SmbusTable {
  import opened Bytes
  import opened Wrappers

  type Eid = byte
  const EID_NULL: Eid := 0

  /** Where a device answers: a bus file descriptor and an 8-bit slave address. */
  datatype Address = Address(fd: int, slave: byte)

  datatype Entry = Entry(eid: Eid, address: Address)

  type Table = seq<Entry>

  /** A partial bijection between non-null EIDs and addresses. */
  predicate Bijective(t: Table) {
    && (forall i | 0 <= i < |t| :: t[i].eid != EID_NULL)
    && (forall i, j | 0 <= i < j < |t| :: t[i].eid != t[j].eid && t[i].address != t[j].address)
  }

  /** The EID of the first row with an address; null without one. */
  function EidOf(t: Table, a: Address): Eid {
    if t == [] then EID_NULL else if t[0].address == a then t[0].eid else EidOf(t[1..], a)
  }

  /** The address of the first row with an EID. */
  function AddressOf(t: Table, e: Eid): Option<Address> {
    if t == [] then None else if t[0].eid == e then Some(t[0].address) else AddressOf(t[1..], e)
  }

  function Without(t: Table, e: Eid): (r: Table)
    ensures |r| <= |t|
  {
    if t == [] then [] else (if t[0].eid == e then [] else [t[0]]) + Without(t[1..], e)
  }

  lemma WithoutStep(t: Table, e: Eid)
    ensures t == [] ==> Without(t, e) == []
    ensures t != [] && t[0].eid == e ==> Without(t, e) == Without(t[1..], e)
    ensures t != [] && t[0].eid != e ==> Without(t, e) == [t[0]] + Without(t[1..], e)
  {
  }

  /** One device of a discovery pass: `result` is what registering it returned. */
  function Discovered(t: Table, a: Address, result: Option<Eid>): Table {
    var known := EidOf(t, a);
    if result.None? then Without(t, known)
    else
      var rest := if result.value != known then Without(t, known) else t;
      if AddressOf(t, result.value).None? && result.value != EID_NULL then rest + [Entry(result.value, a)] else rest
  }

  // ----- a bijection is one map read both ways -----

  lemma {:induction false} EidOfRow(t: Table, a: Address)
    ensures EidOf(t, a) == EID_NULL || exists i | 0 <= i < |t| :: t[i] == Entry(EidOf(t, a), a)
    ensures Bijective(t) ==> forall i | 0 <= i < |t| && t[i].address == a :: t[i].eid == EidOf(t, a)
  {
    if t != [] {
      EidOfRow(t[1..], a);
      if t[0].address == a {
        assert t[0] == Entry(EidOf(t, a), a);
      } else if EidOf(t, a) != EID_NULL {
        var i :| 0 <= i < |t[1..]| && t[1..][i] == Entry(EidOf(t, a), a);
        assert t[i + 1] == Entry(EidOf(t, a), a);
      }
      forall i | Bijective(t) && 0 <= i < |t| && t[i].address == a ensures t[i].eid == EidOf(t, a) {
        assert i > 0 ==> t[i] == t[1..][i - 1];
      }
    }
  }

  lemma {:induction false} AddressOfRow(t: Table, e: Eid)
    ensures AddressOf(t, e).None? <==> forall i | 0 <= i < |t| :: t[i].eid != e
    ensures AddressOf(t, e).Some? ==> exists i | 0 <= i < |t| :: t[i] == Entry(e, AddressOf(t, e).value)
  {
    if t != [] {
      AddressOfRow(t[1..], e);
      if t[0].eid == e {
        assert t[0] == Entry(e, AddressOf(t, e).value);
      } else if AddressOf(t, e).Some? {
        var i :| 0 <= i < |t[1..]| && t[1..][i] == Entry(e, AddressOf(t, e).value);
        assert t[i + 1] == Entry(e, AddressOf(t, e).value);
      } else {
        assert forall i | 0 < i < |t| :: t[i] == t[1..][i - 1];
      }
    }
  }

  /** The rows that the lookups find are the first ones. */
  lemma {:induction false} FirstAddress(t: Table, a: Address)
    ensures (exists x | x in t :: x.address == a) ==>
              exists i | 0 <= i < |t| :: t[i] == Entry(EidOf(t, a), a) && forall j | 0 <= j < i :: t[j].address != a
    ensures (forall x | x in t :: x.address != a) ==> EidOf(t, a) == EID_NULL
  {
    if t != [] {
      FirstAddress(t[1..], a);
      if t[0].address == a {
        assert t[0] == Entry(EidOf(t, a), a);
      } else if x :| x in t && x.address == a {
        assert x in t[1..];
        var i :| 0 <= i < |t[1..]| && t[1..][i] == Entry(EidOf(t, a), a)
                 && forall j | 0 <= j < i :: t[1..][j].address != a;
        assert t[i + 1] == Entry(EidOf(t, a), a);
        forall j | 0 <= j < i + 1 ensures t[j].address != a {
          assert j > 0 ==> t[j] == t[1..][j - 1];
        }
      }
    }
  }

  lemma {:induction false} FirstEid(t: Table, e: Eid)
    ensures AddressOf(t, e).None? <==> forall x | x in t :: x.eid != e
    ensures AddressOf(t, e).Some? ==>
              exists i | 0 <= i < |t| ::
                t[i] == Entry(e, AddressOf(t, e).value) && forall j | 0 <= j < i :: t[j].eid != e
  {
    if t != [] {
      FirstEid(t[1..], e);
      assert t == [t[0]] + t[1..];
      if t[0].eid == e {
        assert t[0] == Entry(e, AddressOf(t, e).value);
      } else if AddressOf(t, e).Some? {
        var i :| 0 <= i < |t[1..]| && t[1..][i] == Entry(e, AddressOf(t, e).value)
                 && forall j | 0 <= j < i :: t[1..][j].eid != e;
        assert t[i + 1] == Entry(e, AddressOf(t, e).value);
        forall j | 0 <= j < i + 1 ensures t[j].eid != e {
          assert j > 0 ==> t[j] == t[1..][j - 1];
        }
      }
    }
  }

  /** The lookups are inverse to each other. */
  lemma LookupsAreInverse(t: Table, e: Eid, a: Address)
    requires Bijective(t) && e != EID_NULL
    ensures EidOf(t, a) == e <==> AddressOf(t, e) == Some(a)
  {
    EidOfRow(t, a);
    AddressOfRow(t, e);
    if EidOf(t, a) == e {
      var i :| 0 <= i < |t| && t[i] == Entry(e, a);
      var j :| 0 <= j < |t| && t[j] == Entry(e, AddressOf(t, e).value);
    }
  }

  // ----- what one device of a pass does -----

  lemma {:induction false} WithoutRows(t: Table, e: Eid)
    ensures forall x :: x in Without(t, e) <==> x in t && x.eid != e
    ensures Bijective(t) ==> Bijective(Without(t, e))
  {
    if t != [] {
      WithoutRows(t[1..], e);
      assert forall x :: x in t <==> x == t[0] || x in t[1..];
      if Bijective(t) && t[0].eid != e {
        var rest := Without(t[1..], e);
        BijectiveTail(t);
        forall i | 0 <= i < |rest| ensures rest[i] in t[1..] {
          assert rest[i] in rest;
        }
        assert Without(t, e) == [t[0]] + rest;
        FreshFirst(t, rest);
      } else if Bijective(t) {
        BijectiveTail(t);
        assert Without(t, e) == Without(t[1..], e);
      }
    }
  }

  lemma BijectiveTail(t: Table)
    requires t != [] && Bijective(t)
    ensures Bijective(t[1..])
  {
  }

  lemma FreshFirst(t: Table, rest: Table)
    requires t != [] && Bijective(t) && Bijective(rest) && forall i | 0 <= i < |rest| :: rest[i] in t[1..]
    ensures Bijective([t[0]] + rest)
  {
    forall i | 0 <= i < |rest| ensures rest[i].eid != t[0].eid && rest[i].address != t[0].address {
      var j :| 0 <= j < |t[1..]| && t[1..][j] == rest[i];
      assert t[j + 1] == rest[i];
    }
  }

  /** In a bijective table, lookup is membership. */
  lemma EidIsRow(t: Table, a: Address, e: Eid)
    requires Bijective(t) && e != EID_NULL
    ensures EidOf(t, a) == e <==> Entry(e, a) in t
  {
    EidOfRow(t, a);
  }

  lemma SameRowsSameEid(t: Table, u: Table, a: Address)
    requires Bijective(t) && Bijective(u)
    requires forall e: Eid :: Entry(e, a) in t <==> Entry(e, a) in u
    ensures EidOf(t, a) == EidOf(u, a)
  {
    if EidOf(t, a) != EID_NULL {
      EidIsRow(t, a, EidOf(t, a));
      EidIsRow(u, a, EidOf(t, a));
    } else if EidOf(u, a) != EID_NULL {
      EidIsRow(u, a, EidOf(u, a));
      EidIsRow(t, a, EidOf(u, a));
    }
  }

  lemma AddRow(t: Table, x: Entry)
    requires Bijective(t) && x.eid != EID_NULL
    requires forall i | 0 <= i < |t| :: t[i].eid != x.eid && t[i].address != x.address
    ensures Bijective(t + [x])
  {
  }

  /** The EID a device ends up with: the one its registration returned, unless that is null or another device's. */
  function Outcome(t: Table, a: Address, result: Option<Eid>): Eid {
    if result.Some? && (AddressOf(t, result.value).None? || AddressOf(t, result.value) == Some(a)) then result.value
    else EID_NULL
  }

  lemma DiscoveredRows(t: Table, a: Address, result: Option<Eid>)
    requires Bijective(t)
    ensures Bijective(Discovered(t, a, result))
    ensures forall e: Eid, b: Address | e != EID_NULL ::
              Entry(e, b) in Discovered(t, a, result) <==>
              if b == a then e == Outcome(t, a, result) else Entry(e, b) in t
  {
    var known := EidOf(t, a);
    EidOfRow(t, a);
    WithoutRows(t, known);
    var kept := if result.None? || result.value != known then Without(t, known) else t;
    assert forall x :: x in kept <==> x in t && (x.eid != known || (result.Some? && result.value == known));
    if known == EID_NULL {
      NoRow(t, a);
    }
    if result.Some? {
      AddressOfRow(t, result.value);
      if AddressOf(t, result.value).None? && result.value != EID_NULL {
        forall i | 0 <= i < |kept| ensures kept[i].eid != result.value && kept[i].address != a {
          assert kept[i] in kept;
        }
        AddRow(kept, Entry(result.value, a));
      }
    }
  }

  lemma NoRow(t: Table, a: Address)
    requires Bijective(t) && EidOf(t, a) == EID_NULL
    ensures forall i | 0 <= i < |t| :: t[i].address != a
  {
    EidOfRow(t, a);
  }

  /** One device changes its own EID to the outcome, nobody else's, and the table stays a bijection. */
  lemma DiscoveredLookups(t: Table, a: Address, result: Option<Eid>)
    requires Bijective(t)
    ensures var after := Discovered(t, a, result);
            && Bijective(after) && EidOf(after, a) == Outcome(t, a, result)
            && forall b: Address | b != a :: EidOf(after, b) == EidOf(t, b)
  {
    var after := Discovered(t, a, result);
    DiscoveredRows(t, a, result);
    if Outcome(t, a, result) != EID_NULL {
      EidIsRow(after, a, Outcome(t, a, result));
    } else if EidOf(after, a) != EID_NULL {
      EidIsRow(after, a, EidOf(after, a));
    }
    forall b: Address | b != a ensures EidOf(after, b) == EidOf(t, b) {
      forall e: Eid ensures Entry(e, b) in after <==> Entry(e, b) in t {
      }
      SameRowsSameEid(after, t, b);
    }
  }

  // ----- passes -----

  /** A device of a pass: its bus and 7-bit address, whether the device watcher lets it be tried, and what registering
      it would return. */
  datatype Device = Device(fd: int, address: int, good: bool, result: Option<Eid>)

  /** The 8-bit slave address is the 7-bit address shifted up, cut to a byte. */
  function AddressOfDevice(d: Device): Address {
    Address(d.fd, d.address * 2 % 0x100)
  }

  function Pass(t: Table, ds: seq<Device>): Table
    decreases |ds|
  {
    if ds == [] then t
    else Pass(if ds[0].good then Discovered(t, AddressOfDevice(ds[0]), ds[0].result) else t, ds[1..])
  }

  function Passes(t: Table, runs: seq<seq<Device>>): Table
    decreases |runs|
  {
    if runs == [] then t else Passes(Pass(t, runs[0]), runs[1..])
  }

  /** A pass keeps the table a bijection, and the EID of every address it does not try. */
  lemma {:induction false} PassKeepsBijection(t: Table, ds: seq<Device>)
    requires Bijective(t)
    ensures Bijective(Pass(t, ds))
    ensures forall b: Address | (forall d | d in ds && d.good :: AddressOfDevice(d) != b) ::
              EidOf(Pass(t, ds), b) == EidOf(t, b)
    decreases |ds|
  {
    hide Bijective, Discovered, EidOf, AddressOfDevice;
    if ds != [] {
      var d := ds[0];
      DiscoveredLookups(t, AddressOfDevice(d), d.result);
      PassKeepsBijection(if d.good then Discovered(t, AddressOfDevice(d), d.result) else t, ds[1..]);
      forall b: Address | (forall d | d in ds && d.good :: AddressOfDevice(d) != b)
        ensures EidOf(Pass(t, ds), b) == EidOf(t, b)
      {
        assert ds[0] in ds && forall d | d in ds[1..] :: d in ds;
      }
    }
  }

  lemma {:induction false} PassConcat(t: Table, a: seq<Device>, b: seq<Device>)
    ensures Pass(t, a + b) == Pass(Pass(t, a), b)
    decreases |a|
  {
    if a == [] {
      assert a + b == b;
    } else {
      assert (a + b)[1..] == a[1..] + b;
      PassConcat(if a[0].good then Discovered(t, AddressOfDevice(a[0]), a[0].result) else t, a[1..], b);
    }
  }

  /** A device that a pass tries, at its address on the bus shifted up by one bit, ends the pass with the EID that its
      registration returned, if that is neither null nor then another device's; with none otherwise. The last try of an
      address counts. */
  lemma PassResult(t: Table, ds: seq<Device>, i: nat)
    requires Bijective(t) && i < |ds| && ds[i].good
    requires forall j | i < j < |ds| && ds[j].good ::
               ds[j].fd != ds[i].fd || ds[j].address * 2 % 0x100 != ds[i].address * 2 % 0x100
    ensures var a := Address(ds[i].fd, ds[i].address * 2 % 0x100);
            var before, returned := Pass(t, ds[..i]), ds[i].result;
            var taken := returned.Some? && exists x | x in before :: x.eid == returned.value && x.address != a;
            EidOf(Pass(t, ds), a) == if returned.Some? && !taken then returned.value else 0
  {
    hide Pass, Discovered, EidOf, Bijective;
    var d, a := ds[i], Address(ds[i].fd, ds[i].address * 2 % 0x100);
    var before := Pass(t, ds[..i]);
    PassKeepsBijection(t, ds[..i]);
    DiscoveredLookups(before, a, d.result);
    assert ds == ds[..i] + ([d] + ds[i + 1..]);
    PassConcat(t, ds[..i], [d] + ds[i + 1..]);
    PassStep(before, d, ds[i + 1..]);
    var after := Discovered(before, a, d.result);
    forall e | e in ds[i + 1..] && e.good ensures AddressOfDevice(e) != a {
      var j :| 0 <= j < |ds[i + 1..]| && ds[i + 1..][j] == e;
      assert ds[i + 1 + j] == e;
    }
    PassKeepsBijection(after, ds[i + 1..]);
    OutcomeIs(before, a, d.result);
  }

  lemma PassStep(t: Table, d: Device, rest: seq<Device>)
    requires d.good
    ensures Pass(t, [d] + rest) == Pass(Discovered(t, Address(d.fd, d.address * 2 % 0x100), d.result), rest)
  {
    assert ([d] + rest)[1..] == rest;
  }

  lemma OutcomeIs(t: Table, a: Address, result: Option<Eid>)
    requires Bijective(t)
    ensures var taken := result.Some? && exists x | x in t :: x.eid == result.value && x.address != a;
            Outcome(t, a, result) == if result.Some? && !taken then result.value else EID_NULL
  {
    if result.Some? {
      AddressOfRow(t, result.value);
      if x :| x in t && x.eid == result.value {
        var i :| 0 <= i < |t| && t[i] == x;
        var j :| 0 <= j < |t| && t[j] == Entry(result.value, AddressOf(t, result.value).value);
      }
    }
  }

  /** Through any number of passes, starting with the empty table, with any registration results, lookups both ways stay
      inverse to each other. */
  lemma {:induction false} PassesKeepLookupsInverse(t: Table, runs: seq<seq<Device>>, e: Eid, a: Address)
    requires Bijective(t) && e != EID_NULL
    ensures Bijective(Passes(t, runs))
    ensures EidOf(Passes(t, runs), a) == e <==> AddressOf(Passes(t, runs), e) == Some(a)
    decreases |runs|
  {
    if runs == [] {
      LookupsAreInverse(t, e, a);
    } else {
      PassKeepsBijection(t, runs[0]);
      PassesKeepLookupsInverse(Pass(t, runs[0]), runs[1..], e, a);
    }
  }

  // ----- the code -----

  datatype Private = Private(fd: int, slave: byte, muxHoldTimeout: nat, muxPort: bool)

  class SmbusBinding {
    var smbusDeviceTable: Table
    var muxPorts: set<int>

    constructor (muxes: set<int>)
      ensures smbusDeviceTable == [] && muxPorts == muxes && Bijective(smbusDeviceTable)
    {
      smbusDeviceTable, muxPorts := [], muxes;
    }

    method RemoveDeviceTableEntry(eid: Eid)
      modifies this`smbusDeviceTable
      ensures smbusDeviceTable == Without(old(smbusDeviceTable), eid)
    {
      hide Without;
      var kept: Table := [];
      var i := 0;
      while i < |smbusDeviceTable|
        invariant 0 <= i <= |smbusDeviceTable| && unchanged(this)
        invariant kept + Without(smbusDeviceTable[i..], eid) == Without(smbusDeviceTable, eid)
      {
        WithoutStep(smbusDeviceTable[i..], eid);
        assert smbusDeviceTable[i..][1..] == smbusDeviceTable[i + 1..];
        if smbusDeviceTable[i].eid != eid {
          kept := kept + [smbusDeviceTable[i]];
        }
        i := i + 1;
      }
      WithoutStep([], eid);
      assert smbusDeviceTable[i..] == [] && kept + [] == kept;
      smbusDeviceTable := kept;
    }

    method GetEidFromDeviceTable(a: Address) returns (eid: Eid)
      ensures eid == EidOf(smbusDeviceTable, a)
      ensures (exists x | x in smbusDeviceTable :: x.address == a) ==>
                exists i | 0 <= i < |smbusDeviceTable| ::
                  && smbusDeviceTable[i] == Entry(eid, a)
                  && forall j | 0 <= j < i :: smbusDeviceTable[j].address != a
      ensures (forall x | x in smbusDeviceTable :: x.address != a) ==> eid == 0
    {
      FirstAddress(smbusDeviceTable, a);
      eid := EID_NULL;
      var i := 0;
      while i < |smbusDeviceTable|
        invariant 0 <= i <= |smbusDeviceTable| && eid == EID_NULL
        invariant EidOf(smbusDeviceTable[i..], a) == EidOf(smbusDeviceTable, a)
      {
        var entry := smbusDeviceTable[i];
        if entry.address.slave == a.slave && entry.address.fd == a.fd {
          eid := entry.eid;
          break;
        }
        assert smbusDeviceTable[i..][1..] == smbusDeviceTable[i + 1..];
        i := i + 1;
      }
    }

    method GetBindingPrivateData(eid: Eid) returns (data: Option<Private>)
      ensures data.None? <==> forall x | x in smbusDeviceTable :: x.eid != eid
      ensures data.Some? ==>
                exists i | 0 <= i < |smbusDeviceTable| ::
                  && smbusDeviceTable[i] == Entry(eid, Address(data.value.fd, data.value.slave))
                  && forall j | 0 <= j < i :: smbusDeviceTable[j].eid != eid
      ensures data.Some? ==>
                && Some(Address(data.value.fd, data.value.slave)) == AddressOf(smbusDeviceTable, eid)
                && data.value.muxHoldTimeout == (if data.value.fd in muxPorts then 1000 else 0)
                && data.value.muxPort == (data.value.fd in muxPorts)
    {
      FirstEid(smbusDeviceTable, eid);
      var i := 0;
      while i < |smbusDeviceTable|
        invariant 0 <= i <= |smbusDeviceTable|
        invariant AddressOf(smbusDeviceTable[i..], eid) == AddressOf(smbusDeviceTable, eid)
      {
        var entry := smbusDeviceTable[i];
        if entry.eid == eid {
          if entry.address.fd in muxPorts {
            return Some(Private(entry.address.fd, entry.address.slave, 1000, true));
          } else {
            return Some(Private(entry.address.fd, entry.address.slave, 0, false));
          }
        }
        assert smbusDeviceTable[i..][1..] == smbusDeviceTable[i + 1..];
        i := i + 1;
      }
      data := None;
    }

    /** The registration loop of a discovery pass. */
    method InitEndpointDiscovery(devices: seq<Device>)
      modifies this`smbusDeviceTable
      ensures smbusDeviceTable == Pass(old(smbusDeviceTable), devices)
    {
      hide Without, EidOf, AddressOf, AddressOfDevice;
      var i := 0;
      assert devices[0..] == devices;
      while i < |devices|
        invariant 0 <= i <= |devices|
        invariant Pass(smbusDeviceTable, devices[i..]) == Pass(old(smbusDeviceTable), devices)
      {
        assert devices[i..][1..] == devices[i + 1..] && devices[i..][0] == devices[i];
        var device := devices[i];
        i := i + 1;
        if !device.good {
          continue;
        }
        var address := AddressOfDevice(device);
        var registeredEid := GetEidFromDeviceTable(address);
        var eid := device.result;
        if eid.Some? {
          var isEidPresent := IsPresent(eid.value);
          WithoutNone(registeredEid);
          if eid.value != registeredEid {
            if |smbusDeviceTable| != 0 {
              RemoveDeviceTableEntry(registeredEid);
            }
          }
          if !isEidPresent && eid.value != EID_NULL {
            smbusDeviceTable := smbusDeviceTable + [Entry(eid.value, address)];
          }
        } else {
          WithoutNone(registeredEid);
          if |smbusDeviceTable| != 0 {
            RemoveDeviceTableEntry(registeredEid);
          }
        }
      }
    }

    method IsPresent(eid: Eid) returns (present: bool)
      ensures present == AddressOf(smbusDeviceTable, eid).Some?
    {
      present := false;
      var i := 0;
      while i < |smbusDeviceTable|
        invariant 0 <= i <= |smbusDeviceTable|
        invariant present == exists j | 0 <= j < i :: smbusDeviceTable[j].eid == eid
      {
        if smbusDeviceTable[i].eid == eid {
          present := true;
        }
        i := i + 1;
      }
      AddressOfRow(smbusDeviceTable, eid);
    }
  }

  lemma WithoutNone(e: Eid)
    ensures Without([], e) == []
  {
  }
}
