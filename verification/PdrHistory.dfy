/** The repository against a plain account of what was added: nothing but flags and contents, no handles. */
module PdrHistory {
  import opened Bytes
  import opened PdrRecords
  import opened PdrLaws

  /** What stays of a PDR whatever its handle: its size, the bytes behind the handle, and where it came from. */
  datatype Kept = Kept(size: nat, behind: seq<byte>, remote: bool)

  function KeptOf(data: seq<byte>, remote: bool): Kept {
    Kept(|data|, if |data| < HANDLE_SIZE then data else data[HANDLE_SIZE..], remote)
  }

  function Contents(rs: seq<Record>): (ks: seq<Kept>)
    ensures |ks| == |rs|
  {
    seq(|rs|, i requires 0 <= i < |rs| => KeptOf(rs[i].data, rs[i].remote))
  }

  function LocalOnes(ks: seq<Kept>): seq<Kept> {
    if ks == [] then []
    else LocalOnes(ks[..|ks| - 1]) + if ks[|ks| - 1].remote then [] else [ks[|ks| - 1]]
  }

  /** The account: an add appends, a removal strikes out what is remote. */
  function History(ops: seq<Operation>): seq<Kept> {
    if ops == [] then []
    else
      var before := History(ops[..|ops| - 1]);
      match ops[|ops| - 1]
      case AddPdr(data, _, remote) => before + [KeptOf(data, remote)]
      case RemoveRemotes => LocalOnes(before)
  }

  /** An add appends one record: under the handle asked for, or the one after the last, with the flag given and all
      bytes as given; only the handle field of a PDR without a handle of its own is set, to the handle, lowest byte
      first. */
  lemma AddStores(rs: seq<Record>, data: seq<byte>, handle: u32, remote: bool)
    requires Allowed(rs, AddPdr(data, handle, remote))
    ensures var s := Apply(rs, AddPdr(data, handle, remote));
            && |s| == |rs| + 1 && s[..|rs|] == rs
            && var r := s[|rs|];
               && r.remote == remote && |r.data| == |data|
               && (handle != 0 ==> r.handle == handle && r.data == data)
               && (handle == 0 ==>
                     && r.handle == (if rs == [] then 1 else rs[|rs| - 1].handle + 1)
                     && r.data[4..] == data[4..]
                     && r.handle as int == r.data[0] as int + 0x100 * (r.data[1] as int)
                                          + 0x1_0000 * (r.data[2] as int) + 0x100_0000 * (r.data[3] as int))
  {
    if handle == 0 {
      var r := NewRecord(rs, data, handle, remote);
      assert r.data[4..] == data[4..];
    }
  }

  lemma {:induction false} ContentsOfLocals(rs: seq<Record>)
    ensures Contents(Locals(rs)) == LocalOnes(Contents(rs))
  {
    if rs != [] {
      var front, last := rs[..|rs| - 1], rs[|rs| - 1];
      ContentsOfLocals(front);
      assert Contents(rs)[..|rs| - 1] == Contents(front);
      assert Contents(rs)[|rs| - 1] == KeptOf(last.data, last.remote);
      if !last.remote {
        assert Contents(Locals(front) + [last]) == Contents(Locals(front)) + [KeptOf(last.data, last.remote)];
      }
    }
  }

  lemma RenumberedContents(rs: seq<Record>)
    requires WellFormed(rs)
    ensures Contents(Renumbered(rs)) == Contents(rs)
  {
    forall i | 0 <= i < |rs| ensures Contents(Renumbered(rs))[i] == Contents(rs)[i] {
      var r := RenumberedAt(rs[i], i);
      assert r.data[4..] == rs[i].data[4..];
    }
  }

  lemma {:induction false} AllLocal(ks: seq<Kept>)
    requires forall i | 0 <= i < |ks| :: !ks[i].remote
    ensures LocalOnes(ks) == ks
  {
    if ks != [] {
      AllLocal(ks[..|ks| - 1]);
    }
  }

  lemma RemovalContents(rs: seq<Record>)
    requires Patchable(rs)
    ensures Contents(RemotesRemoved(rs)) == LocalOnes(Contents(rs))
  {
    if AnyRemote(rs) {
      RenumberedContents(Locals(rs));
      ContentsOfLocals(rs);
    } else {
      AllLocal(Contents(rs));
    }
  }

  /** In every state of every run the repository holds what the account says, in its order: each PDR with the flag and
      the bytes behind the handle that it was added with. */
  lemma {:induction false} RunsKeepAccount(ops: seq<Operation>, states: seq<seq<Record>>, k: nat)
    requires IsRun(ops, states) && k < |states|
    ensures Contents(states[k]) == History(ops[..k])
  {
    if k > 0 {
      RunsKeepAccount(ops, states, k - 1);
      var op, rs := ops[k - 1], states[k - 1];
      assert Allowed(rs, op) && states[k - 1 + 1] == Apply(rs, op);
      assert ops[..k][..k - 1] == ops[..k - 1] && ops[..k][k - 1] == op;
      match op
      case AddPdr(data, handle, remote) =>
        AddStores(rs, data, handle, remote);
        assert Contents(states[k]) == Contents(rs) + [KeptOf(data, remote)];
      case RemoveRemotes => RemovalContents(rs);
    }
  }

  lemma {:induction false} NoneRemote(ks: seq<Kept>)
    ensures forall i | 0 <= i < |LocalOnes(ks)| :: !LocalOnes(ks)[i].remote
    ensures forall x | x in ks && !x.remote :: x in LocalOnes(ks)
  {
    if ks != [] {
      var front, last := ks[..|ks| - 1], ks[|ks| - 1];
      NoneRemote(front);
      forall x | x in ks && !x.remote ensures x in LocalOnes(ks) {
        assert x in front || x == last;
      }
    }
  }

  /** A PDR added as local is in every later state, with the size and the bytes behind the handle it was added with. */
  lemma LocalsStay(ops: seq<Operation>, states: seq<seq<Record>>, i: nat, k: nat)
    requires IsRun(ops, states) && i < k < |states| && ops[i].AddPdr? && !ops[i].remote
    ensures exists r | r in states[k] :: KeptOf(r.data, r.remote) == KeptOf(ops[i].data, false)
  {
    assert |states| == |ops| + 1 && ops[..k][i] == ops[i];
    hide IsRun, History, KeptOf;
    RunsKeepAccount(ops, states, k);
    AddedStays(ops[..k], i);
    FoundInContents(states[k], KeptOf(ops[i].data, false));
  }

  lemma FoundInContents(rs: seq<Record>, x: Kept)
    requires x in Contents(rs)
    ensures exists r | r in rs :: KeptOf(r.data, r.remote) == x
  {
    hide KeptOf;
    var j :| 0 <= j < |rs| && Contents(rs)[j] == x;
    assert rs[j] in rs;
  }

  /** Right after a removal nothing in the repository is remote. */
  lemma RemotesGo(ops: seq<Operation>, states: seq<seq<Record>>, k: nat)
    requires IsRun(ops, states) && 0 < k < |states| && ops[k - 1].RemoveRemotes?
    ensures forall r | r in states[k] :: !r.remote
  {
    RunsKeepAccount(ops, states, k);
    assert ops[..k][..k - 1] == ops[..k - 1] && ops[..k][k - 1] == ops[k - 1];
    hide IsRun, LocalOnes, Contents;
    NoneRemote(History(ops[..k - 1]));
    forall r | r in states[k] ensures !r.remote {
      var j :| 0 <= j < |states[k]| && states[k][j] == r;
      ContentsAt(states[k], j);
    }
  }

  lemma ContentsAt(rs: seq<Record>, j: nat)
    requires j < |rs|
    ensures |Contents(rs)| == |rs| && Contents(rs)[j].remote == rs[j].remote
  {
  }

  lemma {:induction false} AddedStays(ops: seq<Operation>, i: nat)
    requires i < |ops| && ops[i].AddPdr? && !ops[i].remote
    ensures KeptOf(ops[i].data, false) in History(ops)
  {
    var front := ops[..|ops| - 1];
    if i < |front| {
      AddedStays(front, i);
      NoneRemote(History(front));
    }
  }

  // ----- sizes -----

  function Flattened(rs: seq<Record>): seq<byte> {
    if rs == [] then [] else Flattened(rs[..|rs| - 1]) + rs[|rs| - 1].data
  }

  /** The byte total is the length of all PDRs written one after the other. */
  lemma {:induction false} SizeIsAllBytes(rs: seq<Record>)
    ensures TotalSize(rs) == |Flattened(rs)|
  {
    if rs != [] {
      SizeIsAllBytes(rs[..|rs| - 1]);
    }
  }
}
