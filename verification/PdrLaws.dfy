/** What the repository promises over whole runs: what a removal leaves, how handles stay ordered,
    and when following "next record" handles visits every record. */
module PdrLaws {
  import opened Bytes
  import opened PdrRecords

  // ----- what a removal leaves -----

  function LocalCount(rs: seq<Record>): nat {
    if rs == [] then 0
    else LocalCount(rs[..|rs| - 1]) + (if rs[|rs| - 1].remote then 0 else 1)
  }

  /** The local records, each once and in the original order, are what the filter keeps. */
  lemma {:induction false} LocalsInOrder(rs: seq<Record>, i: nat)
    requires i < |rs|
    ensures |Locals(rs)| == LocalCount(rs)
    ensures !rs[i].remote ==>
              LocalCount(rs[..i]) < |Locals(rs)| && Locals(rs)[LocalCount(rs[..i])] == rs[i]
  {
    var front := rs[..|rs| - 1];
    LocalCountIsSize(front);
    if i < |front| {
      LocalsInOrder(front, i);
      assert front[..i] == rs[..i];
    }
  }

  lemma {:induction false} LocalCountIsSize(rs: seq<Record>)
    ensures |Locals(rs)| == LocalCount(rs)
  {
    if rs != [] {
      LocalCountIsSize(rs[..|rs| - 1]);
    }
  }

  /** A removal that removes something: local record `i` survives at its rank among the locals, is
      still local, keeps every byte after the handle, and its handle is rank + 1 in the node and in
      its stored header. With nothing to remove, nothing changes. */
  lemma RemovalKeepsLocals(rs: seq<Record>, i: nat)
    requires Patchable(rs) && i < |rs| && !rs[i].remote
    ensures !AnyRemote(rs) ==> RemotesRemoved(rs) == rs
    ensures AnyRemote(rs) ==>
              var kept, rank := RemotesRemoved(rs), LocalCount(rs[..i]);
              && |kept| == LocalCount(rs) < |rs|
              && rank < |kept|
              && !kept[rank].remote
              && HANDLE_SIZE <= |kept[rank].data| == |rs[i].data|
              && kept[rank].handle == Wrap32(rank + 1) == Le32At(kept[rank].data, 0)
              && kept[rank].data[HANDLE_SIZE..] == rs[i].data[HANDLE_SIZE..]
  {
    hide AnyRemote, LocalCount, Locals;
    LocalsInOrder(rs, i);
    LocalsKeepShape(rs);
    if AnyRemote(rs) {
      FewerLocals(rs);
    }
  }

  lemma {:induction false} FewerLocals(rs: seq<Record>)
    ensures LocalCount(rs) <= |rs|
    ensures AnyRemote(rs) ==> LocalCount(rs) < |rs|
  {
    if rs != [] {
      var front := rs[..|rs| - 1];
      FewerLocals(front);
      if AnyRemote(rs) && !rs[|rs| - 1].remote {
        var i :| 0 <= i < |rs| && rs[i].remote;
        assert front[i].remote;
      }
    }
  }

  /** The byte total afterwards is the byte total of the local records. */
  lemma {:induction false} LocalSize(rs: seq<Record>)
    requires Patchable(rs)
    ensures TotalSize(RemotesRemoved(rs)) == TotalSize(Locals(rs))
  {
    LocalsKeepShape(rs);
    if AnyRemote(rs) {
      SameLengthsSameSize(Renumbered(Locals(rs)), Locals(rs));
    }
  }

  lemma {:induction false} SameLengthsSameSize(a: seq<Record>, b: seq<Record>)
    requires |a| == |b| && forall i | 0 <= i < |a| :: |a[i].data| == |b[i].data|
    ensures TotalSize(a) == TotalSize(b)
  {
    if a != [] {
      SameLengthsSameSize(a[..|a| - 1], b[..|b| - 1]);
    }
  }

  // ----- runs -----

  datatype Operation =
    | AddPdr(data: seq<byte>, handle: u32, remote: bool)
    | RemoveRemotes

  /** What the repository asserts and its callers promise: a PDR is not empty, a computed handle does
      not overflow and has a field to go to, and a supplied handle is above the last one. */
  ghost predicate Allowed(rs: seq<Record>, op: Operation) {
    match op
    case RemoveRemotes => Patchable(rs)
    case AddPdr(data, handle, _) =>
      && 0 < |data|
      && (handle == 0 ==> HANDLE_SIZE <= |data| && LastHandle(rs) != U32_MAX)
      && (handle != 0 ==> handle > LastHandle(rs))
  }

  ghost function Apply(rs: seq<Record>, op: Operation): (s: seq<Record>)
    requires Allowed(rs, op)
  {
    match op
    case AddPdr(data, handle, remote) => rs + [NewRecord(rs, data, handle, remote)]
    case RemoveRemotes => RemotesRemoved(rs)
  }

  /** `states` is a run of the repository from empty. */
  ghost predicate IsRun(ops: seq<Operation>, states: seq<seq<Record>>) {
    && |states| == |ops| + 1
    && states[0] == []
    && forall i | 0 <= i < |ops| ::
         Allowed(states[i], ops[i]) && states[i + 1] == Apply(states[i], ops[i])
  }

  ghost predicate Ascending(rs: seq<Record>) {
    && (rs != [] ==> 0 < rs[0].handle)
    && forall i, j | 0 <= i < j < |rs| :: rs[i].handle < rs[j].handle
  }

  /** Ascending 32-bit handles bound the number of records, so renumbering cannot wrap. */
  lemma {:induction false} AscendingBound(rs: seq<Record>)
    requires Ascending(rs)
    ensures |rs| <= LastHandle(rs)
  {
    if |rs| > 1 {
      AscendingBound(rs[..|rs| - 1]);
      assert rs[|rs| - 2].handle < rs[|rs| - 1].handle;
    }
  }

  lemma StepKeepsAscending(rs: seq<Record>, op: Operation)
    requires Allowed(rs, op) && Ascending(rs)
    ensures Ascending(Apply(rs, op))
  {
    if op.AddPdr? {
      assert forall i | 0 <= i < |rs| :: rs[i].handle <= LastHandle(rs);
    } else {
      AscendingBound(rs);
      LocalsKeepShape(rs);
      var kept := RemotesRemoved(rs);
      if AnyRemote(rs) {
        forall i | 0 <= i < |kept|
          ensures kept[i].handle == i + 1
        {
          assert Wrap32(i + 1) == i + 1;
        }
      }
    }
  }

  /** Over every run handles are non-zero and strictly increasing. */
  lemma {:induction false} RunsStayAscending(ops: seq<Operation>, states: seq<seq<Record>>)
    requires IsRun(ops, states)
    ensures forall s | s in states :: Ascending(s)
  {
    if ops != [] {
      var n := |ops| - 1;
      RunsStayAscending(ops[..n], states[..n + 1]);
      StepKeepsAscending(states[n], ops[n]);
      assert states == states[..n + 1] + [states[n + 1]];
      assert states[n] in states[..n + 1];
    }
  }

  // ----- iteration by next handle -----

  /** Indices visited by looking up `handle`, then each reported next handle, until the reported
      handle is 0 or nothing is found, or `fuel` lookups are spent; and whether it ended. */
  function Walk(rs: seq<Record>, handle: u32, fuel: nat): (seq<nat>, bool)
    decreases fuel
  {
    if fuel == 0 then ([], false)
    else
      var i := Lookup(rs, handle);
      if i == |rs| then ([], true)
      else if NextHandle(rs, i) == 0 then ([i], true)
      else
        var (rest, ended) := Walk(rs, NextHandle(rs, i), fuel - 1);
        ([i] + rest, ended)
  }

  ghost predicate DistinctHandles(rs: seq<Record>) {
    forall i, j | 0 <= i < j < |rs| :: rs[i].handle != rs[j].handle
  }

  ghost predicate LaterHandlesNonZero(rs: seq<Record>) {
    forall i | 0 < i < |rs| :: rs[i].handle != 0
  }

  /** The walk from handle 0 visits every index once, in list order, and stops by itself. */
  ghost predicate WalkVisitsAll(rs: seq<Record>) {
    exists fuel: nat :: Walk(rs, 0, fuel) == (seq(|rs|, i => i), true)
  }

  lemma {:induction false} WalkFrom(rs: seq<Record>, i: nat, fuel: nat)
    requires DistinctHandles(rs) && LaterHandlesNonZero(rs)
    requires i < |rs| && |rs| - i <= fuel
    ensures i > 0 ==> Lookup(rs, rs[i].handle) == i
    ensures Walk(rs, if i == 0 then 0 else rs[i].handle, fuel) == (seq(|rs| - i, k => i + k), true)
    decreases |rs| - i
  {
    var start: u32 := if i == 0 then 0 else rs[i].handle;
    assert Lookup(rs, start) == i;
    if i + 1 < |rs| {
      WalkFrom(rs, i + 1, fuel - 1);
      assert [i] + seq(|rs| - i - 1, k => i + 1 + k) == seq(|rs| - i, k => i + k);
    } else {
      assert [i] == seq(1, k => i + k);
    }
  }

  lemma {:induction false} VisitedAreFirst(rs: seq<Record>, handle: u32, fuel: nat, k: nat)
    requires k < |Walk(rs, handle, fuel).0|
    ensures var v := Walk(rs, handle, fuel).0;
            && v[k] < |rs|
            && (k == 0 ==> v[k] == Lookup(rs, handle))
            && (k > 0 ==>
                  && v[k - 1] < |rs|
                  && NextHandle(rs, v[k - 1]) != 0
                  && v[k] == Lookup(rs, NextHandle(rs, v[k - 1])))
    decreases k
  {
    if k > 0 {
      VisitedAreFirst(rs, NextHandle(rs, Lookup(rs, handle)), fuel - 1, k - 1);
    }
  }

  /** Exactly when iterating by next handle visits every record once, in order, and stops. */
  lemma WalkVisitsAllIff(rs: seq<Record>)
    ensures WalkVisitsAll(rs) <==> DistinctHandles(rs) && LaterHandlesNonZero(rs)
  {
    var all := seq(|rs|, i => i);
    if DistinctHandles(rs) && LaterHandlesNonZero(rs) {
      if rs == [] {
        assert all == [] && Lookup(rs, 0) == |rs|;
        assert Walk(rs, 0, 1) == (all, true);
      } else {
        WalkFrom(rs, 0, |rs|);
        assert all == seq(|rs| - 0, k => 0 + k);
      }
      assert WalkVisitsAll(rs);
    }
    if WalkVisitsAll(rs) {
      var fuel: nat :| Walk(rs, 0, fuel) == (all, true);
      forall j | 0 < j < |rs|
        ensures rs[j].handle != 0 && Lookup(rs, rs[j].handle) == j
      {
        VisitedAreFirst(rs, 0, fuel, j);
        assert all[j - 1] == j - 1 && all[j] == j;
      }
      forall i, j | 0 <= i < j < |rs|
        ensures rs[i].handle != rs[j].handle
      {
        assert Lookup(rs, rs[j].handle) == j;
      }
    }
  }

  /** In every state of every run the iteration visits every record once, in order, and stops. */
  lemma RunsCanBeWalked(ops: seq<Operation>, states: seq<seq<Record>>, k: nat)
    requires IsRun(ops, states) && k < |states|
    ensures WalkVisitsAll(states[k])
  {
    RunsStayAscending(ops, states);
    var rs := states[k];
    assert rs in states;
    forall i | 0 < i < |rs|
      ensures rs[i].handle != 0
    {
      assert rs[0].handle < rs[i].handle;
    }
    WalkVisitsAllIff(rs);
  }

  /** Without the rule on supplied handles the iteration can miss records: a repeated handle. */
  lemma RepeatedHandleBreaksWalk(data: seq<byte>)
    ensures var rs := [NewRecord([], data, 5, false)];
            !WalkVisitsAll(rs + [NewRecord(rs, data, 5, false)])
  {
    var rs := [NewRecord([], data, 5, false)];
    var both := rs + [NewRecord(rs, data, 5, false)];
    assert both[0].handle == both[1].handle;
    WalkVisitsAllIff(both);
  }
}
