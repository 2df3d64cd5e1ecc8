/** Entity association PDRs: their bytes, reading them back, and what the PDRs of a whole tree say. */
module EntityPdr {
  import opened Bytes
  import opened EntityForest
  import opened EntityTreeLaws
  import opened PdrRecords

  const ENTITY_ASSOCIATION_TYPE: byte := 15
  /** Bytes of one entity. */
  const ENTITY_SIZE := 6
  /** Offsets inside an entity association PDR, after the common header. */
  const CID_AT := 10
  const ASSOCIATION_AT := 12
  const CONTAINER_AT := 13
  const COUNT_AT := 19
  const CHILDREN_AT := 20

  /** The children of one node under one kind of association. */
  datatype Group = Group(parent: Entity, cid: u16, assoc: Association, children: seq<Entity>)

  function AssociationByte(a: Association): byte {
    if a == Physical then 0 else 1
  }

  function EntityBytes(e: Entity): (s: seq<byte>)
    ensures |s| == ENTITY_SIZE
  {
    Le16(e.ty) + Le16(e.inst) + Le16(e.cid)
  }

  function EntitiesBytes(es: seq<Entity>): (s: seq<byte>)
    ensures |s| == 6 * |es|
  {
    if es == [] then [] else EntityBytes(es[0]) + EntitiesBytes(es[1..])
  }

  function GroupHeader(g: Group): (s: seq<byte>)
    requires |g.children| <= 0xFF
    ensures |s| == CHILDREN_AT
  {
    Le32(0) + [1, ENTITY_ASSOCIATION_TYPE] + Le16(0) + Le16(6 * |g.children| + CHILDREN_AT - PDR_HEADER_SIZE)
    + Le16(g.cid) + [AssociationByte(g.assoc)] + EntityBytes(g.parent) + [|g.children|]
  }

  function GroupPdr(g: Group): (s: seq<byte>)
    requires |g.children| <= 0xFF
    ensures |s| == CHILDREN_AT + 6 * |g.children|
  {
    GroupHeader(g) + EntitiesBytes(g.children)
  }

  // ----- reading back -----

  function EntityAt(pdr: seq<byte>, at: nat): Entity
    requires at + ENTITY_SIZE <= |pdr|
  {
    Entity(Le16At(pdr, at), Le16At(pdr, at + 2), Le16At(pdr, at + 4))
  }

  /** What the extractor asserts of its input; the length field is not compared with the length of the input. */
  predicate Asserted(pdr: seq<byte>) {
    && PDR_HEADER_SIZE + 16 <= |pdr|
    && pdr[PDR_TYPE_OFFSET] == ENTITY_ASSOCIATION_TYPE
    && 1 <= pdr[COUNT_AT]
    && CHILDREN_AT + 6 * pdr[COUNT_AT] as int == PDR_HEADER_SIZE + Le16At(pdr, 8)
  }

  /** The assertions hold and all contained entities lie inside the input. */
  predicate ExtractOk(pdr: seq<byte>) {
    Asserted(pdr) && CHILDREN_AT + 6 * pdr[COUNT_AT] as int <= |pdr|
  }

  /** The assertions alone do not keep the extractor inside its input: 26 bytes that announce two contained entities. */
  lemma AssertedCanOverrun()
    ensures exists pdr :: Asserted(pdr) && !ExtractOk(pdr)
  {
    var pdr: seq<byte> :=
      [0, 0, 0, 0, 1, ENTITY_ASSOCIATION_TYPE, 0, 0, 22, 0, 1, 0, 0, 1, 0, 1, 0, 0, 0, 2, 2, 0, 1, 0, 1, 0];
    assert Asserted(pdr) && !ExtractOk(pdr);
  }

  /** The container first, then the contained entities. */
  ghost function Extracted(pdr: seq<byte>): seq<Entity>
    requires ExtractOk(pdr)
  {
    [EntityAt(pdr, CONTAINER_AT)]
    + seq(pdr[COUNT_AT], k requires 0 <= k < pdr[COUNT_AT] => EntityAt(pdr, CHILDREN_AT + 6 * k))
  }

  /** A whole group read from a PDR. */
  ghost function Decoded(pdr: seq<byte>): Group
    requires ExtractOk(pdr)
  {
    var assoc := if pdr[ASSOCIATION_AT] == 0 then Physical else Logical;
    Group(Extracted(pdr)[0], Le16At(pdr, CID_AT), assoc, Extracted(pdr)[1..])
  }

  lemma EntityParts(e: Entity)
    ensures var s := EntityBytes(e); s[0..2] == Le16(e.ty) && s[2..4] == Le16(e.inst) && s[4..6] == Le16(e.cid)
  {
  }

  lemma EntityRoundTrip(pdr: seq<byte>, at: nat, e: Entity)
    requires at + ENTITY_SIZE <= |pdr| && pdr[at..at + ENTITY_SIZE] == EntityBytes(e)
    ensures EntityAt(pdr, at) == e
  {
    EntityParts(e);
    SliceOfSlice(pdr, at, at + ENTITY_SIZE, 0, 2);
    SliceOfSlice(pdr, at, at + ENTITY_SIZE, 2, 4);
    SliceOfSlice(pdr, at, at + ENTITY_SIZE, 4, 6);
    Le16RoundTrip(pdr, at, e.ty);
    Le16RoundTrip(pdr, at + 2, e.inst);
    Le16RoundTrip(pdr, at + 4, e.cid);
  }

  lemma {:induction false} EntitiesBytesAt(es: seq<Entity>, k: nat)
    requires k < |es|
    ensures EntitiesBytes(es)[6 * k..6 * k + ENTITY_SIZE] == EntityBytes(es[k])
  {
    if k > 0 {
      EntitiesBytesAt(es[1..], k - 1);
      var rest := EntitiesBytes(es[1..]);
      assert EntitiesBytes(es) == EntityBytes(es[0]) + rest;
      assert EntitiesBytes(es)[6 * k..6 * k + ENTITY_SIZE]
          == rest[6 * (k - 1)..6 * (k - 1) + ENTITY_SIZE];
    }
  }

  lemma HeaderFields(g: Group, pdr: seq<byte>)
    requires 1 <= |g.children| <= 0xFF && CHILDREN_AT <= |pdr|
    requires forall i | 4 <= i < CHILDREN_AT :: pdr[i] == GroupHeader(g)[i]
    ensures pdr[PDR_TYPE_OFFSET] == ENTITY_ASSOCIATION_TYPE
    ensures Le16At(pdr, 8) == 6 * |g.children| + CHILDREN_AT - PDR_HEADER_SIZE
    ensures Le16At(pdr, CID_AT) == g.cid && pdr[ASSOCIATION_AT] == AssociationByte(g.assoc)
    ensures EntityAt(pdr, CONTAINER_AT) == g.parent && pdr[COUNT_AT] == |g.children|
  {
    var h := GroupHeader(g);
    assert pdr[5..6] == h[5..6] == [ENTITY_ASSOCIATION_TYPE];
    assert pdr[5] == pdr[5..6][0];
    var len := 6 * |g.children| + CHILDREN_AT - PDR_HEADER_SIZE;
    assert pdr[8..10] == h[8..10] == Le16(len);
    Le16RoundTrip(pdr, 8, len);
    assert pdr[10..12] == h[10..12] == Le16(g.cid);
    Le16RoundTrip(pdr, CID_AT, g.cid);
    assert pdr[12..13] == h[12..13] == [AssociationByte(g.assoc)];
    assert pdr[12] == pdr[12..13][0];
    assert pdr[13..19] == h[13..19] == EntityBytes(g.parent);
    EntityRoundTrip(pdr, CONTAINER_AT, g.parent);
    assert pdr[19..20] == h[19..20] == [|g.children|];
    assert pdr[19] == pdr[19..20][0];
  }

  /** The extractor reads back what was written, whatever handle the repository put in the header. */
  lemma ExtractRoundTrip(g: Group, handle: u32)
    requires 1 <= |g.children| <= 0xFF
    ensures var pdr := Patched(GroupPdr(g), handle);
            ExtractOk(pdr) && Extracted(pdr) == [g.parent] + g.children && Decoded(pdr) == g
  {
    var pdr := Patched(GroupPdr(g), handle);
    HeaderFields(g, pdr);
    assert pdr[CHILDREN_AT..] == EntitiesBytes(g.children);
    assert pdr[CHILDREN_AT..|pdr|] == pdr[CHILDREN_AT..];
    forall k | 0 <= k < |g.children|
      ensures EntityAt(pdr, CHILDREN_AT + 6 * k) == g.children[k]
    {
      EntitiesBytesAt(g.children, k);
      SliceOfSlice(pdr, CHILDREN_AT, |pdr|, 6 * k, 6 * k + ENTITY_SIZE);
      EntityRoundTrip(pdr, CHILDREN_AT + 6 * k, g.children[k]);
    }
    assert Extracted(pdr)[1..] == g.children;
  }

  // ----- the PDRs of a tree -----

  function OfAssociation<K>(f: Forest<K>, a: Association): seq<Entity> {
    if f.Nil? then []
    else (if f.assoc == a then [f.e] else []) + OfAssociation(f.sib, a)
  }

  function GroupOf<K>(f: Forest<K>, a: Association): seq<Group>
    requires f.Node?
  {
    if OfAssociation(f.child, a) == [] then []
    else [Group(f.e, f.child.e.cid, a, OfAssociation(f.child, a))]
  }

  /** The groups in the order in which their PDRs are emitted: a node, its later siblings, its children. */
  function Groups<K>(f: Forest<K>): seq<Group> {
    if f.Nil? then []
    else GroupOf(f, Logical) + GroupOf(f, Physical) + Groups(f.sib) + Groups(f.child)
  }

  /** The asserted limit: at most 254 children of each kind under every node. */
  predicate Countable<K>(f: Forest<K>) {
    f.Node? ==>
      && |OfAssociation(f.child, Logical)| < 0xFF && |OfAssociation(f.child, Physical)| < 0xFF
      && Countable(f.sib) && Countable(f.child)
  }

  ghost predicate Encodable(gs: seq<Group>) {
    forall i | 0 <= i < |gs| :: 1 <= |gs[i].children| < 0xFF
  }

  lemma {:induction false} GroupsEncodable<K>(f: Forest<K>)
    requires Countable(f)
    ensures Encodable(Groups(f))
  {
    if f.Node? {
      GroupsEncodable(f.sib);
      GroupsEncodable(f.child);
    }
  }

  /** The repository after the PDRs of the groups were added with computed handles. */
  function Stored(rs: seq<Record>, gs: seq<Group>, remote: bool): seq<Record>
    requires LastHandle(rs) + |gs| <= U32_MAX
    requires forall i | 0 <= i < |gs| :: 1 <= |gs[i].children| < 0xFF
    decreases gs
  {
    if gs == [] then rs
    else Stored(rs + [NewRecord(rs, GroupPdr(gs[0]), 0, remote)], gs[1..], remote)
  }

  lemma StoredStep(rs: seq<Record>, gs: seq<Group>, remote: bool)
    requires LastHandle(rs) + |gs| <= U32_MAX && Encodable(gs) && gs != []
    ensures var r := NewRecord(rs, GroupPdr(gs[0]), 0, remote);
            && LastHandle(rs + [r]) == LastHandle(rs) + 1 && Encodable(gs[1..])
            && Stored(rs, gs, remote) == Stored(rs + [r], gs[1..], remote)
  {
    hide GroupPdr, Patched;
  }

  lemma {:induction false} StoredPrefix(rs: seq<Record>, gs: seq<Group>, remote: bool)
    requires LastHandle(rs) + |gs| <= U32_MAX && Encodable(gs)
    ensures var s := Stored(rs, gs, remote);
            |s| == |rs| + |gs| && s[..|rs|] == rs
    decreases gs
  {
    hide GroupPdr, NewRecord, LastHandle;
    if gs != [] {
      StoredStep(rs, gs, remote);
      var r := NewRecord(rs, GroupPdr(gs[0]), 0, remote);
      StoredPrefix(rs + [r], gs[1..], remote);
      var s := Stored(rs, gs, remote);
      assert s[..|rs|] == s[..|rs| + 1][..|rs|];
    }
  }

  lemma {:induction false} StoredLastHandle(rs: seq<Record>, gs: seq<Group>, remote: bool)
    requires LastHandle(rs) + |gs| <= U32_MAX && Encodable(gs)
    ensures LastHandle(Stored(rs, gs, remote)) == LastHandle(rs) + |gs|
    decreases gs
  {
    hide GroupPdr, NewRecord, LastHandle;
    if gs != [] {
      StoredStep(rs, gs, remote);
      StoredLastHandle(rs + [NewRecord(rs, GroupPdr(gs[0]), 0, remote)], gs[1..], remote);
    }
  }

  lemma {:induction false} StoredConcat(rs: seq<Record>, a: seq<Group>, b: seq<Group>, remote: bool)
    requires LastHandle(rs) + |a| + |b| <= U32_MAX && Encodable(a) && Encodable(b)
    ensures Encodable(a + b) && LastHandle(Stored(rs, a, remote)) == LastHandle(rs) + |a|
    ensures Stored(rs, a + b, remote) == Stored(Stored(rs, a, remote), b, remote)
    decreases a
  {
    hide GroupPdr, NewRecord, LastHandle, Stored;
    StoredLastHandle(rs, a, remote);
    if a == [] {
      assert a + b == b;
      StoredNothing(rs, remote);
    } else {
      assert (a + b)[1..] == a[1..] + b;
      StoredStep(rs, a, remote);
      StoredStep(rs, a + b, remote);
      StoredConcat(rs + [NewRecord(rs, GroupPdr(a[0]), 0, remote)], a[1..], b, remote);
    }
  }

  lemma StoredNothing(rs: seq<Record>, remote: bool)
    ensures Stored(rs, [], remote) == rs
  {
  }

  lemma StoredOne(rs: seq<Record>, g: Group, remote: bool)
    requires LastHandle(rs) < U32_MAX && 1 <= |g.children| < 0xFF
    ensures Encodable([g]) && Stored(rs, [g], remote) == rs + [NewRecord(rs, GroupPdr(g), 0, remote)]
  {
    hide GroupPdr, Patched;
    var r := NewRecord(rs, GroupPdr(g), 0, remote);
    assert [g][1..] == [] && Stored(rs + [r], [], remote) == rs + [r];
  }

  /** The record passes the extractor's assertions and yields the group. */
  ghost predicate Tells(r: Record, g: Group) {
    ExtractOk(r.data) && Extracted(r.data) == [g.parent] + g.children && Decoded(r.data) == g
  }

  lemma FirstStored(rs: seq<Record>, g: Group, remote: bool)
    requires LastHandle(rs) < U32_MAX && 1 <= |g.children| < 0xFF
    ensures var r := NewRecord(rs, GroupPdr(g), 0, remote);
            Tells(r, g) && r.handle == LastHandle(rs) + 1 == LastHandle(rs + [r]) && r.remote == remote
  {
    ExtractRoundTrip(g, LastHandle(rs) + 1);
  }

  /** Every stored PDR yields its group, under the next handle in turn. */
  lemma {:induction false} StoredDecodes(rs: seq<Record>, gs: seq<Group>, remote: bool, k: nat)
    requires LastHandle(rs) + |gs| <= U32_MAX && Encodable(gs) && k < |gs|
    ensures var s := Stored(rs, gs, remote);
            && |s| == |rs| + |gs| && s[..|rs|] == rs
            && var r := s[|rs| + k];
            Tells(r, gs[k]) && r.handle == LastHandle(rs) + 1 + k && r.remote == remote
    decreases gs
  {
    hide GroupPdr, Tells, NewRecord;
    var r := NewRecord(rs, GroupPdr(gs[0]), 0, remote);
    FirstStored(rs, gs[0], remote);
    StoredPrefix(rs, gs, remote);
    if k == 0 {
      StoredPrefix(rs + [r], gs[1..], remote);
      assert Stored(rs, gs, remote)[..|rs| + 1] == rs + [r];
      assert Stored(rs, gs, remote)[|rs|] == Stored(rs, gs, remote)[..|rs| + 1][|rs|];
    } else {
      StoredDecodes(rs + [r], gs[1..], remote, k - 1);
    }
  }

  // ----- what the groups of a tree say -----

  /** Each PDR's container id field is the container id of all its contained entities. */
  lemma {:induction false} GroupCidIsShared<K>(f: Forest<K>)
    requires GroupsOk(f)
    ensures forall g | g in Groups(f) :: forall c | c in g.children :: c.cid == g.cid
  {
    hide SiblingsOk, Chain;
    if f.Node? {
      GroupCidIsShared(f.sib);
      GroupCidIsShared(f.child);
      OfAssociationInChain(f.child, Logical);
      OfAssociationInChain(f.child, Physical);
    }
  }

  lemma {:induction false} OfAssociationInChain<K>(f: Forest<K>, a: Association)
    ensures forall c | c in OfAssociation(f, a) :: c in Chain(f)
    ensures f.Node? && SiblingsOk(Chain(f)) ==> forall c | c in OfAssociation(f, a) :: c.cid == f.e.cid
  {
    if f.Node? {
      InChain(f.sib, a);
    }
  }

  lemma {:induction false} InChain<K>(f: Forest<K>, a: Association)
    ensures forall c | c in OfAssociation(f, a) :: c in Chain(f)
  {
    if f.Node? {
      InChain(f.sib, a);
    }
  }

  ghost function Contained(gs: seq<Group>): multiset<Entity> {
    if gs == [] then multiset{} else multiset(gs[0].children) + Contained(gs[1..])
  }

  lemma {:induction false} ContainedConcat(a: seq<Group>, b: seq<Group>)
    ensures Contained(a + b) == Contained(a) + Contained(b)
  {
    if a == [] {
      assert a + b == b;
    } else {
      assert (a + b)[1..] == a[1..] + b;
      ContainedConcat(a[1..], b);
    }
  }

  lemma {:induction false} BothAssociations<K>(f: Forest<K>)
    ensures multiset(OfAssociation(f, Logical)) + multiset(OfAssociation(f, Physical)) == multiset(Chain(f))
  {
    if f.Node? {
      BothAssociations(f.sib);
    }
  }

  lemma ContainedInNode<K>(f: Forest<K>)
    requires f.Node?
    ensures Contained(GroupOf(f, Logical) + GroupOf(f, Physical)) == multiset(Chain(f.child))
  {
    hide *;
    BothAssociations(f.child);
    ContainedConcat(GroupOf(f, Logical), GroupOf(f, Physical));
    ContainedInGroupOf(f, Logical);
    ContainedInGroupOf(f, Physical);
  }

  lemma ContainedInGroupOf<K>(f: Forest<K>, a: Association)
    requires f.Node?
    ensures Contained(GroupOf(f, a)) == multiset(OfAssociation(f.child, a))
  {
    if OfAssociation(f.child, a) != [] {
      assert GroupOf(f, a)[1..] == [];
    }
  }

  /** Taken together the PDRs contain every entity outside the top chain, each as often as it occurs. */
  lemma {:induction false} ContainedIsBelow<K>(f: Forest<K>)
    ensures Contained(Groups(f)) == Below(f)
  {
    if f.Node? {
      ContainedInNode(f);
      ContainedIsBelow(f.sib);
      ContainedIsBelow(f.child);
      AllIsChainAndBelow(f.child);
      var own := GroupOf(f, Logical) + GroupOf(f, Physical);
      ContainedConcat(own, Groups(f.sib));
      ContainedConcat(own + Groups(f.sib), Groups(f.child));
      hide *;
      Regroup(multiset(Chain(f.child)), Below(f.sib), Below(f.child));
      UnfoldBelow(f);
    }
  }

  lemma UnfoldBelow<K>(f: Forest<K>)
    requires f.Node?
    ensures Below(f) == All(f.child) + Below(f.sib)
    ensures Groups(f) == GroupOf(f, Logical) + GroupOf(f, Physical) + Groups(f.sib) + Groups(f.child)
  {
  }

  lemma Regroup(a: multiset<Entity>, b: multiset<Entity>, c: multiset<Entity>)
    ensures a + b + c == (a + c) + b
  {
  }

  /** In a tree every entity outside the top chain is contained in exactly one PDR, once; entities of
      the top chain are contained in none. */
  lemma ContainedExactlyOnce<K>(t: Tree<K>, e: Entity)
    requires TreeOk(t) && e in All(t.root)
    ensures Contained(Groups(t.root))[e] == if e in Chain(t.root) then 0 else 1
  {
    ContainedIsBelow(t.root);
    AllIsChainAndBelow(t.root);
    TriplesAreUnique(t);
    assert All(t.root)[e] == multiset(Chain(t.root))[e] + Below(t.root)[e];
  }

  /** The contained entities of the PDR for a container and a kind; none if there is no such PDR. */
  function ChildrenFromPdrs(gs: seq<Group>, parent: Entity, a: Association): seq<Entity> {
    if gs == [] then []
    else if gs[0].parent == parent && gs[0].assoc == a then gs[0].children
    else ChildrenFromPdrs(gs[1..], parent, a)
  }

  lemma {:induction false} FromConcat(x: seq<Group>, y: seq<Group>, parent: Entity, a: Association)
    requires forall g | g in x :: g.children != []
    ensures ChildrenFromPdrs(x + y, parent, a) ==
            if ChildrenFromPdrs(x, parent, a) != [] then ChildrenFromPdrs(x, parent, a)
            else ChildrenFromPdrs(y, parent, a)
  {
    if x == [] {
      assert x + y == y;
    } else {
      assert (x + y)[1..] == x[1..] + y;
      FromConcat(x[1..], y, parent, a);
    }
  }

  lemma {:induction false} GroupsNonEmpty<K>(f: Forest<K>)
    ensures forall g | g in Groups(f) :: g.children != []
  {
    if f.Node? {
      GroupsNonEmpty(f.sib);
      GroupsNonEmpty(f.child);
    }
  }

  lemma FromNode<K>(f: Forest<K>, parent: Entity, a: Association)
    requires f.Node?
    ensures ChildrenFromPdrs(Groups(f), parent, a) ==
            if parent == f.e && OfAssociation(f.child, a) != [] then OfAssociation(f.child, a)
            else if ChildrenFromPdrs(Groups(f.sib), parent, a) != [] then ChildrenFromPdrs(Groups(f.sib), parent, a)
            else ChildrenFromPdrs(Groups(f.child), parent, a)
  {
    GroupsNonEmpty(f);
    var l, p := GroupOf(f, Logical), GroupOf(f, Physical);
    FromGroupOf(f, Logical, parent, a);
    FromGroupOf(f, Physical, parent, a);
    hide ChildrenFromPdrs, GroupOf;
    FromConcat(l, p, parent, a);
    FromConcat(l + p, Groups(f.sib), parent, a);
    FromConcat(l + p + Groups(f.sib), Groups(f.child), parent, a);
  }

  lemma FromGroupOf<K>(f: Forest<K>, b: Association, parent: Entity, a: Association)
    requires f.Node?
    ensures ChildrenFromPdrs(GroupOf(f, b), parent, a) ==
            if parent == f.e && a == b then OfAssociation(f.child, a) else []
  {
    if OfAssociation(f.child, b) != [] {
      assert GroupOf(f, b)[1..] == [];
    }
  }

  lemma {:induction false} NotAParent<K>(f: Forest<K>, e: Entity, a: Association)
    requires e !in All(f)
    ensures ChildrenFromPdrs(Groups(f), e, a) == []
  {
    if f.Node? {
      FromNode(f, e, a);
      NotAParent(f.sib, e, a);
      NotAParent(f.child, e, a);
    }
  }

  /** `n` is a node of `f`, with everything after and below it. */
  ghost predicate NodeOf<K>(n: Forest<K>, f: Forest<K>) {
    f.Node? && n.Node? && (n == f || NodeOf(n, f.sib) || NodeOf(n, f.child))
  }

  lemma {:induction false} NodeEntityIn<K>(n: Forest<K>, f: Forest<K>)
    requires NodeOf(n, f)
    ensures n.e in All(f)
  {
    if n != f {
      if NodeOf(n, f.sib) {
        NodeEntityIn(n, f.sib);
      } else {
        NodeEntityIn(n, f.child);
      }
    }
  }

  lemma PartsOfNode<K>(f: Forest<K>)
    requires f.Node? && NoDup(All(f))
    ensures f.e !in All(f.child) && f.e !in All(f.sib)
    ensures NoDup(All(f.child)) && NoDup(All(f.sib))
    ensures forall e | e in All(f.child) :: e !in All(f.sib)
  {
    hide All, NoDup;
    AllOfNode(f);
    PartsOfSum(f.e, All(f.child), All(f.sib));
  }

  lemma AllOfNode<K>(f: Forest<K>)
    requires f.Node?
    ensures All(f) == multiset{f.e} + All(f.child) + All(f.sib)
  {
  }

  lemma PartsOfSum(x: Entity, a: multiset<Entity>, b: multiset<Entity>)
    requires NoDup(multiset{x} + a + b)
    ensures x !in a && x !in b && NoDup(a) && NoDup(b) && forall e | e in a :: e !in b
  {
    var all := multiset{x} + a + b;
    assert all[x] == 1 + a[x] + b[x] && all[x] <= 1;
    forall e ensures a[e] + b[e] <= 1 {
      assert all[e] == multiset{x}[e] + a[e] + b[e] && all[e] <= 1;
    }
  }

  lemma {:induction false} ChildrenRecovered<K>(f: Forest<K>, n: Forest<K>, a: Association)
    requires NoDup(All(f)) && NodeOf(n, f)
    ensures ChildrenFromPdrs(Groups(f), n.e, a) == OfAssociation(n.child, a)
  {
    hide Groups, GroupOf, OfAssociation, ChildrenFromPdrs, All, NoDup;
    FromNode(f, n.e, a);
    PartsOfNode(f);
    if n == f {
      NotAParent(f.sib, n.e, a);
      NotAParent(f.child, n.e, a);
    } else if NodeOf(n, f.sib) {
      NodeEntityIn(n, f.sib);
      NotAParent(f.child, n.e, a);
      ChildrenRecovered(f.sib, n, a);
    } else {
      NodeEntityIn(n, f.child);
      NotAParent(f.sib, n.e, a);
      ChildrenRecovered(f.child, n, a);
    }
  }

  /** From the PDRs alone, each node's children of each kind come back, in order. */
  lemma PdrsRecoverTree<K>(t: Tree<K>, n: Forest<K>, a: Association)
    requires TreeOk(t) && NodeOf(n, t.root)
    ensures ChildrenFromPdrs(Groups(t.root), n.e, a) == OfAssociation(n.child, a)
  {
    TriplesAreUnique(t);
    ChildrenRecovered(t.root, n, a);
  }

  /** The groups read from the bytes of stored records. */
  ghost function DecodedAll(rs: seq<Record>): seq<Group>
    requires forall i | 0 <= i < |rs| :: ExtractOk(rs[i].data)
  {
    seq(|rs|, i requires 0 <= i < |rs| => Decoded(rs[i].data))
  }

  /** The repository that the PDRs of a tree were added to: every new record passes the extractor's assertions, and from
      the bytes of the new records alone each node's children of each kind come back, in order. */
  lemma RepositoryRecoversTree<K>(rs: seq<Record>, t: Tree<K>, remote: bool, n: Forest<K>, a: Association)
    requires TreeOk(t) && Countable(t.root) && NodeOf(n, t.root)
    requires LastHandle(rs) + |Groups(t.root)| <= U32_MAX
    ensures Encodable(Groups(t.root)) && |Stored(rs, Groups(t.root), remote)| == |rs| + |Groups(t.root)|
    ensures var added := Stored(rs, Groups(t.root), remote)[|rs|..];
            && (forall i | 0 <= i < |added| :: ExtractOk(added[i].data))
            && ChildrenFromPdrs(DecodedAll(added), n.e, a) == OfAssociation(n.child, a)
  {
    hide Extracted, Decoded, ExtractOk, Groups, TreeOk, Countable, NodeOf;
    var gs := Groups(t.root);
    GroupsEncodable(t.root);
    StoredPrefix(rs, gs, remote);
    var s := Stored(rs, gs, remote);
    var added := s[|rs|..];
    forall i | 0 <= i < |added| ensures ExtractOk(added[i].data) && Decoded(added[i].data) == gs[i] {
      StoredDecodes(rs, gs, remote, i);
      assert added[i] == s[|rs| + i];
    }
    assert DecodedAll(added) == gs;
    PdrsRecoverTree(t, n, a);
  }
}
