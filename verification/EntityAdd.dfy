/** What one add does to a tree, told by the groups of siblings and not by how the add finds its place. */
module EntityAdd {
  import opened Bytes
  import opened EntityForest
  import opened EntityTreeLaws
  import opened Wrappers

  /** What a node says of itself. */
  datatype Member<+K> = Member(id: K, e: Entity, assoc: Association)

  function Members<K>(f: Forest<K>): seq<Member<K>> {
    if f.Nil? then [] else [Member(f.id, f.e, f.assoc)] + Members(f.sib)
  }

  /** The children of the node `q`, in order; none if there is no such node. */
  function MembersBelow<K(==)>(f: Forest<K>, q: K): seq<Member<K>> {
    if f.Nil? then []
    else if f.id == q then Members(f.child)
    else MembersBelow(f.child, q) + MembersBelow(f.sib, q)
  }

  /** The siblings below `q`, or the top ones. */
  function SiblingsOf<K(==)>(f: Forest<K>, q: Option<K>): seq<Member<K>> {
    match q
    case None => Members(f)
    case Some(p) => MembersBelow(f, p)
  }

  function CountOf<K>(s: seq<Member<K>>, ty: u16): nat {
    if s == [] then 0 else CountOf(s[..|s| - 1], ty) + if s[|s| - 1].e.ty == ty then 1 else 0
  }

  /** The end of the first run of a type, or the end. */
  ghost predicate PlaceFor<K>(s: seq<Member<K>>, ty: u16, k: nat) {
    && k <= |s| && (s != [] ==> 0 < k)
    && (0 < k < |s| ==> s[k - 1].e.ty == ty && s[k].e.ty != ty)
    && forall j | 0 < j < k :: !(s[j - 1].e.ty == ty && s[j].e.ty != ty)
  }

  /** `s` with a new member of the type put in at its place: it is numbered after the member before it if that has its
      type, and from 1 otherwise; it shares the container of the others, or opens container `cid`. */
  ghost predicate PutInAt<K>(s: seq<Member<K>>, t: seq<Member<K>>, m: Member<K>, cid: int, k: nat) {
    && PlaceFor(s, m.e.ty, k) && t == s[..k] + [m] + s[k..]
    && m.e.inst == (if 0 < k && s[k - 1].e.ty == m.e.ty then s[k - 1].e.inst + 1 else 1)
    && m.e.cid == (if 0 < k then s[k - 1].e.cid else cid)
  }

  ghost predicate OnePutIn<K>(s: seq<Member<K>>, t: seq<Member<K>>, m: Member<K>, cid: int) {
    exists k: nat :: PutInAt(s, t, m, cid, k)
  }

  // ----- groups under an insert -----

  lemma {:induction false} BelowNone<K>(f: Forest<K>, q: K)
    requires q !in Ids(f)
    ensures MembersBelow(f, q) == []
  {
    if f.Node? {
      BelowNone(f.child, q);
      BelowNone(f.sib, q);
    }
  }

  lemma {:induction false} InsertPutsIn<K>(f: Forest<K>, id: K, ty: u16, assoc: Association) returns (e: Entity)
    requires f.Node? && CanInsert(f, ty)
    ensures e == NewSibling(InsertionPoint(f, ty).e, ty)
    ensures e.ty == ty && OnePutIn(Members(f), Members(Insert(f, id, ty, assoc)), Member(id, e, assoc), 0)
  {
    hide OnePutIn;
    if f.sib.Nil? || (f.e.ty == ty && f.sib.e.ty != ty) {
      e := NewSibling(f.e, ty);
      PutInSecond(Member(f.id, f.e, f.assoc), Members(f.sib), Member(id, e, assoc));
    } else {
      e := InsertPutsIn(f.sib, id, ty, assoc);
      PutInCons(Member(f.id, f.e, f.assoc), Members(f.sib), Members(Insert(f.sib, id, ty, assoc)),
                Member(id, e, assoc));
    }
  }

  lemma PutInSecond<K>(first: Member<K>, rest: seq<Member<K>>, m: Member<K>)
    requires rest == [] || (first.e.ty == m.e.ty && rest[0].e.ty != m.e.ty)
    requires m.e.inst == (if first.e.ty == m.e.ty then first.e.inst + 1 else 1) && m.e.cid == first.e.cid
    ensures OnePutIn([first] + rest, [first] + ([m] + rest), m, 0)
  {
    var s, t := [first] + rest, [first] + ([m] + rest);
    assert s[..1] == [first] && s[1..] == rest && t == s[..1] + [m] + s[1..];
    assert PlaceFor(s, m.e.ty, 1) by {
      assert rest != [] ==> s[1] == rest[0];
    }
    assert PutInAt(s, t, m, 0, 1);
  }

  lemma PutInCons<K>(first: Member<K>, s: seq<Member<K>>, t: seq<Member<K>>, m: Member<K>)
    requires s != [] && !(first.e.ty == m.e.ty && s[0].e.ty != m.e.ty) && OnePutIn(s, t, m, 0)
    ensures OnePutIn([first] + s, [first] + t, m, 0)
  {
    var k: nat :| PutInAt(s, t, m, 0, k);
    var s', t' := [first] + s, [first] + t;
    assert s'[k] == s[k - 1];
    forall j | 0 < j < k + 1 ensures !(s'[j - 1].e.ty == m.e.ty && s'[j].e.ty != m.e.ty) {
      if j > 1 {
        assert s'[j - 1] == s[j - 2] && s'[j] == s[j - 1];
      }
    }
    assert PlaceFor(s', m.e.ty, k + 1);
    assert t' == s'[..k + 1] + [m] + s'[k + 1..];
    assert PutInAt(s', t', m, 0, k + 1);
  }

  lemma {:induction false} InsertKeepsBelow<K>(f: Forest<K>, id: K, ty: u16, assoc: Association, q: K)
    requires f.Node? && CanInsert(f, ty) && id !in Ids(f)
    ensures MembersBelow(Insert(f, id, ty, assoc), q) == MembersBelow(f, q)
  {
    hide NewSibling;
    if f.sib.Nil? || (f.e.ty == ty && f.sib.e.ty != ty) {
      var n := Node(id, NewSibling(f.e, ty), assoc, Nil, f.sib);
      BelowNone(f.sib, id);
      assert MembersBelow(n, q) == MembersBelow(f.sib, q) by {
        assert [] + MembersBelow(f.sib, q) == MembersBelow(f.sib, q);
      }
    } else {
      InsertKeepsBelow(f.sib, id, ty, assoc, q);
    }
  }

  // ----- groups when the children of one node are exchanged -----

  lemma {:induction false} WithChildrenTop<K>(f: Forest<K>, p: K, c: Forest<K>)
    ensures Members(WithChildren(f, p, c)) == Members(f)
  {
    if f.Node? && f.id != p && p !in Ids(f.child) {
      WithChildrenTop(f.sib, p, c);
    }
  }

  lemma {:induction false} WithChildrenGroups<K>(f: Forest<K>, p: K, c: Forest<K>, q: K)
    requires DistinctIds(f) && p in Ids(f)
    requires q != p ==> MembersBelow(c, q) == MembersBelow(ChildrenOf(f, p), q)
    ensures MembersBelow(f, p) == Members(ChildrenOf(f, p))
    ensures MembersBelow(WithChildren(f, p, c), q) == if q == p then Members(c) else MembersBelow(f, q)
  {
    if f.id == p {
    } else if p in Ids(f.child) {
      WithChildrenGroups(f.child, p, c, q);
      WithChildrenTop(f.child, p, c);
      BelowNone(f.sib, p);
    } else {
      WithChildrenGroups(f.sib, p, c, q);
      BelowNone(f.child, p);
    }
  }

  // ----- all entities -----

  lemma {:induction false} InsertAll<K>(f: Forest<K>, id: K, ty: u16, assoc: Association)
    requires f.Node? && CanInsert(f, ty)
    ensures All(Insert(f, id, ty, assoc)) == All(f) + multiset{NewSibling(InsertionPoint(f, ty).e, ty)}
  {
    hide NewSibling, All;
    var g := Insert(f, id, ty, assoc);
    UnfoldAll(f);
    UnfoldAll(g);
    if f.sib.Nil? || (f.e.ty == ty && f.sib.e.ty != ty) {
      UnfoldAll(g.sib);
      Leaf<K>(Nil);
      assert multiset{g.sib.e} + multiset{} + All(f.sib) == All(f.sib) + multiset{g.sib.e};
    } else {
      InsertAll(f.sib, id, ty, assoc);
    }
  }

  lemma {:induction false} WithChildrenAll<K>(f: Forest<K>, p: K, c: Forest<K>)
    requires p in Ids(f)
    ensures All(WithChildren(f, p, c)) + All(ChildrenOf(f, p)) == All(f) + All(c)
  {
    hide *;
    UnfoldPlace(f, p, c);
    UnfoldAll(f);
    UnfoldAll(WithChildren(f, p, c));
    var lost, gained := All(ChildrenOf(f, p)), All(c);
    if f.id == p {
      assert multiset{f.e} + gained + All(f.sib) + lost == multiset{f.e} + lost + All(f.sib) + gained;
    } else if p in Ids(f.child) {
      WithChildrenAll(f.child, p, c);
      Exchange(multiset{f.e}, All(f.sib), All(WithChildren(f.child, p, c)), lost, All(f.child), gained);
    } else {
      WithChildrenAll(f.sib, p, c);
      Exchange(multiset{f.e} + All(f.child), multiset{}, All(WithChildren(f.sib, p, c)), lost, All(f.sib), gained);
    }
  }

  lemma UnfoldAll<K>(f: Forest<K>)
    ensures f.Node? ==> All(f) == multiset{f.e} + All(f.child) + All(f.sib)
    ensures f.Nil? ==> All(f) == multiset{}
  {
  }

  lemma Exchange(x: multiset<Entity>, y: multiset<Entity>, now: multiset<Entity>, lost: multiset<Entity>,
                 was: multiset<Entity>, gained: multiset<Entity>)
    requires now + lost == was + gained
    ensures x + now + y + lost == x + was + y + gained
    ensures x + now + lost == x + was + gained
  {
    assert x + now + y + lost == x + y + (now + lost);
    assert x + was + y + gained == x + y + (was + gained);
    assert x + now + lost == x + (now + lost) && x + was + gained == x + (was + gained);
  }

  // ----- one add -----

  /** From `t` to `u` one node came in: where and as what it was asked to. Nothing else changed. */
  ghost predicate AddsOne<K>(t: Tree<K>, u: Tree<K>, m: Member<K>, parent: Option<K>) {
    && OnePutIn(SiblingsOf(t.root, parent), SiblingsOf(u.root, parent), m, if parent.None? then 0 else t.lastCid + 1)
    && (parent.Some? ==> SiblingsOf(u.root, None) == SiblingsOf(t.root, None))
    && (forall q | q in Ids(u.root) && Some(q) != parent :: SiblingsOf(u.root, Some(q)) == SiblingsOf(t.root, Some(q)))
    && u.lastCid == (if parent.Some? && SiblingsOf(t.root, parent) == [] then t.lastCid + 1 else t.lastCid as int)
    && All(u.root) == All(t.root) + multiset{m.e}
  }

  /** An add brings in one entity, of the type and kind asked for, among the children of the parent asked for. Every
      other node keeps its entity, its kind, its parent and its place among the siblings. */
  lemma AddPutsOneIn<K>(t: Tree<K>, id: K, ty: u16, parent: Option<K>, assoc: Association)
    requires CanAdd(t, ty, parent) && DistinctIds(t.root) && id !in Ids(t.root)
    ensures exists e: Entity :: e.ty == ty && AddsOne(t, Add(t, id, ty, parent, assoc), Member(id, e, assoc), parent)
  {
    hide OnePutIn;
    match parent
    case None => TopAddPutsOneIn(t, id, ty, assoc);
    case Some(p) =>
      if ChildrenOf(t.root, p).Nil? {
        FirstChildPutIn(t, id, ty, p, assoc);
      } else {
        LaterChildPutIn(t, id, ty, p, assoc);
      }
  }

  lemma MemberIn<K>(t: Tree<K>, u: Tree<K>, m: Member<K>, parent: Option<K>)
    requires AddsOne(t, u, m, parent)
    ensures m in SiblingsOf(u.root, parent)
  {
    var s := SiblingsOf(t.root, parent);
    var cid := if parent.None? then 0 else t.lastCid + 1;
    var k: nat :| PutInAt(s, SiblingsOf(u.root, parent), m, cid, k);
    assert SiblingsOf(u.root, parent)[k] == m;
  }

  lemma FirstPutIn<K>(m: Member<K>, cid: int)
    requires m.e.inst == 1 && m.e.cid == cid
    ensures OnePutIn([], [m], m, cid)
  {
    assert [m] == [][..0] + [m] + [][0..];
    assert PutInAt([], [m], m, cid, 0);
  }

  lemma TopAddPutsOneIn<K>(t: Tree<K>, id: K, ty: u16, assoc: Association)
    requires CanAdd(t, ty, None) && DistinctIds(t.root) && id !in Ids(t.root)
    ensures exists e: Entity :: e.ty == ty && AddsOne(t, Add(t, id, ty, None, assoc), Member(id, e, assoc), None)
  {
    hide OnePutIn;
    var u := Add(t, id, ty, None, assoc);
    if t.root.Nil? {
      var e := Entity(ty, 1, 0);
      FirstPutIn(Member(id, e, assoc), 0);
      Leaf(u.root);
      assert AddsOne(t, u, Member(id, e, assoc), None);
    } else {
      var e := InsertPutsIn(t.root, id, ty, assoc);
      InsertAll(t.root, id, ty, assoc);
      forall q | q in Ids(u.root) ensures MembersBelow(u.root, q) == MembersBelow(t.root, q) {
        InsertKeepsBelow(t.root, id, ty, assoc, q);
      }
      assert AddsOne(t, u, Member(id, e, assoc), None);
    }
  }

  lemma InOldContainer<K>(s: seq<Member<K>>, t: seq<Member<K>>, m: Member<K>, cid: int, other: int)
    requires s != [] && OnePutIn(s, t, m, cid)
    ensures OnePutIn(s, t, m, other)
  {
    var k: nat :| PutInAt(s, t, m, cid, k);
    assert PutInAt(s, t, m, other, k);
  }

  lemma FirstChildPutIn<K>(t: Tree<K>, id: K, ty: u16, p: K, assoc: Association)
    requires CanAdd(t, ty, Some(p)) && DistinctIds(t.root) && id !in Ids(t.root) && ChildrenOf(t.root, p).Nil?
    ensures exists e: Entity :: e.ty == ty && AddsOne(t, Add(t, id, ty, Some(p), assoc), Member(id, e, assoc), Some(p))
  {
    hide *;
    UnfoldAddChild(t, id, ty, p, assoc);
    var u, e := Add(t, id, ty, Some(p), assoc), Entity(ty, 1, t.lastCid + 1);
    var leaf := Node(id, e, assoc, Nil, Nil);
    Leaf(leaf);
    Leaf(ChildrenOf(t.root, p));
    AddedCid(t, id, ty, p, assoc);
    FirstPutIn(Member(id, e, assoc), t.lastCid + 1);
    forall q | q in Ids(u.root)
      ensures MembersBelow(u.root, q) == if q == p then Members(leaf) else MembersBelow(t.root, q)
    {
      Leaf<K>(Nil);
      BelowNoOne(q);
      BelowLeaf(leaf, q);
      WithChildrenGroups(t.root, p, leaf, q);
    }
    WithChildrenGroups(t.root, p, leaf, p);
    WithChildrenTop(t.root, p, leaf);
    WithChildrenAll(t.root, p, leaf);
    assert All(u.root) + multiset{} == All(u.root);
    ChildPutIn(t, u, Member(id, e, assoc), p);
  }

  lemma LaterChildPutIn<K>(t: Tree<K>, id: K, ty: u16, p: K, assoc: Association)
    requires CanAdd(t, ty, Some(p)) && DistinctIds(t.root) && id !in Ids(t.root) && ChildrenOf(t.root, p).Node?
    ensures exists e: Entity :: e.ty == ty && AddsOne(t, Add(t, id, ty, Some(p), assoc), Member(id, e, assoc), Some(p))
  {
    hide *;
    UnfoldAddChild(t, id, ty, p, assoc);
    var u, c := Add(t, id, ty, Some(p), assoc), ChildrenOf(t.root, p);
    var d := Insert(c, id, ty, assoc);
    Leaf(c);
    AddedCid(t, id, ty, p, assoc);
    ChildrenInside(t.root, p);
    var e := InsertPutsIn(c, id, ty, assoc);
    InsertAll(c, id, ty, assoc);
    InOldContainer(Members(c), Members(d), Member(id, e, assoc), 0, t.lastCid + 1);
    forall q | q in Ids(u.root)
      ensures MembersBelow(u.root, q) == if q == p then Members(d) else MembersBelow(t.root, q)
    {
      InsertKeepsBelow(c, id, ty, assoc, q);
      WithChildrenGroups(t.root, p, d, q);
    }
    WithChildrenGroups(t.root, p, d, p);
    WithChildrenTop(t.root, p, d);
    WithChildrenAll(t.root, p, d);
    OneMoreEntity(All(u.root), All(c), All(t.root), e);
    ChildPutIn(t, u, Member(id, e, assoc), p);
  }

  lemma Leaf<K>(f: Forest<K>)
    ensures f.Nil? ==> Members(f) == [] && All(f) == multiset{}
    ensures f.Node? ==> Members(f) != []
    ensures f.Node? && f.child.Nil? && f.sib.Nil? ==>
              Members(f) == [Member(f.id, f.e, f.assoc)] && All(f) == multiset{f.e}
  {
  }

  lemma BelowNoOne<K>(q: K)
    ensures MembersBelow(Nil, q) == []
  {
  }

  lemma BelowLeaf<K>(f: Forest<K>, q: K)
    requires f.Node? && f.child.Nil? && f.sib.Nil?
    ensures MembersBelow(f, q) == []
  {
  }

  lemma AddedCid<K>(t: Tree<K>, id: K, ty: u16, p: K, assoc: Association)
    requires CanAdd(t, ty, Some(p))
    ensures Add(t, id, ty, Some(p), assoc).lastCid ==
            t.lastCid + if ChildrenOf(t.root, p).Nil? then 1 else 0
  {
  }

  lemma OneMoreEntity(now: multiset<Entity>, part: multiset<Entity>, was: multiset<Entity>, e: Entity)
    requires now + part == was + (part + multiset{e})
    ensures now == was + multiset{e}
  {
    assert now == was + (part + multiset{e}) - part;
  }

  lemma ChildPutIn<K>(t: Tree<K>, u: Tree<K>, m: Member<K>, p: K)
    requires OnePutIn(MembersBelow(t.root, p), MembersBelow(u.root, p), m, t.lastCid + 1)
    requires Members(u.root) == Members(t.root)
    requires forall q | q in Ids(u.root) && q != p :: MembersBelow(u.root, q) == MembersBelow(t.root, q)
    requires u.lastCid == t.lastCid + if MembersBelow(t.root, p) == [] then 1 else 0
    requires All(u.root) == All(t.root) + multiset{m.e}
    ensures AddsOne(t, u, m, Some(p))
  {
    hide MembersBelow, Members, All, OnePutIn;
  }

  // ----- in a tree built by adds -----

  function Entities<K>(s: seq<Member<K>>): (es: seq<Entity>)
    ensures |es| == |s|
  {
    seq(|s|, i requires 0 <= i < |s| => s[i].e)
  }

  lemma {:induction false} EntitiesAreChain<K>(f: Forest<K>)
    ensures Entities(Members(f)) == Chain(f)
  {
    if f.Node? {
      EntitiesAreChain(f.sib);
    }
  }

  lemma {:induction false} CountsAgree<K>(s: seq<Member<K>>, ty: u16)
    ensures CountOf(s, ty) == CountType(Entities(s), ty)
  {
    if s != [] {
      CountsAgree(s[..|s| - 1], ty);
      assert Entities(s)[..|s| - 1] == Entities(s[..|s| - 1]);
    }
  }

  lemma {:induction false} PlaceIsInsertAt<K>(s: seq<Member<K>>, ty: u16, k: nat)
    requires s != [] && PlaceFor(s, ty, k)
    ensures k == InsertAt(Entities(s), ty) + 1
  {
    var es, rest := Entities(s), s[1..];
    assert es[1..] == Entities(rest);
    if k > 1 {
      assert !(s[0].e.ty == ty && s[1].e.ty != ty);
      forall j | 0 < j < k - 1 ensures !(rest[j - 1].e.ty == ty && rest[j].e.ty != ty) {
        assert !(s[j].e.ty == ty && s[j + 1].e.ty != ty);
      }
      PlaceIsInsertAt(rest, ty, k - 1);
    }
  }

  lemma GroupIsOk<K>(t: Tree<K>, q: Option<K>)
    requires TreeOk(t) && DistinctIds(t.root)
    ensures SiblingsOk(Entities(SiblingsOf(t.root, q)))
  {
    EntitiesAreChain(t.root);
    match q
    case None =>
    case Some(p) =>
      if p in Ids(t.root) {
        var c := ChildrenOf(t.root, p);
        ChildrenInside(t.root, p);
        WithChildrenGroups(t.root, p, c, p);
        EntitiesAreChain(c);
      } else {
        BelowNone(t.root, p);
      }
  }

  /** The container that a new member of a group gets. */
  function Container<K(==)>(t: Tree<K>, parent: Option<K>): int {
    var s := SiblingsOf(t.root, parent);
    if s != [] then s[0].e.cid else if parent.None? then 0 else t.lastCid + 1
  }

  /** `s` with `m` put in behind the last member of its type, or at the end if it is the first one. */
  ghost predicate PutInBehindItsType<K>(s: seq<Member<K>>, t: seq<Member<K>>, m: Member<K>) {
    exists k: nat ::
      && k <= |s| && t == s[..k] + [m] + s[k..]
      && (forall j | k <= j < |s| :: s[j].e.ty != m.e.ty)
      && (if CountOf(s, m.e.ty) == 0 then k == |s| else k > 0 && s[k - 1].e.ty == m.e.ty)
  }

  /** In a tree built by adds the new entity is the next of its type in its group: in the group's container, or in a new
      one if it is the first child; behind the last sibling of its type, or at the end. */
  lemma AddNumbersNext<K>(t: Tree<K>, id: K, ty: u16, parent: Option<K>, assoc: Association)
    requires CanAdd(t, ty, parent) && DistinctIds(t.root) && id !in Ids(t.root) && TreeOk(t)
    ensures var s, cid := SiblingsOf(t.root, parent), Container(t, parent);
            var inst := 1 + CountOf(s, ty);
            && cid <= U16_MAX && inst <= U16_MAX
            && PutInBehindItsType(s, SiblingsOf(Add(t, id, ty, parent, assoc).root, parent),
                                  Member(id, Entity(ty, inst, cid), assoc))
  {
    hide SiblingsOf, SiblingsOk, TreeOk, Add, CanAdd, CountOf, OnePutIn;
    AddPutsOneIn(t, id, ty, parent, assoc);
    var u := Add(t, id, ty, parent, assoc);
    var e: Entity :| e.ty == ty && AddsOne(t, u, Member(id, e, assoc), parent);
    var s := SiblingsOf(t.root, parent);
    GroupIsOk(t, parent);
    PutInIsNext(s, SiblingsOf(u.root, parent), Member(id, e, assoc), if parent.None? then 0 else t.lastCid + 1);
  }

  lemma PutInIsNext<K>(s: seq<Member<K>>, t: seq<Member<K>>, m: Member<K>, cid: int)
    requires OnePutIn(s, t, m, cid) && SiblingsOk(Entities(s))
    ensures m.e.inst == 1 + CountOf(s, m.e.ty) && m.e.cid == if s == [] then cid else s[0].e.cid
    ensures PutInBehindItsType(s, t, m)
  {
    hide CountType, InsertAt, Contiguous, Numbered, CountOf;
    var ty := m.e.ty;
    var k: nat :| PutInAt(s, t, m, cid, k);
    if s == [] {
      NoneOfType(s, ty);
    } else {
      var es := Entities(s);
      PlaceIsInsertAt(s, ty, k);
      CountsAgree(s, ty);
      NumberBeforeInsert(es, ty);
      NumbersArePositive(es, k - 1);
      assert es[k - 1] in es && es[0] == s[0].e;
      forall j | k <= j < |s| ensures s[j].e.ty != ty {
        AroundInsertion(es, ty, j);
      }
    }
  }

  lemma NumbersArePositive(es: seq<Entity>, i: nat)
    requires Numbered(es) && i < |es|
    ensures es[i].inst > 0
  {
  }

  lemma NoneOfType<K>(s: seq<Member<K>>, ty: u16)
    requires s == []
    ensures CountOf(s, ty) == 0
  {
  }
}
