/** What every run of adds to an entity association tree keeps, over the whole tree. */
module EntityTreeLaws {
  import opened Bytes
  import opened EntityForest
  import opened Wrappers

  ghost predicate NoDup<T(!new)>(m: multiset<T>) {
    forall x :: m[x] <= 1
  }

  /** The container ids opened below a chain, one for each non-empty child chain. */
  ghost function ChildCids<K>(f: Forest<K>): multiset<u16> {
    if f.Nil? then multiset{}
    else (if f.child.Nil? then multiset{} else multiset{f.child.e.cid} + ChildCids(f.child)) + ChildCids(f.sib)
  }

  ghost function GroupCids<K>(f: Forest<K>): multiset<u16> {
    if f.Nil? then multiset{} else multiset{f.e.cid} + ChildCids(f)
  }

  /** Every child chain below is a well-numbered group. */
  ghost predicate GroupsOk<K>(f: Forest<K>) {
    f.Node? ==> SiblingsOk(Chain(f.child)) && GroupsOk(f.child) && GroupsOk(f.sib)
  }

  /** All groups in order, the top one in container 0, and every other group in a container id of its
      own among those handed out. */
  ghost predicate TreeOk<K>(t: Tree<K>) {
    && SiblingsOk(Chain(t.root)) && GroupsOk(t.root)
    && (t.root.Node? ==> t.root.e.cid == 0)
    && NoDup(ChildCids(t.root))
    && (forall c | c in ChildCids(t.root) :: 0 < c <= t.lastCid)
  }

  // ----- one add -----

  lemma {:induction false} InsertIds<K>(f: Forest<K>, id: K, ty: u16, assoc: Association)
    requires f.Node? && CanInsert(f, ty) && DistinctIds(f) && id !in Ids(f)
    ensures Ids(Insert(f, id, ty, assoc)) == Ids(f) + {id}
    ensures DistinctIds(Insert(f, id, ty, assoc))
  {
    hide NewSibling;
    if f.sib.Nil? || (f.e.ty == ty && f.sib.e.ty != ty) {
      var n := Node(id, NewSibling(f.e, ty), assoc, Nil, f.sib);
      assert Ids(n) == {id} + Ids(f.sib) && DistinctIds(n);
    } else {
      InsertIds(f.sib, id, ty, assoc);
    }
  }

  lemma {:induction false} InsertBelow<K>(f: Forest<K>, id: K, ty: u16, assoc: Association)
    requires f.Node? && CanInsert(f, ty)
    ensures ChildCids(Insert(f, id, ty, assoc)) == ChildCids(f)
    ensures GroupsOk(f) ==> GroupsOk(Insert(f, id, ty, assoc))
  {
    hide NewSibling, SiblingsOk;
    if f.sib.Nil? || (f.e.ty == ty && f.sib.e.ty != ty) {
      SingletonOk(f.e);
      var n := Node(id, NewSibling(f.e, ty), assoc, Nil, f.sib);
      assert ChildCids(n) == ChildCids(f.sib) && (GroupsOk(f.sib) ==> GroupsOk(n));
    } else {
      InsertBelow(f.sib, id, ty, assoc);
    }
  }

  lemma SingletonOk(e: Entity)
    ensures SiblingsOk([])
    ensures e.inst == 1 ==> SiblingsOk([e])
  {
    if e.inst == 1 {
      assert CountType([e][..0], e.ty) == 0;
    }
  }

  lemma InsertKeepsGroup<K>(f: Forest<K>, id: K, ty: u16, assoc: Association)
    requires f.Node? && CanInsert(f, ty) && DistinctIds(f) && id !in Ids(f)
    requires SiblingsOk(Chain(f)) && GroupsOk(f)
    ensures var g := Insert(f, id, ty, assoc);
            && SiblingsOk(Chain(g)) && GroupsOk(g) && GroupCids(g) == GroupCids(f)
            && Ids(g) == Ids(f) + {id} && DistinctIds(g)
  {
    hide SiblingsOk, GroupsOk, DistinctIds, Chain, ChildCids, Inserted, InsertAt;
    InsertIds(f, id, ty, assoc);
    InsertBelow(f, id, ty, assoc);
    InsertOnChain(f, id, ty, assoc);
    InsertKeepsSiblings(Chain(f), ty);
  }

  lemma {:induction false} ChildrenInside<K>(f: Forest<K>, p: K)
    requires DistinctIds(f) && p in Ids(f)
    ensures var c := ChildrenOf(f, p);
            && Ids(c) <= Ids(f) - {p} && DistinctIds(c)
            && (GroupsOk(f) ==> SiblingsOk(Chain(c)) && GroupsOk(c))
            && GroupCids(c) <= ChildCids(f)
  {
    if f.id != p {
      if p in Ids(f.child) {
        ChildrenInside(f.child, p);
      } else {
        ChildrenInside(f.sib, p);
      }
    }
  }

  /** Exchanging the part `o` of `s` for `c` inside `{i} + s + t`. */
  lemma SwapPart<K>(i: K, s: set<K>, t: set<K>, o: set<K>, c: set<K>)
    requires o <= s && i !in s && i !in t && s !! t && c !! (({i} + s + t) - o)
    ensures {i} + ((s - o) + c) + t == (({i} + s + t) - o) + c
    ensures {i} + t + ((s - o) + c) == (({i} + t + s) - o) + c
    ensures i !in (s - o) + c && ((s - o) + c) !! t && c !! (s - o)
  {
  }

  lemma UnfoldIds<K>(f: Forest<K>)
    ensures f.Node? ==> Ids(f) == {f.id} + Ids(f.child) + Ids(f.sib)
    ensures f.Node? ==>
              (DistinctIds(f) <==>
               f.id !in Ids(f.child) && f.id !in Ids(f.sib) && Ids(f.child) !! Ids(f.sib)
               && DistinctIds(f.child) && DistinctIds(f.sib))
    ensures f.Nil? ==> Ids(f) == {}
  {
  }

  lemma UnfoldPlace<K>(f: Forest<K>, p: K, c: Forest<K>)
    requires p in Ids(f)
    ensures f.Node? && p !in {f.id} + Ids(f.child) ==> p in Ids(f.sib)
    ensures f.Node?
    ensures f.id == p ==> ChildrenOf(f, p) == f.child && WithChildren(f, p, c) == f.(child := c)
    ensures f.id != p && p in Ids(f.child) ==>
              ChildrenOf(f, p) == ChildrenOf(f.child, p)
              && WithChildren(f, p, c) == f.(child := WithChildren(f.child, p, c))
    ensures f.id != p && p !in Ids(f.child) ==>
              ChildrenOf(f, p) == ChildrenOf(f.sib, p)
              && WithChildren(f, p, c) == f.(sib := WithChildren(f.sib, p, c))
  {
  }

  lemma {:induction false} WithChildrenIds<K>(f: Forest<K>, p: K, c: Forest<K>)
    requires DistinctIds(f) && p in Ids(f) && DistinctIds(c)
    requires Ids(c) !! (Ids(f) - Ids(ChildrenOf(f, p)))
    ensures Ids(WithChildren(f, p, c)) == (Ids(f) - Ids(ChildrenOf(f, p))) + Ids(c)
    ensures DistinctIds(WithChildren(f, p, c))
  {
    hide *;
    UnfoldIds(f);
    UnfoldPlace(f, p, c);
    UnfoldIds(WithChildren(f, p, c));
    var s, t, o := Ids(f.child), Ids(f.sib), Ids(ChildrenOf(f, p));
    if f.id == p {
      SwapPart(f.id, s, t, o, Ids(c));
    } else if p in s {
      ChildrenInside(f.child, p);
      SwapPart(f.id, s, t, o, Ids(c));
      WithChildrenIds(f.child, p, c);
    } else {
      ChildrenInside(f.sib, p);
      assert {f.id} + s + t == {f.id} + t + s;
      SwapPart(f.id, t, s, o, Ids(c));
      WithChildrenIds(f.sib, p, c);
      assert Ids(WithChildren(f, p, c)) == {f.id} + s + ((t - o) + Ids(c)) == {f.id} + ((t - o) + Ids(c)) + s;
    }
  }

  lemma {:induction false} WithChildrenBelow<K>(f: Forest<K>, p: K, c: Forest<K>)
    requires p in Ids(f)
    ensures var g := WithChildren(f, p, c);
            && g.Node? && g.e == f.e && Chain(g) == Chain(f)
            && (GroupsOk(f) && SiblingsOk(Chain(c)) && GroupsOk(c) ==> GroupsOk(g))
  {
    hide SiblingsOk;
    if f.id != p {
      if p in Ids(f.child) {
        WithChildrenBelow(f.child, p, c);
      } else {
        WithChildrenBelow(f.sib, p, c);
      }
    }
  }

  lemma UnfoldCids<K>(f: Forest<K>)
    requires f.Node?
    ensures ChildCids(f) == GroupCids(f.child) + ChildCids(f.sib)
    ensures GroupCids(f) == multiset{f.e.cid} + ChildCids(f)
  {
  }

  lemma {:induction false} WithChildrenCids<K>(f: Forest<K>, p: K, c: Forest<K>)
    requires p in Ids(f)
    ensures WithChildren(f, p, c).Node? && WithChildren(f, p, c).e == f.e
    ensures ChildCids(WithChildren(f, p, c)) + GroupCids(ChildrenOf(f, p)) == ChildCids(f) + GroupCids(c)
  {
    hide *;
    UnfoldIds(f);
    UnfoldPlace(f, p, c);
    UnfoldCids(f);
    UnfoldCids(WithChildren(f, p, c));
    var lost, gained := GroupCids(ChildrenOf(f, p)), GroupCids(c);
    if f.id == p {
      assert gained + ChildCids(f.sib) + lost == lost + ChildCids(f.sib) + gained;
    } else if p in Ids(f.child) {
      UnfoldIds(f.child);
      WithChildrenCids(f.child, p, c);
      UnfoldCids(f.child);
      UnfoldCids(WithChildren(f.child, p, c));
      AddBoth(multiset{f.child.e.cid}, ChildCids(WithChildren(f.child, p, c)), lost, ChildCids(f.child), gained);
      AddBoth(ChildCids(f.sib), GroupCids(WithChildren(f.child, p, c)), lost, GroupCids(f.child), gained);
    } else {
      WithChildrenCids(f.sib, p, c);
      AddBoth(GroupCids(f.child), ChildCids(WithChildren(f.sib, p, c)), lost, ChildCids(f.sib), gained);
    }
  }

  lemma AddBoth(x: multiset<u16>, now: multiset<u16>, lost: multiset<u16>, was: multiset<u16>, gained: multiset<u16>)
    requires now + lost == was + gained
    ensures x + now + lost == x + was + gained
    ensures now + x + lost == was + x + gained
  {
    assert x + now + lost == x + (now + lost);
    assert x + was + gained == x + (was + gained);
    assert x + now == now + x && x + was == was + x;
  }

  /** An add brings in exactly the new node. */
  lemma AddIds<K>(t: Tree<K>, id: K, ty: u16, parent: Option<K>, assoc: Association)
    requires CanAdd(t, ty, parent) && DistinctIds(t.root) && id !in Ids(t.root)
    ensures DistinctIds(Add(t, id, ty, parent, assoc).root)
    ensures Ids(Add(t, id, ty, parent, assoc).root) == Ids(t.root) + {id}
  {
    match parent
    case None =>
      if t.root.Node? {
        InsertIds(t.root, id, ty, assoc);
      }
    case Some(p) => AddChildIds(t, id, ty, p, assoc);
  }

  lemma AddChildIds<K>(t: Tree<K>, id: K, ty: u16, p: K, assoc: Association)
    requires CanAdd(t, ty, Some(p)) && DistinctIds(t.root) && id !in Ids(t.root)
    ensures DistinctIds(Add(t, id, ty, Some(p), assoc).root)
    ensures Ids(Add(t, id, ty, Some(p), assoc).root) == Ids(t.root) + {id}
  {
    hide *;
    var c := ChildrenOf(t.root, p);
    UnfoldAddChild(t, id, ty, p, assoc);
    ChildrenInside(t.root, p);
    if c.Nil? {
      var leaf := Node(id, Entity(ty, 1, t.lastCid + 1), assoc, Nil, Nil);
      UnfoldIds<K>(Nil);
      UnfoldIds(leaf);
      LeafDistinct(leaf);
      OneMore(Ids(t.root), Ids(c), id);
      WithChildrenIds(t.root, p, leaf);
    } else {
      InsertIds(c, id, ty, assoc);
      OneMore(Ids(t.root), Ids(c), id);
      WithChildrenIds(t.root, p, Insert(c, id, ty, assoc));
    }
  }

  lemma UnfoldAddChild<K>(t: Tree<K>, id: K, ty: u16, p: K, assoc: Association)
    requires CanAdd(t, ty, Some(p))
    ensures var c := ChildrenOf(t.root, p);
            && p in Ids(t.root)
            && (c.Nil? ==>
                  && t.lastCid < 0xFFFF
                  && Add(t, id, ty, Some(p), assoc).root ==
                     WithChildren(t.root, p, Node(id, Entity(ty, 1, t.lastCid + 1), assoc, Nil, Nil)))
            && (c.Node? ==>
                  && CanInsert(c, ty)
                  && Add(t, id, ty, Some(p), assoc).root == WithChildren(t.root, p, Insert(c, id, ty, assoc)))
  {
  }

  lemma OneMore<K>(all: set<K>, part: set<K>, id: K)
    requires part <= all && id !in all
    ensures (all - part) + (part + {id}) == all + {id}
    ensures part == {} ==> (all - part) + {id} == all + {id}
    ensures (part + {id}) !! (all - part)
  {
  }

  lemma LeafDistinct<K>(f: Forest<K>)
    requires f.Node? && f.child.Nil? && f.sib.Nil?
    ensures Ids(f) == {f.id} && DistinctIds(f)
  {
  }

  /** One add keeps the whole-tree invariant; the node added carries a fresh identity. */
  lemma AddKeepsTreeOk<K>(t: Tree<K>, id: K, ty: u16, parent: Option<K>, assoc: Association)
    requires CanAdd(t, ty, parent) && DistinctIds(t.root) && id !in Ids(t.root)
    requires TreeOk(t)
    ensures var u := Add(t, id, ty, parent, assoc);
            TreeOk(u) && DistinctIds(u.root) && Ids(u.root) == Ids(t.root) + {id}
  {
    match parent
    case None => TopAddKeepsTreeOk(t, id, ty, assoc);
    case Some(p) =>
      if ChildrenOf(t.root, p).Nil? {
        FirstChildKeepsTreeOk(t, id, ty, p, assoc);
      } else {
        LaterChildKeepsTreeOk(t, id, ty, p, assoc);
      }
  }

  lemma TopAddKeepsTreeOk<K>(t: Tree<K>, id: K, ty: u16, assoc: Association)
    requires CanAdd(t, ty, None) && DistinctIds(t.root) && id !in Ids(t.root)
    requires TreeOk(t)
    ensures var u := Add(t, id, ty, None, assoc);
            TreeOk(u) && DistinctIds(u.root) && Ids(u.root) == Ids(t.root) + {id}
  {
    hide SiblingsOk;
    if t.root.Nil? {
      SingletonOk(Entity(ty, 1, 0));
      assert Chain(Add(t, id, ty, None, assoc).root) == [Entity(ty, 1, 0)];
    } else {
      InsertKeepsGroup(t.root, id, ty, assoc);
      InsertBelow(t.root, id, ty, assoc);
    }
  }

  lemma LaterChildKeepsTreeOk<K>(t: Tree<K>, id: K, ty: u16, p: K, assoc: Association)
    requires p in Ids(t.root) && ChildrenOf(t.root, p).Node? && CanInsert(ChildrenOf(t.root, p), ty)
    requires DistinctIds(t.root) && id !in Ids(t.root) && TreeOk(t)
    ensures var u := t.(root := WithChildren(t.root, p, Insert(ChildrenOf(t.root, p), id, ty, assoc)));
            TreeOk(u) && DistinctIds(u.root) && Ids(u.root) == Ids(t.root) + {id}
  {
    hide SiblingsOk, NoDup, GroupsOk, DistinctIds, Chain, ChildCids, Ids, ChildrenOf, WithChildren, Insert;
    var children := ChildrenOf(t.root, p);
    ChildrenInside(t.root, p);
    InsertKeepsGroup(children, id, ty, assoc);
    ReplaceKeepsTreeOk(t, p, Insert(children, id, ty, assoc), t.lastCid);
  }

  /** A child chain may be replaced by one of the same group, or an empty one by a new group. */
  lemma ReplaceKeepsTreeOk<K>(t: Tree<K>, p: K, c: Forest<K>, lastCid: u16)
    requires p in Ids(t.root) && DistinctIds(t.root) && DistinctIds(c) && TreeOk(t) && t.lastCid <= lastCid
    requires Ids(c) !! (Ids(t.root) - Ids(ChildrenOf(t.root, p)))
    requires SiblingsOk(Chain(c)) && GroupsOk(c)
    requires GroupCids(c) == GroupCids(ChildrenOf(t.root, p))
          || (GroupCids(ChildrenOf(t.root, p)) == multiset{} && GroupCids(c) == multiset{lastCid}
              && t.lastCid < lastCid)
    ensures var u := Tree(WithChildren(t.root, p, c), lastCid);
            TreeOk(u) && DistinctIds(u.root) && Ids(u.root) == (Ids(t.root) - Ids(ChildrenOf(t.root, p))) + Ids(c)
  {
    hide SiblingsOk, GroupsOk, DistinctIds, GroupCids, ChildCids, Chain, WithChildren, ChildrenOf;
    WithChildrenIds(t.root, p, c);
    WithChildrenBelow(t.root, p, c);
    WithChildrenCids(t.root, p, c);
    Balance(ChildCids(t.root), ChildCids(WithChildren(t.root, p, c)), GroupCids(ChildrenOf(t.root, p)), GroupCids(c));
  }

  lemma Balance(was: multiset<u16>, now: multiset<u16>, lost: multiset<u16>, gained: multiset<u16>)
    requires now + lost == was + gained
    ensures lost == gained ==> now == was
    ensures lost == multiset{} ==> now == was + gained
  {
    assert now == was + gained - lost;
  }

  lemma FirstChildKeepsTreeOk<K>(t: Tree<K>, id: K, ty: u16, p: K, assoc: Association)
    requires p in Ids(t.root) && DistinctIds(t.root) && TreeOk(t) && id !in Ids(t.root)
    requires ChildrenOf(t.root, p).Nil? && t.lastCid != U16_MAX
    ensures var c := Node(id, Entity(ty, 1, t.lastCid + 1), assoc, Nil, Nil);
            var u := Tree(WithChildren(t.root, p, c), t.lastCid + 1);
            TreeOk(u) && DistinctIds(u.root) && Ids(u.root) == Ids(t.root) + {id}
  {
    var e := Entity(ty, 1, t.lastCid + 1);
    var c := Node(id, e, assoc, Nil, Nil);
    SingletonOk(e);
    assert Chain(c) == [e];
    assert ChildCids(c) == multiset{};
    assert GroupCids(c) == multiset{t.lastCid + 1};
    ReplaceKeepsTreeOk(t, p, c, t.lastCid + 1);
  }

  // ----- runs of adds -----

  datatype AddStep<+K> = AddStep(id: K, ty: u16, parent: Option<K>, assoc: Association)

  /** `trees` is a run of adds from the empty tree, each under a node added before. */
  ghost predicate IsRun<K>(steps: seq<AddStep<K>>, trees: seq<Tree<K>>) {
    && |trees| == |steps| + 1
    && trees[0] == Tree(Nil, 0)
    && forall i | 0 <= i < |steps| :: IsStep(trees[i], steps[i], trees[i + 1])
  }

  ghost predicate IsStep<K>(t: Tree<K>, s: AddStep<K>, u: Tree<K>) {
    && CanAdd(t, s.ty, s.parent) && s.id !in Ids(t.root)
    && u == Add(t, s.id, s.ty, s.parent, s.assoc)
  }

  lemma {:induction false} RunsKeepTreeOk<K>(steps: seq<AddStep<K>>, trees: seq<Tree<K>>, k: nat)
    requires IsRun(steps, trees) && k < |trees|
    ensures TreeOk(trees[k]) && DistinctIds(trees[k].root)
  {
    if k == 0 {
      SingletonOk(Entity(0, 1, 0));
    } else {
      RunsKeepTreeOk(steps, trees, k - 1);
      var s := steps[k - 1];
      assert IsStep(trees[k - 1], s, trees[k - 1 + 1]);
      AddKeepsTreeOk(trees[k - 1], s.id, s.ty, s.parent, s.assoc);
    }
  }

  // ----- the triple identifies an entity -----

  ghost function All<K>(f: Forest<K>): multiset<Entity> {
    if f.Nil? then multiset{} else multiset{f.e} + All(f.child) + All(f.sib)
  }

  /** The entities strictly below a chain. */
  ghost function Below<K>(f: Forest<K>): multiset<Entity> {
    if f.Nil? then multiset{} else All(f.child) + Below(f.sib)
  }

  lemma {:induction false} AllIsChainAndBelow<K>(f: Forest<K>)
    ensures All(f) == multiset(Chain(f)) + Below(f)
  {
    if f.Node? {
      AllIsChainAndBelow(f.sib);
    }
  }

  lemma NumberedFront(es: seq<Entity>)
    requires Numbered(es) && es != []
    ensures Numbered(es[..|es| - 1])
  {
    hide CountType;
    assert forall i | 0 <= i < |es| - 1 :: es[..|es| - 1][..i] == es[..i];
  }

  lemma {:induction false} ChainIsDistinct(es: seq<Entity>)
    requires Numbered(es)
    ensures NoDup(multiset(es))
  {
    hide CountType;
    if es != [] {
      var front, last := es[..|es| - 1], es[|es| - 1];
      assert es == front + [last];
      NumberedFront(es);
      ChainIsDistinct(front);
      if i :| 0 <= i < |front| && front[i] == last {
        SiblingsAreDistinct(es, i, |es| - 1);
        assert false;
      }
    }
  }

  /** All entities of a collection are in the given containers. */
  ghost predicate Within(es: multiset<Entity>, cids: multiset<u16>) {
    forall e | e in es :: e.cid in cids
  }

  lemma {:induction false} BelowIsDistinct<K>(f: Forest<K>)
    requires GroupsOk(f) && NoDup(ChildCids(f))
    ensures NoDup(Below(f)) && Within(Below(f), ChildCids(f))
  {
    hide *;
    UnfoldGroups(f);
    if f.Node? {
      var c := f.child;
      PartsDistinct(GroupCids(c), ChildCids(f.sib));
      BelowIsDistinct(f.sib);
      UnfoldGroups(c);
      if c.Node? {
        PartsDistinct(multiset{c.e.cid}, ChildCids(c));
        BelowIsDistinct(c);
        AllIsChainAndBelow(c);
        ChainInOneContainer(c);
        ThreeDistinct(multiset(Chain(c)), Below(c), Below(f.sib), c.e.cid, ChildCids(c), ChildCids(f.sib));
      } else {
        assert multiset{} + Below(f.sib) == Below(f.sib) && multiset{} + ChildCids(f.sib) == ChildCids(f.sib);
      }
    }
  }

  lemma UnfoldGroups<K>(f: Forest<K>)
    requires GroupsOk(f)
    ensures f.Node? ==> Below(f) == All(f.child) + Below(f.sib) && ChildCids(f) == GroupCids(f.child) + ChildCids(f.sib)
    ensures f.Node? ==> GroupsOk(f.child) && GroupsOk(f.sib) && (f.child.Node? ==> SiblingsOk(Chain(f.child)))
    ensures f.Node? ==> GroupCids(f) == multiset{f.e.cid} + ChildCids(f)
    ensures f.Nil? ==> Below(f) == All(f) == multiset{} && ChildCids(f) == GroupCids(f) == multiset{}
    ensures f.Nil? ==> NoDup(Below(f)) && Within(Below(f), ChildCids(f))
  {
  }

  lemma ChainInOneContainer<K>(f: Forest<K>)
    requires f.Node? && SiblingsOk(Chain(f))
    ensures NoDup(multiset(Chain(f))) && Within(multiset(Chain(f)), multiset{f.e.cid})
  {
    ChainIsDistinct(Chain(f));
    assert Chain(f)[0] == f.e;
  }

  lemma PartsDistinct(a: multiset<u16>, b: multiset<u16>)
    requires NoDup(a + b)
    ensures NoDup(a) && NoDup(b) && forall x | x in a :: x !in b
  {
    forall x
      ensures a[x] <= 1 && b[x] <= 1 && (x in a ==> x !in b)
    {
      assert (a + b)[x] == a[x] + b[x];
    }
  }

  /** Entities of one container, and two collections in other containers. */
  lemma ThreeDistinct(a: multiset<Entity>, b: multiset<Entity>, d: multiset<Entity>, cid: u16,
                      bCids: multiset<u16>, dCids: multiset<u16>)
    requires NoDup(a) && NoDup(b) && NoDup(d)
    requires Within(a, multiset{cid}) && Within(b, bCids) && Within(d, dCids)
    requires cid !in bCids && forall x | x in multiset{cid} + bCids :: x !in dCids
    ensures NoDup(a + b + d) && Within(a + b + d, multiset{cid} + bCids + dCids)
  {
  }

  lemma TopChain<K>(f: Forest<K>)
    requires SiblingsOk(Chain(f)) && (f.Node? ==> f.e.cid == 0)
    ensures NoDup(multiset(Chain(f))) && Within(multiset(Chain(f)), multiset{0})
    ensures NoDup<Entity>(multiset{}) && Within(multiset{}, multiset{})
  {
    if f.Node? {
      ChainInOneContainer(f);
    }
  }

  /** Over a whole tree (type, instance, container) identifies an entity. */
  lemma TriplesAreUnique<K>(t: Tree<K>)
    requires TreeOk(t)
    ensures NoDup(All(t.root))
  {
    hide SiblingsOk, GroupsOk, ChildCids, Chain, Below, All, NoDup;
    BelowIsDistinct(t.root);
    AllIsChainAndBelow(t.root);
    TopChain(t.root);
    ThreeDistinct(multiset(Chain(t.root)), Below(t.root), multiset{}, 0, ChildCids(t.root), multiset{});
    assert All(t.root) == multiset(Chain(t.root)) + Below(t.root) + multiset{};
  }
}
