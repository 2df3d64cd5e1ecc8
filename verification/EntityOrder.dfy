/** In which order a tree is visited and its PDRs are emitted, and what they tell of each group of siblings. */
module EntityOrder {
  import opened Bytes
  import opened EntityAdd
  import opened EntityForest
  import opened EntityPdr
  import opened EntityTreeLaws
  import opened EntityVisit
  import opened PdrRecords
  import opened Wrappers

  // ----- visiting -----

  /** What is visited below a chain, the children of its last node first. */
  function VisitedBelow<K>(f: Forest<K>): seq<Entity> {
    if f.Nil? then [] else VisitedBelow(f.sib) + Visited(f.child)
  }

  /** A visit lists a whole chain first, in order; then, from its last node to its first, all that is below each. */
  lemma {:induction false} VisitsChainFirst<K>(f: Forest<K>)
    ensures Visited(f) == Chain(f) + VisitedBelow(f)
  {
    if f.Node? {
      VisitsChainFirst(f.sib);
      assert Visited(f) == [f.e] + (Chain(f.sib) + VisitedBelow(f.sib)) + Visited(f.child);
    }
  }

  // ----- the children of one node -----

  function OfKind<K>(s: seq<Member<K>>, a: Association): seq<Entity> {
    if s == [] then [] else (if s[0].assoc == a then [s[0].e] else []) + OfKind(s[1..], a)
  }

  lemma {:induction false} KindIs<K>(f: Forest<K>, a: Association)
    ensures OfAssociation(f, a) == OfKind(Members(f), a)
  {
    if f.Node? {
      KindIs(f.sib, a);
      assert Members(f)[1..] == Members(f.sib);
    }
  }

  lemma {:induction false} NodeIdIn<K>(n: Forest<K>, f: Forest<K>)
    requires NodeOf(n, f)
    ensures n.id in Ids(f)
  {
    if n != f {
      if NodeOf(n, f.sib) {
        NodeIdIn(n, f.sib);
      } else {
        NodeIdIn(n, f.child);
      }
    }
  }

  lemma {:induction false} MembersOfNode<K>(f: Forest<K>, n: Forest<K>)
    requires DistinctIds(f) && NodeOf(n, f)
    ensures MembersBelow(f, n.id) == Members(n.child)
  {
    if n != f {
      if NodeOf(n, f.sib) {
        NodeIdIn(n, f.sib);
        MembersOfNode(f.sib, n);
        BelowNone(f.child, n.id);
      } else {
        NodeIdIn(n, f.child);
        MembersOfNode(f.child, n);
        BelowNone(f.sib, n.id);
      }
    }
  }

  /** In the repository that the PDRs of a tree were added to, the PDR for a node and a kind lists the node's children
      of that kind in their order; there is none if it has none. */
  lemma RepositoryTellsChildren<K>(rs: seq<Record>, t: Tree<K>, remote: bool, n: Forest<K>, a: Association)
    requires TreeOk(t) && DistinctIds(t.root) && Countable(t.root) && NodeOf(n, t.root)
    requires LastHandle(rs) + |Groups(t.root)| <= U32_MAX
    ensures Encodable(Groups(t.root)) && |Stored(rs, Groups(t.root), remote)| == |rs| + |Groups(t.root)|
    ensures var added := Stored(rs, Groups(t.root), remote)[|rs|..];
            && (forall i | 0 <= i < |added| :: ExtractOk(added[i].data))
            && ChildrenFromPdrs(DecodedAll(added), n.e, a) == OfKind(SiblingsOf(t.root, Some(n.id)), a)
  {
    hide Groups, TreeOk, Countable, Stored, ChildrenFromPdrs, DecodedAll, ExtractOk;
    RepositoryRecoversTree(rs, t, remote, n, a);
    MembersOfNode(t.root, n);
    KindIs(n.child, a);
  }

  // ----- emitting -----

  /** Who the children of an entity are, by kind. */
  type Children = (Entity, Association) -> seq<Entity>

  function GroupFor(e: Entity, a: Association, children: Children): seq<Group> {
    if children(e, a) == [] then [] else [Group(e, children(e, a)[0].cid, a, children(e, a))]
  }

  /** For each entity in turn its logical group, then its physical one. */
  function GroupsFor(es: seq<Entity>, children: Children): seq<Group> {
    if es == [] then []
    else GroupFor(es[0], Logical, children) + GroupFor(es[0], Physical, children) + GroupsFor(es[1..], children)
  }

  lemma {:induction false} GroupsForConcat(a: seq<Entity>, b: seq<Entity>, children: Children)
    ensures GroupsFor(a + b, children) == GroupsFor(a, children) + GroupsFor(b, children)
  {
    if a == [] {
      assert a + b == b;
    } else {
      assert (a + b)[1..] == a[1..] + b;
      GroupsForConcat(a[1..], b, children);
    }
  }

  /** Told right for all nodes of the forest. */
  ghost predicate Knows<K>(children: Children, f: Forest<K>) {
    f.Node? ==>
      && children(f.e, Logical) == OfAssociation(f.child, Logical)
      && children(f.e, Physical) == OfAssociation(f.child, Physical)
      && Knows(children, f.child) && Knows(children, f.sib)
  }

  lemma {:induction false} PdrsKnow<K>(t: Tree<K>, f: Forest<K>)
    requires TreeOk(t) && (f.Node? ==> NodeOf(f, t.root))
    ensures Knows((e, a) => ChildrenFromPdrs(Groups(t.root), e, a), f)
    decreases f
  {
    hide Groups, TreeOk, ChildrenFromPdrs, OfAssociation;
    if f.Node? {
      PdrsRecoverTree(t, f, Logical);
      PdrsRecoverTree(t, f, Physical);
      PartsAreNodes(f, t.root);
      PdrsKnow(t, f.child);
      PdrsKnow(t, f.sib);
    }
  }

  lemma {:induction false} PartsAreNodes<K>(n: Forest<K>, f: Forest<K>)
    requires NodeOf(n, f)
    ensures n.child.Node? ==> NodeOf(n.child, f)
    ensures n.sib.Node? ==> NodeOf(n.sib, f)
    decreases f
  {
    if n != f {
      if NodeOf(n, f.sib) {
        PartsAreNodes(n, f.sib);
      } else {
        PartsAreNodes(n, f.child);
      }
    }
  }

  lemma GroupIs<K>(f: Forest<K>, a: Association, children: Children)
    requires f.Node? && children(f.e, a) == OfAssociation(f.child, a)
    requires f.child.Node? ==> SiblingsOk(Chain(f.child))
    ensures GroupOf(f, a) == GroupFor(f.e, a, children)
  {
    OfAssociationInChain(f.child, a);
    var es := OfAssociation(f.child, a);
    if es != [] {
      assert es[0] in es;
    }
  }

  lemma {:induction false} GroupsFollowVisit<K>(f: Forest<K>, children: Children)
    requires GroupsOk(f) && Knows(children, f)
    ensures Groups(f) == GroupsFor(Visited(f), children)
  {
    hide SiblingsOk, Chain, GroupOf, GroupFor, Visited, OfAssociation;
    FirstVisited(f);
    if f.Node? {
      GroupIs(f, Logical, children);
      GroupIs(f, Physical, children);
      GroupsFollowVisit(f.sib, children);
      GroupsFollowVisit(f.child, children);
      GroupsForConcat([f.e] + Visited(f.sib), Visited(f.child), children);
      GroupsForConcat([f.e], Visited(f.sib), children);
      OneGroup(f.e, children);
    }
  }

  lemma OneGroup(e: Entity, children: Children)
    ensures GroupsFor([e], children) == GroupFor(e, Logical, children) + GroupFor(e, Physical, children)
  {
    assert [e][1..] == [];
  }

  /** The PDRs of a tree come in visiting order: for each entity one for its logical children, if it has any, then one
      for its physical ones, with the container id that the children share. */
  lemma PdrsInVisitingOrder<K>(t: Tree<K>)
    requires TreeOk(t)
    ensures Groups(t.root) == GroupsFor(Visited(t.root), (e, a) => ChildrenFromPdrs(Groups(t.root), e, a))
  {
    PdrsKnow(t, t.root);
    hide Groups, GroupsFor, Visited, ChildrenFromPdrs;
    GroupsFollowVisit(t.root, (e, a) => ChildrenFromPdrs(Groups(t.root), e, a));
  }

  // ----- finding -----

  /** Each node with its entity: a node, then all below it, then the siblings after it. */
  function PreOrder<K>(f: Forest<K>): seq<(K, Entity)> {
    if f.Nil? then [] else [(f.id, f.e)] + PreOrder(f.child) + PreOrder(f.sib)
  }

  predicate Matching<K>(x: (K, Entity), ty: u16, inst: u16) {
    x.1.ty == ty && x.1.inst == inst
  }

  /** `x` is the first match of `s`, if there is one. */
  ghost predicate FirstMatch<K>(s: seq<(K, Entity)>, x: Option<(K, Entity)>, ty: u16, inst: u16) {
    match x
    case None => forall i | 0 <= i < |s| :: !Matching(s[i], ty, inst)
    case Some(y) =>
      exists i | 0 <= i < |s| ::
        s[i] == y && Matching(y, ty, inst) && forall j | 0 <= j < i :: !Matching(s[j], ty, inst)
  }

  lemma FirstOfBoth<K>(a: seq<(K, Entity)>, x: Option<(K, Entity)>, b: seq<(K, Entity)>, y: Option<(K, Entity)>,
                       ty: u16, inst: u16)
    requires FirstMatch(a, x, ty, inst) && FirstMatch(b, y, ty, inst)
    ensures FirstMatch(a + b, if x.Some? then x else y, ty, inst)
  {
    hide Matching;
    var s := a + b;
    if x.Some? {
      var i :| 0 <= i < |a| && a[i] == x.value && Matching(x.value, ty, inst)
               && forall j | 0 <= j < i :: !Matching(a[j], ty, inst);
      assert s[i] == x.value && forall j | 0 <= j < i :: s[j] == a[j];
    } else if y.Some? {
      var i :| 0 <= i < |b| && b[i] == y.value && Matching(y.value, ty, inst)
               && forall j | 0 <= j < i :: !Matching(b[j], ty, inst);
      assert s[|a| + i] == y.value;
      forall j | 0 <= j < |a| + i ensures !Matching(s[j], ty, inst) {
        if j >= |a| {
          assert s[j] == b[j - |a|];
        }
      }
    }
  }

  lemma FirstOfOne<K>(y: (K, Entity), ty: u16, inst: u16)
    ensures FirstMatch([y], if Matching(y, ty, inst) then Some(y) else None, ty, inst)
  {
    assert [y][0] == y;
  }

  lemma FirstOfNone<K>(ty: u16, inst: u16)
    ensures FirstMatch<K>([], None, ty, inst)
  {
  }

  /** The search finds the first match in this order, although the code looks at siblings before it looks below. */
  lemma {:induction false} FindIsFirst<K>(f: Forest<K>, ty: u16, inst: u16)
    ensures FirstMatch(PreOrder(f), Find(f, ty, inst), ty, inst)
  {
    hide FirstMatch;
    if f.Nil? {
      FirstOfNone<K>(ty, inst);
    } else {
      FindIsFirst(f.child, ty, inst);
      FindIsFirst(f.sib, ty, inst);
      var own := (f.id, f.e);
      var first := if Matching(own, ty, inst) then Some(own) else None;
      FirstOfOne(own, ty, inst);
      FirstOfBoth([own], first, PreOrder(f.child), Find(f.child, ty, inst), ty, inst);
      FirstOfBoth([own] + PreOrder(f.child), if first.Some? then first else Find(f.child, ty, inst), PreOrder(f.sib),
                  Find(f.sib, ty, inst), ty, inst);
    }
  }
}
