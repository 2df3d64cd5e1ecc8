/** The entity association tree on the heap: nodes linked by first-child and next-sibling pointers. */
module EntityTree {
  import opened Bytes
  import opened EntityAdd
  import opened EntityForest
  import opened EntityTreeLaws
  import opened Wrappers

  class EntityNode {
    var entity: Entity
    var firstChild: EntityNode?
    var nextSibling: EntityNode?
    var associationType: Association

    constructor (entityType: u16, associationType: Association)
      ensures entity == Entity(entityType, 1, 0) && this.associationType == associationType
      ensures firstChild == null && nextSibling == null
    {
      this.entity := Entity(entityType, 1, 0);
      this.firstChild, this.nextSibling := null, null;
      this.associationType := associationType;
    }
  }

  /** The chain that starts at `n` is the forest `f`. */
  ghost predicate Matches(n: EntityNode?, f: Forest<EntityNode>)
    reads Ids(f)
    decreases f
  {
    match f
    case Nil => n == null
    case Node(id, e, assoc, child, sib) =>
      && n == id
      && id.entity == e && id.associationType == assoc
      && Matches(id.firstChild, child) && Matches(id.nextSibling, sib)
  }

  /** The loop that looks for the node to insert after. */
  method FindInsertionAt(start: EntityNode, entityType: u16, ghost f: Forest<EntityNode>) returns (prev: EntityNode)
    requires Matches(start, f)
    ensures f.Node? && prev == InsertionPoint(f, entityType).id
    ensures prev.entity == InsertionPoint(f, entityType).e
  {
    prev := start;
    ghost var at := f;
    while prev.nextSibling != null
      invariant at.Node? && Matches(prev, at)
      invariant InsertionPoint(at, entityType) == InsertionPoint(f, entityType)
      decreases at
    {
      var next := prev.nextSibling;
      if prev.entity.ty == entityType && prev.entity.ty != next.entity.ty {
        break;
      }
      prev := next;
      at := at.sib;
    }
  }

  class AssociationTree {
    var root: EntityNode?
    var lastUsedContainerId: u16
    ghost var model: Tree<EntityNode>
    ghost var repr: set<EntityNode>

    ghost predicate Valid()
      reads this, repr
    {
      && repr == Ids(model.root)
      && lastUsedContainerId == model.lastCid
      && Matches(root, model.root)
      && DistinctIds(model.root)
    }

    constructor ()
      ensures Valid() && model == Tree(Nil, 0)
    {
      root, lastUsedContainerId := null, 0;
      model, repr := Tree(Nil, 0), {};
    }

    /** Adds an entity under `parent` (or at the top) and returns its node. */
    method AddEntity(entityType: u16, parent: EntityNode?, associationType: Association) returns (node: EntityNode)
      requires Valid()
      requires CanAdd(model, entityType, OfNullable(parent))
      modifies this, repr
      ensures Valid() && fresh(node) && repr == old(repr) + {node}
      ensures model == Add(old(model), node, entityType, OfNullable(parent), associationType)
      ensures node.entity.ty == entityType
      ensures AddsOne(old(model), model, Member(node, node.entity, associationType), OfNullable(parent))
    {
      hide Matches, Ids, DistinctIds, Insert, WithChildren, ChildrenOf, CanInsert, AddsOne;
      node := new EntityNode(entityType, associationType);
      AddIds(model, node, entityType, OfNullable(parent), associationType);
      RootAndChild(parent);
      if root == null {
        root := node;
        LeafMatches(node);
        model := Add(model, node, entityType, None, associationType);
      } else if parent != null && parent.firstChild == null {
        lastUsedContainerId := lastUsedContainerId + 1;
        node.entity := Entity(entityType, 1, lastUsedContainerId);
        SetFirstChild(root, parent, node, model.root);
        model := Add(model, node, entityType, OfNullable(parent), associationType);
      } else {
        InsertSibling(node, parent, entityType);
        model := Add(model, node, entityType, OfNullable(parent), associationType);
      }
      repr := repr + {node};
      AddPutsOneIn(old(model), node, entityType, OfNullable(parent), associationType);
      ghost var e: Entity :| e.ty == entityType
                             && AddsOne(old(model), model, Member(node, e, associationType), OfNullable(parent));
      MemberIn(old(model), model, Member(node, e, associationType), OfNullable(parent));
      MemberIsNode(root, model.root, OfNullable(parent), Member(node, e, associationType));
    }

    method InsertSibling(node: EntityNode, parent: EntityNode?, entityType: u16)
      requires Valid() && CanAdd(model, entityType, OfNullable(parent)) && node !in Ids(model.root)
      requires root != null && (parent != null ==> parent.firstChild != null)
      requires node.entity == Entity(entityType, 1, 0) && node.firstChild == null
      modifies repr, node
      ensures node.associationType == old(node.associationType)
      ensures Matches(root, Add(model, node, entityType, OfNullable(parent), node.associationType).root)
      ensures Add(model, node, entityType, OfNullable(parent), node.associationType).lastCid == model.lastCid
    {
      hide Ids, DistinctIds, Insert, WithChildren, CanInsert;
      RootAndChild(parent);
      ghost var top := model.root;
      var start := if parent == null then root else parent.firstChild;
      ghost var chain: Forest<EntityNode> := if parent == null then top else ChildrenOf<EntityNode>(top, parent);
      if parent != null {
        MatchesApartFromChildren(root, top, parent);
      }
      var prev := FindInsertionAt(start, entityType, chain);
      PointInside(chain, entityType);
      label BeforeLink:
      LinkAfter(start, prev, node, entityType, chain);
      if parent != null {
        assert MatchesUpToChildren(root, top, parent) == old@BeforeLink(MatchesUpToChildren(root, top, parent));
        WithOtherChildren(root, top, parent, Insert(chain, node, entityType, node.associationType));
      }
    }

    /** What the pointers tested by an add say about the model. */
    lemma RootAndChild(parent: EntityNode?)
      requires Valid() && (parent != null ==> parent in Ids(model.root))
      ensures root == null <==> model.root.Nil?
      ensures parent != null ==> root != null
      ensures parent != null ==>
                var c := ChildrenOf<EntityNode>(model.root, parent);
                && (parent.firstChild == null <==> c.Nil?)
                && Matches(parent.firstChild, c) && DistinctIds(c) && Ids(c) <= repr - {parent}
    {
      if parent != null {
        MatchesAt(root, model.root, parent);
      }
    }
  }

  /** A member of a group tells what its node holds. */
  lemma {:induction false} MemberIsNode(n: EntityNode?, f: Forest<EntityNode>, q: Option<EntityNode>,
                                        m: Member<EntityNode>)
    requires Matches(n, f) && m in SiblingsOf(f, q)
    ensures m.id.entity == m.e && m.id.associationType == m.assoc
    decreases f, q.Some?
  {
    match q
    case None =>
      if m != Member(f.id, f.e, f.assoc) {
        MemberIsNode(f.id.nextSibling, f.sib, None, m);
      }
    case Some(p) =>
      if f.id == p {
        MemberIsNode(f.id.firstChild, f.child, None, m);
      } else if m in MembersBelow(f.child, p) {
        MemberIsNode(f.id.firstChild, f.child, q, m);
      } else {
        MemberIsNode(f.id.nextSibling, f.sib, q, m);
      }
  }

  lemma LeafMatches(node: EntityNode)
    requires node.firstChild == null && node.nextSibling == null
    ensures Matches(node, Node(node, node.entity, node.associationType, Nil, Nil))
  {
    assert Matches(node.firstChild, Nil) && Matches(node.nextSibling, Nil);
  }

  /** Making `node` the first and only child of `p`. */
  method SetFirstChild(root: EntityNode, p: EntityNode, node: EntityNode, ghost f: Forest<EntityNode>)
    requires Matches(root, f) && DistinctIds(f) && p in Ids(f) && ChildrenOf(f, p) == Nil
    requires node !in Ids(f) && node.firstChild == null && node.nextSibling == null
    modifies p`firstChild
    ensures Matches(root, WithChildren(f, p, Node(node, node.entity, node.associationType, Nil, Nil)))
  {
    MatchesApartFromChildren(root, f, p);
    p.firstChild := node;
    assert MatchesUpToChildren(root, f, p) == old(MatchesUpToChildren(root, f, p));
    ghost var c := Node(node, node.entity, node.associationType, Nil, Nil);
    LeafMatches(node);
    WithOtherChildren(root, f, p, c);
  }

  /** Numbering `node` and linking it in after `prev`. */
  method LinkAfter(start: EntityNode, prev: EntityNode, node: EntityNode, ty: u16, ghost f: Forest<EntityNode>)
    requires Matches(start, f) && DistinctIds(f) && node !in Ids(f)
    requires f.Node? && CanInsert(f, ty) && prev == InsertionPoint(f, ty).id && prev.entity == InsertionPoint(f, ty).e
    requires node.entity == Entity(ty, 1, 0) && node.firstChild == null
    modifies node`entity, node`nextSibling, prev`nextSibling
    ensures Matches(start, Insert(f, node, ty, node.associationType))
  {
    MatchesApartFromNext(start, f, ty);
    PointInside(f, ty);
    var next := prev.nextSibling;
    if prev.entity.ty == ty {
      node.entity := Entity(ty, prev.entity.inst + 1, 0);
    }
    prev.nextSibling := node;
    node.nextSibling := next;
    node.entity := Entity(ty, node.entity.inst, prev.entity.cid);
    assert MatchesUpToNext(start, f, ty, prev) == old(MatchesUpToNext(start, f, ty, prev));
    WithInserted(start, f, node, ty);
  }

  lemma {:induction false} PointInside(f: Forest<EntityNode>, ty: u16)
    requires f.Node?
    ensures InsertionPoint(f, ty).id == f.id || InsertionPoint(f, ty).id in Ids(f.sib)
    ensures InsertionPoint(f, ty).id in Ids(f)
  {
    if !(f.sib.Nil? || (f.e.ty == ty && f.sib.e.ty != ty)) {
      PointInside(f.sib, ty);
    }
  }

  lemma {:induction false} ChildIdsInside(f: Forest<EntityNode>, p: EntityNode)
    requires p in Ids(f)
    ensures Ids(ChildrenOf(f, p)) <= Ids(f)
  {
    if f.id != p {
      if p in Ids(f.child) {
        ChildIdsInside(f.child, p);
      } else {
        ChildIdsInside(f.sib, p);
      }
    }
  }

  lemma {:induction false} MatchesAt(n: EntityNode?, f: Forest<EntityNode>, p: EntityNode)
    requires Matches(n, f) && DistinctIds(f) && p in Ids(f)
    ensures Matches(p.firstChild, ChildrenOf(f, p)) && DistinctIds(ChildrenOf(f, p))
    ensures Ids(ChildrenOf(f, p)) <= Ids(f) - {p}
  {
    if f.id != p {
      if p in Ids(f.child) {
        MatchesAt(f.id.firstChild, f.child, p);
      } else {
        MatchesAt(f.id.nextSibling, f.sib, p);
      }
    }
  }

  /** The chain at `n` is `f`, whatever the sibling pointer of `p`, its insertion point for `ty`. */
  ghost predicate MatchesUpToNext(n: EntityNode?, f: Forest<EntityNode>, ty: u16, p: EntityNode)
    requires f.Node? && DistinctIds(f) && p == InsertionPoint(f, ty).id
    reads Ids(f) - {p}, p`entity, p`associationType, p`firstChild
  {
    PointInside(f, ty);
    && n == f.id && f.id.entity == f.e && f.id.associationType == f.assoc
    && Matches(f.id.firstChild, f.child)
    && if f.sib.Nil? || (f.e.ty == ty && f.sib.e.ty != ty) then
         f.sib.Node? ==> Matches(f.sib.id, f.sib)
       else
         PointInside(f.sib, ty);
         MatchesUpToNext(f.id.nextSibling, f.sib, ty, p)
  }

  lemma {:induction false} MatchesApartFromNext(n: EntityNode?, f: Forest<EntityNode>, ty: u16)
    requires Matches(n, f) && DistinctIds(f) && f.Node?
    ensures MatchesUpToNext(n, f, ty, InsertionPoint(f, ty).id)
    ensures var p := InsertionPoint(f, ty);
            p.id.nextSibling == if p.sib.Nil? then null else p.sib.id
  {
    if !(f.sib.Nil? || (f.e.ty == ty && f.sib.e.ty != ty)) {
      MatchesApartFromNext(f.id.nextSibling, f.sib, ty);
    }
  }

  lemma {:induction false} WithInserted(n: EntityNode?, f: Forest<EntityNode>, node: EntityNode, ty: u16)
    requires f.Node? && DistinctIds(f) && CanInsert(f, ty) && node !in Ids(f)
    requires MatchesUpToNext(n, f, ty, InsertionPoint(f, ty).id)
    requires var p := InsertionPoint(f, ty);
             && p.id.nextSibling == node
             && node.nextSibling == (if p.sib.Nil? then null else p.sib.id)
             && node.entity == NewSibling(p.e, ty) && node.firstChild == null
    ensures Matches(n, Insert(f, node, ty, node.associationType))
  {
    if !(f.sib.Nil? || (f.e.ty == ty && f.sib.e.ty != ty)) {
      WithInserted(f.id.nextSibling, f.sib, node, ty);
    }
  }

  lemma TopOutside(f: Forest<EntityNode>, p: EntityNode)
    requires p in Ids(f) && DistinctIds(f)
    ensures f.id !in Ids(ChildrenOf(f, p))
  {
    if f.id != p {
      ChildIdsInside(if p in Ids(f.child) then f.child else f.sib, p);
    }
  }

  /** The chain at `n` is `f`, whatever hangs below `p`. */
  ghost predicate MatchesUpToChildren(n: EntityNode?, f: Forest<EntityNode>, p: EntityNode)
    requires p in Ids(f) && DistinctIds(f)
    reads Ids(f) - {p} - Ids(ChildrenOf(f, p)), p`entity, p`associationType, p`nextSibling
  {
    TopOutside(f, p);
    && n == f.id && f.id.entity == f.e && f.id.associationType == f.assoc
    && if f.id == p then Matches(f.id.nextSibling, f.sib)
       else if p in Ids(f.child) then
         ChildIdsInside(f.child, p);
         Matches(f.id.nextSibling, f.sib) && MatchesUpToChildren(f.id.firstChild, f.child, p)
       else
         ChildIdsInside(f.sib, p);
         Matches(f.id.firstChild, f.child) && MatchesUpToChildren(f.id.nextSibling, f.sib, p)
  }

  lemma {:induction false} MatchesApartFromChildren(n: EntityNode?, f: Forest<EntityNode>, p: EntityNode)
    requires Matches(n, f) && DistinctIds(f) && p in Ids(f)
    ensures MatchesUpToChildren(n, f, p)
  {
    if f.id != p {
      if p in Ids(f.child) {
        MatchesApartFromChildren(f.id.firstChild, f.child, p);
      } else {
        MatchesApartFromChildren(f.id.nextSibling, f.sib, p);
      }
    }
  }

  lemma {:induction false} WithOtherChildren(n: EntityNode?, f: Forest<EntityNode>, p: EntityNode,
                                             c: Forest<EntityNode>)
    requires p in Ids(f) && DistinctIds(f) && MatchesUpToChildren(n, f, p)
    ensures Matches(p.firstChild, c) ==> Matches(n, WithChildren(f, p, c))
  {
    if f.id != p {
      if p in Ids(f.child) {
        WithOtherChildren(f.id.firstChild, f.child, p, c);
      } else {
        WithOtherChildren(f.id.nextSibling, f.sib, p, c);
      }
    }
  }

  function OfNullable(n: EntityNode?): Option<EntityNode> {
    if n == null then None else Some(n)
  }
}
