/** The entity association tree as a value: first-child / next-sibling forests, the numbering done by
    an add, and what every run of adds keeps. */
module EntityForest {
  import opened Bytes
  import opened Wrappers

  datatype Entity = Entity(ty: u16, inst: u16, cid: u16)

  datatype Association = Physical | Logical

  /** A sibling chain: a node with its own children, and the siblings after it. `id` is the node. */
  datatype Forest<+K> =
    | Nil
    | Node(id: K, e: Entity, assoc: Association, child: Forest<K>, sib: Forest<K>)

  datatype Tree<+K> = Tree(root: Forest<K>, lastCid: u16)

  function Ids<K(==)>(f: Forest<K>): set<K> {
    if f.Nil? then {} else {f.id} + Ids(f.child) + Ids(f.sib)
  }

  ghost predicate DistinctIds<K>(f: Forest<K>) {
    f.Node? ==>
      && f.id !in Ids(f.child) && f.id !in Ids(f.sib) && Ids(f.child) !! Ids(f.sib)
      && DistinctIds(f.child) && DistinctIds(f.sib)
  }

  /** The entities of one sibling chain. */
  function Chain<K>(f: Forest<K>): seq<Entity> {
    if f.Nil? then [] else [f.e] + Chain(f.sib)
  }

  // ----- adding -----

  /** The node after which a sibling of type `ty` goes: the end of the first run of that type, or the
      end of the chain. */
  function InsertionPoint<K>(f: Forest<K>, ty: u16): (p: Forest<K>)
    requires f.Node?
    ensures p.Node?
  {
    if f.sib.Nil? || (f.e.ty == ty && f.sib.e.ty != ty) then f
    else InsertionPoint(f.sib, ty)
  }

  /** The instance number asserted not to overflow. */
  predicate CanInsert<K>(f: Forest<K>, ty: u16)
    requires f.Node?
  {
    InsertionPoint(f, ty).e.ty == ty ==> InsertionPoint(f, ty).e.inst != U16_MAX
  }

  function NewSibling(prev: Entity, ty: u16): Entity
    requires prev.ty == ty ==> prev.inst != U16_MAX
  {
    Entity(ty, if prev.ty == ty then prev.inst + 1 else 1, prev.cid)
  }

  function Insert<K>(f: Forest<K>, id: K, ty: u16, assoc: Association): (g: Forest<K>)
    requires f.Node? && CanInsert(f, ty)
    ensures g.Node? && g.e == f.e && g.id == f.id
  {
    if f.sib.Nil? || (f.e.ty == ty && f.sib.e.ty != ty) then
      f.(sib := Node(id, NewSibling(f.e, ty), assoc, Nil, f.sib))
    else
      f.(sib := Insert(f.sib, id, ty, assoc))
  }

  /** The child chain of a node. */
  function ChildrenOf<K(==)>(f: Forest<K>, p: K): Forest<K> {
    if f.Nil? then Nil
    else if f.id == p then f.child
    else if p in Ids(f.child) then ChildrenOf(f.child, p)
    else ChildrenOf(f.sib, p)
  }

  function WithChildren<K(==)>(f: Forest<K>, p: K, children: Forest<K>): Forest<K> {
    if f.Nil? then Nil
    else if f.id == p then f.(child := children)
    else if p in Ids(f.child) then f.(child := WithChildren(f.child, p, children))
    else f.(sib := WithChildren(f.sib, p, children))
  }

  predicate CanAdd<K(==)>(t: Tree<K>, ty: u16, parent: Option<K>) {
    match parent
    case None => t.root.Node? ==> CanInsert(t.root, ty)
    case Some(p) =>
      && p in Ids(t.root)
      && var children := ChildrenOf(t.root, p);
         if children.Nil? then t.lastCid != U16_MAX else CanInsert(children, ty)
  }

  /** One add. The first child of a node opens a new container id; every other entity goes into an
      existing chain. */
  function Add<K(==)>(t: Tree<K>, id: K, ty: u16, parent: Option<K>, assoc: Association): Tree<K>
    requires CanAdd(t, ty, parent)
  {
    match parent
    case None =>
      if t.root.Nil? then t.(root := Node(id, Entity(ty, 1, 0), assoc, Nil, Nil))
      else t.(root := Insert(t.root, id, ty, assoc))
    case Some(p) =>
      var children := ChildrenOf(t.root, p);
      if children.Nil? then
        var cid := t.lastCid + 1;
        Tree(WithChildren(t.root, p, Node(id, Entity(ty, 1, cid), assoc, Nil, Nil)), cid)
      else
        t.(root := WithChildren(t.root, p, Insert(children, id, ty, assoc)))
  }

  // ----- one group of siblings -----

  function CountType(es: seq<Entity>, ty: u16): nat {
    if es == [] then 0
    else CountType(es[..|es| - 1], ty) + (if es[|es| - 1].ty == ty then 1 else 0)
  }

  ghost predicate SameContainer(es: seq<Entity>) {
    forall e | e in es :: e.cid == es[0].cid
  }

  /** An entity whose type occurred before follows one of its own type. */
  ghost predicate Contiguous(es: seq<Entity>) {
    forall i, k | 0 <= i < k < |es| && es[i].ty == es[k].ty :: es[k - 1].ty == es[k].ty
  }

  /** Each type is numbered 1, 2, ... in order. */
  ghost predicate Numbered(es: seq<Entity>) {
    forall i | 0 <= i < |es| :: es[i].inst == 1 + CountType(es[..i], es[i].ty)
  }

  ghost predicate SiblingsOk(es: seq<Entity>) {
    SameContainer(es) && Contiguous(es) && Numbered(es)
  }

  /** Contiguity in full: everything between two siblings of one type is of that type. */
  lemma {:induction false} BetweenSameType(es: seq<Entity>, i: nat, j: nat, k: nat)
    requires Contiguous(es) && i <= j <= k < |es| && es[i].ty == es[k].ty
    ensures es[j].ty == es[i].ty
    decreases k - j
  {
    if j < k {
      assert i < k;
      assert es[k - 1].ty == es[k].ty;
      BetweenSameType(es, i, j, k - 1);
    }
  }

  lemma {:induction false} CountTypeConcat(a: seq<Entity>, b: seq<Entity>, ty: u16)
    ensures CountType(a + b, ty) == CountType(a, ty) + CountType(b, ty)
  {
    if b == [] {
      assert a + b == a;
    } else {
      assert (a + b)[..|a + b| - 1] == a + b[..|b| - 1];
      CountTypeConcat(a, b[..|b| - 1], ty);
    }
  }

  lemma {:induction false} CountTypeNone(es: seq<Entity>, ty: u16)
    requires forall i | 0 <= i < |es| :: es[i].ty != ty
    ensures CountType(es, ty) == 0
  {
    if es != [] {
      CountTypeNone(es[..|es| - 1], ty);
    }
  }

  lemma CountTypeSplit(es: seq<Entity>, i: nat, j: nat, ty: u16)
    requires i < j <= |es|
    ensures CountType(es[..j], ty) ==
            CountType(es[..i], ty) + (if es[i].ty == ty then 1 else 0) + CountType(es[i + 1..j], ty)
  {
    assert es[..j] == es[..i] + ([es[i]] + es[i + 1..j]);
    CountTypeConcat(es[..i], [es[i]] + es[i + 1..j], ty);
    CountTypeConcat([es[i]], es[i + 1..j], ty);
    assert CountType([es[i]], ty) == if es[i].ty == ty then 1 else 0;
  }

  /** In one group the pair (type, instance) identifies an entity. */
  lemma SiblingsAreDistinct(es: seq<Entity>, i: nat, j: nat)
    requires Numbered(es) && i < j < |es|
    ensures es[i].ty == es[j].ty ==> es[i].inst < es[j].inst
  {
    CountTypeSplit(es, i, j, es[i].ty);
  }

  /** Where an insert goes, as a position in the chain. */
  function InsertAt(es: seq<Entity>, ty: u16): (p: nat)
    requires es != []
    ensures p < |es|
    ensures p + 1 < |es| ==> es[p].ty == ty && es[p + 1].ty != ty
  {
    if |es| == 1 || (es[0].ty == ty && es[1].ty != ty) then 0
    else 1 + InsertAt(es[1..], ty)
  }

  function Inserted(es: seq<Entity>, ty: u16): seq<Entity>
    requires es != [] && (es[InsertAt(es, ty)].ty == ty ==> es[InsertAt(es, ty)].inst != U16_MAX)
  {
    var p := InsertAt(es, ty);
    es[..p + 1] + [NewSibling(es[p], ty)] + es[p + 1..]
  }

  lemma {:induction false} InsertOnChain<K>(f: Forest<K>, id: K, ty: u16, assoc: Association)
    requires f.Node? && CanInsert(f, ty)
    ensures Chain(f) != [] && Chain(f)[InsertAt(Chain(f), ty)] == InsertionPoint(f, ty).e
    ensures Chain(Insert(f, id, ty, assoc)) == Inserted(Chain(f), ty)
  {
    hide *;
    UnfoldInsert(f, id, ty, assoc);
    if f.sib.Nil? || (f.e.ty == ty && f.sib.e.ty != ty) {
      InsertAtHead(f.e, Chain(f.sib), ty);
    } else {
      UnfoldInsert(f.sib, id, ty, assoc);
      InsertOnChain(f.sib, id, ty, assoc);
      ConsInserted(f.e, Chain(f.sib), ty);
    }
  }

  lemma UnfoldInsert<K>(f: Forest<K>, id: K, ty: u16, assoc: Association)
    requires f.Node? && CanInsert(f, ty)
    ensures Chain(f) == [f.e] + Chain(f.sib)
    ensures f.sib.Nil? <==> Chain(f.sib) == []
    ensures f.sib.Node? ==> Chain(f.sib)[0] == f.sib.e
    ensures InsertionPoint(f, ty).e.ty == ty ==> InsertionPoint(f, ty).e.inst != U16_MAX
    ensures f.sib.Nil? || (f.e.ty == ty && f.sib.e.ty != ty) ==>
              && InsertionPoint(f, ty) == f
              && Chain(Insert(f, id, ty, assoc)) == [f.e] + ([NewSibling(f.e, ty)] + Chain(f.sib))
    ensures !(f.sib.Nil? || (f.e.ty == ty && f.sib.e.ty != ty)) ==>
              && CanInsert(f.sib, ty)
              && InsertionPoint(f, ty) == InsertionPoint(f.sib, ty)
              && Chain(Insert(f, id, ty, assoc)) == [f.e] + Chain(Insert(f.sib, id, ty, assoc))
  {
    hide NewSibling;
  }

  lemma InsertAtHead(e: Entity, rest: seq<Entity>, ty: u16)
    requires rest == [] || (e.ty == ty && rest[0].ty != ty)
    requires e.ty == ty ==> e.inst != U16_MAX
    ensures InsertAt([e] + rest, ty) == 0
    ensures Inserted([e] + rest, ty) == [e] + ([NewSibling(e, ty)] + rest)
  {
    hide NewSibling;
    assert ([e] + rest)[1..] == rest;
  }

  lemma ConsInserted(e: Entity, rest: seq<Entity>, ty: u16)
    requires rest != [] && !(e.ty == ty && rest[0].ty != ty)
    requires rest[InsertAt(rest, ty)].ty == ty ==> rest[InsertAt(rest, ty)].inst != U16_MAX
    ensures InsertAt([e] + rest, ty) == InsertAt(rest, ty) + 1
    ensures Inserted([e] + rest, ty) == [e] + Inserted(rest, ty)
  {
    hide InsertAt, NewSibling;
    var q := InsertAt(rest, ty);
    InsertAtCons(e, rest, ty);
    SpliceCons(e, rest, q + 1, [NewSibling(rest[q], ty)]);
  }

  lemma InsertAtCons(e: Entity, rest: seq<Entity>, ty: u16)
    requires rest != [] && !(e.ty == ty && rest[0].ty != ty)
    ensures InsertAt([e] + rest, ty) == InsertAt(rest, ty) + 1
  {
    assert ([e] + rest)[1..] == rest;
  }

  lemma SpliceCons(e: Entity, rest: seq<Entity>, k: nat, mid: seq<Entity>)
    requires k <= |rest|
    ensures ([e] + rest)[..k + 1] + mid + ([e] + rest)[k + 1..] == [e] + (rest[..k] + mid + rest[k..])
  {
  }

  lemma {:induction false} TypeRunReaches(es: seq<Entity>, ty: u16, i: nat)
    requires es != [] && i <= InsertAt(es, ty) && es[i].ty == ty
    ensures es[InsertAt(es, ty)].ty == ty
  {
    if InsertAt(es, ty) > 0 {
      var rest := es[1..];
      if i > 0 {
        TypeRunReaches(rest, ty, i - 1);
      } else {
        TypeRunReaches(rest, ty, 0);
      }
    }
  }

  /** Behind the insertion point the type no longer occurs; before it, only in its own run. */
  lemma AroundInsertion(es: seq<Entity>, ty: u16, k: nat)
    requires es != [] && Contiguous(es) && k < |es|
    ensures InsertAt(es, ty) < k ==> es[k].ty != ty
    ensures k <= InsertAt(es, ty) && es[k].ty == ty ==> es[InsertAt(es, ty)].ty == ty
  {
    var p := InsertAt(es, ty);
    if p < k && es[k].ty == ty {
      BetweenSameType(es, p, p + 1, k);
    }
    if k <= p && es[k].ty == ty {
      TypeRunReaches(es, ty, k);
    }
  }

  lemma NumberBeforeInsert(es: seq<Entity>, ty: u16)
    requires es != [] && Contiguous(es) && Numbered(es)
    ensures var p := InsertAt(es, ty);
            && CountType(es[..p + 1], ty) == CountType(es, ty)
            && CountType(es, ty) == if es[p].ty == ty then es[p].inst else 0
  {
    hide CountType, InsertAt;
    var p := InsertAt(es, ty);
    forall k | 0 <= k < |es|
      ensures p < k ==> es[k].ty != ty
      ensures k <= p && es[p].ty != ty ==> es[k].ty != ty
    {
      AroundInsertion(es, ty, k);
    }
    assert es == es[..p + 1] + es[p + 1..];
    CountTypeConcat(es[..p + 1], es[p + 1..], ty);
    CountTypeNone(es[p + 1..], ty);
    CountTypeSplit(es, p, p + 1, ty);
    CountTypeNone(es[p + 1..p + 1], ty);
    if es[p].ty != ty {
      CountTypeNone(es[..p + 1], ty);
    }
  }

  lemma InsertKeepsNumbers(es: seq<Entity>, ty: u16)
    requires es != [] && Contiguous(es) && Numbered(es)
    requires es[InsertAt(es, ty)].ty == ty ==> es[InsertAt(es, ty)].inst != U16_MAX
    ensures Numbered(Inserted(es, ty))
  {
    hide CountType, InsertAt;
    var p := InsertAt(es, ty);
    var s := Inserted(es, ty);
    forall i | 0 <= i < |s|
      ensures s[i].inst == 1 + CountType(s[..i], s[i].ty)
    {
      if i <= p {
        assert s[..i] == es[..i];
      } else if i == p + 1 {
        assert s[..i] == es[..p + 1];
        NumberBeforeInsert(es, ty);
      } else {
        NumberBehindInsert(es, ty, i);
      }
    }
  }

  /** A sibling behind the insertion moves up by one and keeps its number: the new one has another type. */
  lemma NumberBehindInsert(es: seq<Entity>, ty: u16, i: nat)
    requires es != [] && Contiguous(es) && InsertAt(es, ty) + 1 < i < |es| + 1
    requires es[InsertAt(es, ty)].ty == ty ==> es[InsertAt(es, ty)].inst != U16_MAX
    ensures Inserted(es, ty)[i] == es[i - 1]
    ensures CountType(Inserted(es, ty)[..i], es[i - 1].ty) == CountType(es[..i - 1], es[i - 1].ty)
  {
    hide CountType, InsertAt;
    var p, s := InsertAt(es, ty), Inserted(es, ty);
    AroundInsertion(es, ty, i - 1);
    CountTypeSplit(s, p + 1, i, s[i].ty);
    assert s[..p + 1] == es[..p + 1] && s[p + 2..i] == es[p + 1..i - 1];
    assert es[..i - 1] == es[..p + 1] + es[p + 1..i - 1];
    CountTypeConcat(es[..p + 1], es[p + 1..i - 1], s[i].ty);
  }

  lemma InsertKeepsContiguous(es: seq<Entity>, ty: u16)
    requires es != [] && Contiguous(es)
    requires es[InsertAt(es, ty)].ty == ty ==> es[InsertAt(es, ty)].inst != U16_MAX
    ensures Contiguous(Inserted(es, ty))
  {
    hide CountType, InsertAt;
    var p := InsertAt(es, ty);
    var s := Inserted(es, ty);
    forall i, k | 0 <= i < k < |s| && s[i].ty == s[k].ty
      ensures s[k - 1].ty == s[k].ty
    {
      var i', k' := if i <= p then i else i - 1, if k <= p then k else k - 1;
      if k == p + 1 {
        AroundInsertion(es, ty, i);
      } else if i == p + 1 {
        AroundInsertion(es, ty, k');
      } else {
        assert es[i'].ty == es[k'].ty;
      }
    }
  }

  /** An insert keeps a group in order, and gives the new entity the next number of its type. */
  lemma InsertKeepsSiblings(es: seq<Entity>, ty: u16)
    requires es != [] && SiblingsOk(es)
    requires es[InsertAt(es, ty)].ty == ty ==> es[InsertAt(es, ty)].inst != U16_MAX
    ensures SiblingsOk(Inserted(es, ty))
    ensures var e := NewSibling(es[InsertAt(es, ty)], ty);
            e.inst == 1 + CountType(es, ty) && e.cid == es[0].cid
  {
    hide CountType, InsertAt, Contiguous, Numbered;
    InsertKeepsNumbers(es, ty);
    InsertKeepsContiguous(es, ty);
    NumberBeforeInsert(es, ty);
    forall e | e in Inserted(es, ty)
      ensures e.cid == es[0].cid
    {
    }
  }
}
