/** Listing the entities of a tree, and finding one by type and instance number. */
module EntityVisit {
  import opened Bytes
  import opened EntityForest
  import opened EntityTreeLaws
  import opened EntityTree
  import opened Wrappers

  /** Visiting order: a node, the siblings after it, then its children. */
  function Visited<K>(f: Forest<K>): seq<Entity> {
    if f.Nil? then [] else [f.e] + Visited(f.sib) + Visited(f.child)
  }

  lemma {:induction false} VisitedIsAll<K>(f: Forest<K>)
    ensures multiset(Visited(f)) == All(f)
  {
    if f.Node? {
      VisitedIsAll(f.sib);
      VisitedIsAll(f.child);
      assert multiset(Visited(f)) == multiset([f.e]) + multiset(Visited(f.sib)) + multiset(Visited(f.child));
    }
  }

  /** In a tree built by adds, a visit lists every entity exactly once. */
  lemma VisitListsOnce<K>(t: Tree<K>)
    requires TreeOk(t)
    ensures multiset(Visited(t.root)) == All(t.root)
    ensures forall i, j | 0 <= i < j < |Visited(t.root)| :: Visited(t.root)[i] != Visited(t.root)[j]
  {
    hide Visited, All, TreeOk;
    VisitedIsAll(t.root);
    TriplesAreUnique(t);
    var s := Visited(t.root);
    forall i, j | 0 <= i < j < |s| ensures s[i] != s[j] {
      OncePerPlace(s, i, j);
    }
  }

  lemma OncePerPlace<T(!new)>(s: seq<T>, i: nat, j: nat)
    requires NoDup(multiset(s)) && i < j < |s|
    ensures s[i] != s[j]
  {
    assert s == s[..j] + [s[j]] + s[j + 1..];
    assert s[i] == s[..j][i] && multiset(s)[s[j]] <= 1;
    assert multiset(s) == multiset(s[..j]) + multiset([s[j]]) + multiset(s[j + 1..]);
  }

  method GetNumNodes(node: EntityNode?, num: nat, ghost f: Forest<EntityNode>, ghost nodes: set<EntityNode>)
    returns (total: nat)
    requires Matches(node, f) && Ids(f) <= nodes
    ensures total == num + |Visited(f)|
    decreases f
  {
    if node == null {
      return num;
    }
    total := GetNumNodes(node.nextSibling, num + 1, f.sib, nodes);
    total := GetNumNodes(node.firstChild, total, f.child, nodes);
  }

  method VisitNodes(node: EntityNode?, entities: array<Entity>, index: nat, ghost f: Forest<EntityNode>,
                    ghost nodes: set<EntityNode>) returns (next: nat)
    requires Matches(node, f) && Ids(f) <= nodes && index + |Visited(f)| <= entities.Length
    modifies entities
    ensures next == index + |Visited(f)| && entities[..next] == old(entities[..index]) + Visited(f)
    decreases f
  {
    hide Visited;
    FirstVisited(f);
    if node == null {
      Regroups(entities[..index], [], [], []);
      return index;
    }
    ghost var before := entities[..index];
    entities[index] := node.entity;
    assert entities[..index + 1] == before + [f.e];
    next := VisitNodes(node.nextSibling, entities, index + 1, f.sib, nodes);
    next := VisitNodes(node.firstChild, entities, next, f.child, nodes);
    Regroups(before, [f.e], Visited(f.sib), Visited(f.child));
  }

  lemma FirstVisited<K>(f: Forest<K>)
    ensures f.Node? ==> Visited(f) == [f.e] + Visited(f.sib) + Visited(f.child)
    ensures f.Nil? ==> Visited(f) == []
  {
  }

  lemma Regroups(a: seq<Entity>, b: seq<Entity>, c: seq<Entity>, d: seq<Entity>)
    ensures a + b + c + d == a + (b + c + d) && a + [] == a
  {
  }

  /** No entities are handed out for an empty tree. */
  method Visit(tree: AssociationTree) returns (entities: array?<Entity>, size: nat)
    requires tree.Valid()
    ensures size == |Visited(tree.model.root)|
    ensures if size == 0 then entities == null else entities != null && entities[..] == Visited(tree.model.root)
  {
    if tree.root == null {
      return null, 0;
    }
    size := GetNumNodes(tree.root, 0, tree.model.root, tree.repr);
    entities := new Entity[size];
    var index := VisitNodes(tree.root, entities, 0, tree.model.root, tree.repr);
    assert entities[..] == entities[..index];
  }

  // ----- finding -----

  /** Below and beside a match nothing more is looked at; otherwise what the children give replaces what the siblings
      give. */
  function Find<K>(f: Forest<K>, ty: u16, inst: u16): Option<(K, Entity)> {
    if f.Nil? then None
    else if f.e.ty == ty && f.e.inst == inst then Some((f.id, f.e))
    else if Find(f.child, ty, inst).Some? then Find(f.child, ty, inst)
    else Find(f.sib, ty, inst)
  }

  /** Something is found exactly when some entity has the type and instance number, and then it is such an entity. */
  lemma {:induction false} FindIff<K>(f: Forest<K>, ty: u16, inst: u16)
    ensures Find(f, ty, inst).Some? <==> exists e | e in All(f) :: e.ty == ty && e.inst == inst
    ensures Find(f, ty, inst).Some? ==>
              var e := Find(f, ty, inst).value.1;
              e in All(f) && e.ty == ty && e.inst == inst
  {
    if f.Node? {
      FindIff(f.child, ty, inst);
      FindIff(f.sib, ty, inst);
      assert forall e :: e in All(f) <==> e == f.e || e in All(f.child) || e in All(f.sib);
      if f.e.ty == ty && f.e.inst == inst {
        assert f.e in All(f);
      }
    }
  }

  /** No two entities of the tree share type and instance number. */
  ghost predicate PairsAreUnique<K>(f: Forest<K>) {
    forall i, j | 0 <= i < j < |Visited(f)| ::
      Visited(f)[i].ty != Visited(f)[j].ty || Visited(f)[i].inst != Visited(f)[j].inst
  }

  ghost predicate Finds<K>(f: Forest<K>, e: Entity) {
    Find(f, e.ty, e.inst).Some? && Find(f, e.ty, e.inst).value.1 == e
  }

  ghost predicate FindsAll<K>(f: Forest<K>) {
    forall e | e in All(f) :: Finds(f, e)
  }

  /** Exactly when a search by type and instance number finds every entity of a tree built by adds: if no two entities,
      which then stand in different containers, share them. */
  lemma FindsEveryEntityIff<K>(t: Tree<K>)
    requires TreeOk(t)
    ensures FindsAll(t.root) <==> PairsAreUnique(t.root)
  {
    hide *;
    VisitListsOnce(t);
    if PairsAreUnique(t.root) {
      UniquePairsAreFound(t.root);
    }
    if FindsAll(t.root) {
      FoundPairsAreUnique(t.root);
    }
  }

  lemma UniquePairsAreFound<K>(f: Forest<K>)
    requires multiset(Visited(f)) == All(f) && PairsAreUnique(f)
    ensures FindsAll(f)
  {
    hide All, Find, Visited;
    var s := Visited(f);
    forall e | e in All(f) ensures Finds(f, e) {
      FindIff(f, e.ty, e.inst);
      assert e in multiset(s);
      var found := Find(f, e.ty, e.inst).value.1;
      assert found in multiset(s);
      var i :| 0 <= i < |s| && s[i] == e;
      var j :| 0 <= j < |s| && s[j] == found;
      assert i == j;
    }
  }

  lemma FoundPairsAreUnique<K>(f: Forest<K>)
    requires multiset(Visited(f)) == All(f) && FindsAll(f)
    requires forall i, j | 0 <= i < j < |Visited(f)| :: Visited(f)[i] != Visited(f)[j]
    ensures PairsAreUnique(f)
  {
    hide All, Find, Visited;
    var s := Visited(f);
    forall i, j | 0 <= i < j < |s| ensures s[i].ty != s[j].ty || s[i].inst != s[j].inst {
      assert s[i] in multiset(s) && s[j] in multiset(s) && s[i] != s[j];
      assert Finds(f, s[i]) && Finds(f, s[j]);
    }
  }

  /** Two small trees with the same pair in two containers. A match hides what is below it, so here the entity visited
      first is found; where the matches lie side by side below different nodes, it is the one visited last. */
  lemma SharedPairIsAmbiguous()
    ensures var f := Node(1, Entity(1, 1, 0), Physical, Node(2, Entity(1, 1, 1), Physical, Nil, Nil), Nil);
            Visited(f) == [Entity(1, 1, 0), Entity(1, 1, 1)] && Find(f, 1, 1) == Some((1, Entity(1, 1, 0)))
    ensures var second := Node(3, Entity(9, 2, 0), Physical, Node(4, Entity(1, 1, 2), Physical, Nil, Nil), Nil);
            var f := Node(1, Entity(9, 1, 0), Physical, Node(2, Entity(1, 1, 1), Physical, Nil, Nil), second);
            Visited(f)[2..] == [Entity(1, 1, 2), Entity(1, 1, 1)] && Find(f, 1, 1) == Some((2, Entity(1, 1, 1)))
  {
  }

  /** The recursive search; `sought` is the caller's entity, whose container id is filled in. */
  method FindNode(node: EntityNode?, sought: Entity, found: EntityNode?, ghost f: Forest<EntityNode>,
                  ghost nodes: set<EntityNode>) returns (entity: Entity, out: EntityNode?)
    requires Matches(node, f) && Ids(f) <= nodes
    ensures entity.ty == sought.ty && entity.inst == sought.inst
    ensures Find(f, sought.ty, sought.inst).None? ==> entity == sought && out == found
    ensures Find(f, sought.ty, sought.inst).Some? ==>
              (out, entity) == (Find(f, sought.ty, sought.inst).value.0, Find(f, sought.ty, sought.inst).value.1)
    decreases f
  {
    if node == null {
      return sought, found;
    }
    if node.entity.ty == sought.ty && node.entity.inst == sought.inst {
      return Entity(sought.ty, sought.inst, node.entity.cid), node;
    }
    entity, out := FindNode(node.nextSibling, sought, found, f.sib, nodes);
    entity, out := FindNode(node.firstChild, entity, out, f.child, nodes);
  }
}
