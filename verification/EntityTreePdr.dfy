/** Turning an entity association tree into PDRs of a repository, and reading one such PDR. */
module EntityTreePdr {
  import opened Bytes
  import opened EntityForest
  import opened EntityTree
  import opened EntityPdr
  import opened PdrRecords
  import opened PdrRepository

  /** Counts the children of one kind; the count is asserted to stay below 255. */
  method GetNumChildren(node: EntityNode, a: Association, ghost f: Forest<EntityNode>) returns (count: byte)
    requires Matches(node.firstChild, f) && |OfAssociation(f, a)| < 0xFF
    ensures count == |OfAssociation(f, a)|
  {
    var n := 0;
    var curr := node.firstChild;
    ghost var at := f;
    while curr != null
      invariant Matches(curr, at)
      invariant n + |OfAssociation(at, a)| == |OfAssociation(f, a)|
      decreases at
    {
      if curr.associationType == a {
        n := n + 1;
      }
      curr := curr.nextSibling;
      at := at.sib;
    }
    count := n;
  }

  /** The fixed part of the PDR of one group. */
  method PutHeader(pdr: array<byte>, curr: EntityNode, containedCount: byte, a: Association,
                   ghost f: Forest<EntityNode>)
    returns (start: nat)
    requires f.Node? && Matches(curr, f) && f.child.Node?
    requires containedCount == |OfAssociation(f.child, a)| && 0 < containedCount < 0xFF
    requires pdr.Length == CHILDREN_AT + 6 * containedCount as int
    modifies pdr
    ensures GroupOf(f, a) != [] && |GroupOf(f, a)[0].children| == containedCount as int
    ensures start == CHILDREN_AT && pdr[..start] == GroupHeader(GroupOf(f, a)[0])
  {
    hide Le16, Le32, EntityBytes;
    start := PutAt(pdr, 0, Le32(0) + [1, ENTITY_ASSOCIATION_TYPE] + Le16(0) + Le16(pdr.Length - PDR_HEADER_SIZE));
    start := PutAt(pdr, start, Le16(curr.firstChild.entity.cid));
    start := PutAt(pdr, start, [AssociationByte(a)]);
    start := PutAt(pdr, start, EntityBytes(curr.entity));
    start := PutAt(pdr, start, [containedCount]);
  }

  /** The contained entities of one kind, from `start` to the end of the buffer. */
  method PutChildren(pdr: array<byte>, first: EntityNode?, from: nat, a: Association, ghost f: Forest<EntityNode>,
                     ghost nodes: set<EntityNode>)
    requires Matches(first, f) && Ids(f) <= nodes
    requires from + 6 * |OfAssociation(f, a)| == pdr.Length
    modifies pdr
    ensures pdr[..] == old(pdr[..from]) + EntitiesBytes(OfAssociation(f, a))
  {
    hide EntityBytes;
    var start := from;
    var node := first;
    ghost var at := f;
    while node != null
      invariant Matches(node, at) && Ids(at) <= nodes
      invariant 0 <= start && start + 6 * |OfAssociation(at, a)| == pdr.Length
      invariant pdr[..start] + EntitiesBytes(OfAssociation(at, a))
          == old(pdr[..from]) + EntitiesBytes(OfAssociation(f, a))
      decreases at
    {
      FirstChildBytes(at, a);
      if node.associationType == a {
        start := PutAt(pdr, start, EntityBytes(node.entity));
      }
      node := node.nextSibling;
      at := at.sib;
    }
  }

  lemma FirstChildBytes(f: Forest<EntityNode>, a: Association)
    requires f.Node?
    ensures |OfAssociation(f, a)| == |OfAssociation(f.sib, a)| + if f.assoc == a then 1 else 0
    ensures EntitiesBytes(OfAssociation(f, a)) ==
            (if f.assoc == a then EntityBytes(f.e) else []) + EntitiesBytes(OfAssociation(f.sib, a))
  {
    if f.assoc == a {
      assert OfAssociation(f, a)[1..] == OfAssociation(f.sib, a);
    } else {
      assert OfAssociation(f, a) == OfAssociation(f.sib, a);
      assert [] + EntitiesBytes(OfAssociation(f, a)) == EntitiesBytes(OfAssociation(f.sib, a));
    }
  }

  /** Builds the PDR of one group in a buffer of the precomputed size and adds it. */
  method AddPdrEntry(curr: EntityNode, repo: PdrRepo, size: u16, containedCount: byte, a: Association, isRemote: bool,
                     ghost f: Forest<EntityNode>, ghost nodes: set<EntityNode>)
    requires f.Node? && Matches(curr, f) && Ids(f) <= nodes
    requires containedCount == |OfAssociation(f.child, a)| && 0 < containedCount < 0xFF
    requires size == CHILDREN_AT + 6 * containedCount as int
    requires repo.Valid() && LastHandle(repo.contents) < U32_MAX
    modifies repo, repo.repr
    ensures repo.Valid() && fresh(repo.repr - old(repo.repr))
    ensures Matches(curr, f) && Encodable(GroupOf(f, a))
    ensures repo.contents == Stored(old(repo.contents), GroupOf(f, a), isRemote)
  {
    hide EntitiesBytes, GroupHeader, EntityBytes, PdrRepo.Valid, NewRecord, Stored;
    var pdr := new byte[size];
    var start := PutHeader(pdr, curr, containedCount, a, f);
    PutChildren(pdr, curr.firstChild, start, a, f.child, nodes);
    ghost var g := GroupOf(f, a)[0];
    assert pdr[..] == GroupPdr(g);
    StoredOne(repo.contents, g, isRemote);
    var handle := repo.Add(pdr[..], 0, isRemote);
  }

  method AddPdrEntries(curr: EntityNode, repo: PdrRepo, isRemote: bool, ghost f: Forest<EntityNode>,
                       ghost nodes: set<EntityNode>)
    requires f.Node? && Matches(curr, f) && Ids(f) <= nodes && Countable(f)
    requires repo.Valid() && LastHandle(repo.contents) + |GroupOf(f, Logical)| + |GroupOf(f, Physical)| <= U32_MAX
    modifies repo, repo.repr
    ensures repo.Valid() && fresh(repo.repr - old(repo.repr))
    ensures Matches(curr, f) && Encodable(GroupOf(f, Logical) + GroupOf(f, Physical))
    ensures repo.contents == Stored(old(repo.contents), GroupOf(f, Logical) + GroupOf(f, Physical), isRemote)
  {
    hide PdrRepo.Valid, Stored;
    ghost var before := repo.contents;
    var logical := GetNumChildren(curr, Logical, f.child);
    var physical := GetNumChildren(curr, Physical, f.child);
    StoredNothing(before, isRemote);
    if logical > 0 {
      AddPdrEntry(curr, repo, CHILDREN_AT + 6 * logical as int, logical, Logical, isRemote, f, nodes);
    }
    StoredConcat(before, GroupOf(f, Logical), GroupOf(f, Physical), isRemote);
    StoredNothing(repo.contents, isRemote);
    if physical > 0 {
      AddPdrEntry(curr, repo, CHILDREN_AT + 6 * physical as int, physical, Physical, isRemote, f, nodes);
    }
  }

  method AddPdrs(curr: EntityNode?, repo: PdrRepo, isRemote: bool, ghost f: Forest<EntityNode>,
                 ghost nodes: set<EntityNode>)
    requires Matches(curr, f) && Ids(f) <= nodes && Countable(f)
    requires repo.Valid() && LastHandle(repo.contents) + |Groups(f)| <= U32_MAX
    modifies repo, repo.repr
    ensures repo.Valid() && fresh(repo.repr - old(repo.repr))
    ensures Matches(curr, f) && Encodable(Groups(f)) && repo.contents == Stored(old(repo.contents), Groups(f), isRemote)
    decreases f
  {
    hide PdrRepo.Valid, Stored, GroupOf, OfAssociation, Encodable;
    GroupsEncodable(f);
    StoredNothing(repo.contents, isRemote);
    if curr == null {
      return;
    }
    ghost var before := repo.contents;
    ghost var own := GroupOf(f, Logical) + GroupOf(f, Physical);
    GroupsEncodable(f.sib);
    GroupsEncodable(f.child);
    AddPdrEntries(curr, repo, isRemote, f, nodes);
    StoredConcat(before, own, Groups(f.sib), isRemote);
    AddPdrs(curr.nextSibling, repo, isRemote, f.sib, nodes);
    StoredConcat(before, own + Groups(f.sib), Groups(f.child), isRemote);
    AddPdrs(curr.firstChild, repo, isRemote, f.child, nodes);
  }

  /** The PDRs of a whole tree. */
  method EntityAssociationPdrAdd(tree: AssociationTree, repo: PdrRepo, isRemote: bool)
    requires tree.Valid() && Countable(tree.model.root)
    requires repo.Valid() && LastHandle(repo.contents) + |Groups(tree.model.root)| <= U32_MAX
    modifies repo, repo.repr
    ensures repo.Valid() && fresh(repo.repr - old(repo.repr))
    ensures Encodable(Groups(tree.model.root))
    ensures repo.contents == Stored(old(repo.contents), Groups(tree.model.root), isRemote)
  {
    AddPdrs(tree.root, repo, isRemote, tree.model.root, tree.repr);
  }

  /** Reads the container and the contained entities of one PDR. A read past the end of the input, which the assertions
      do not exclude and after which nothing is promised, gives no array. */
  method EntityAssociationPdrExtract(pdr: seq<byte>) returns (result: array?<Entity>)
    requires Asserted(pdr)
    ensures result == null <==> !ExtractOk(pdr)
    ensures result != null ==> fresh(result) && result[..] == Extracted(pdr)
  {
    hide EntityAt;
    var numEntities := pdr[COUNT_AT] as int + 1;
    var entities := new Entity[numEntities];
    entities[0] := EntityAt(pdr, CONTAINER_AT);
    var current := CHILDREN_AT;
    var i := 1;
    while i < numEntities
      invariant 1 <= i <= numEntities && current == CHILDREN_AT + 6 * (i - 1) <= |pdr|
      invariant ExtractOk(pdr) ==> entities[..i] == Extracted(pdr)[..i]
    {
      if current + ENTITY_SIZE > |pdr| {
        return null;
      }
      entities[i] := EntityAt(pdr, current);
      assert ExtractOk(pdr) ==> entities[i] == Extracted(pdr)[i];
      current := current + ENTITY_SIZE;
      i := i + 1;
    }
    result := entities;
  }
}
