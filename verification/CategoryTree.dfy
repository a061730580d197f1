/**
 The category forest of the admin client: flattening for a parent selector, the ids of a subtree
 (apps/admin/src/lib/category-tree.ts) and the parents that the category form offers
 (apps/admin/src/pages/categories/CategoryFormModal.tsx).
 */
module CategoryTree {
  import opened Options

  type Id = string

  datatype Node = Node(id: Id, name: string, children: seq<Node>)

  datatype FlatOption = FlatOption(id: Id, name: string, depth: nat)

  function FlattenTree(nodes: seq<Node>, depth: nat): seq<FlatOption> {
    if nodes == [] then []
    else
      [FlatOption(nodes[0].id, nodes[0].name, depth)]
      + FlattenTree(nodes[0].children, depth + 1)
      + FlattenTree(nodes[1..], depth)
  }

  // ---------------------------------------------------------------- flattening loses no structure

  /** How many entries at the front are deeper than `depth`. */
  function BlockLength(flat: seq<FlatOption>, depth: nat): (n: nat)
    ensures n <= |flat|
  {
    if flat != [] && flat[0].depth > depth then 1 + BlockLength(flat[1..], depth) else 0
  }

  /** Reads a forest from the depths alone: an entry owns the deeper entries right after it. */
  function Rebuild(flat: seq<FlatOption>): seq<Node>
    decreases |flat|
  {
    if flat == [] then []
    else
      var n := BlockLength(flat[1..], flat[0].depth);
      [Node(flat[0].id, flat[0].name, Rebuild(flat[1..][..n]))] + Rebuild(flat[1..][n..])
  }

  lemma {:induction false} FlatDepths(nodes: seq<Node>, depth: nat)
    ensures forall i :: 0 <= i < |FlattenTree(nodes, depth)| ==> FlattenTree(nodes, depth)[i].depth >= depth
    ensures nodes != [] ==> FlattenTree(nodes, depth) != [] && FlattenTree(nodes, depth)[0].depth == depth
  {
    if nodes != [] {
      FlatDepths(nodes[0].children, depth + 1);
      FlatDepths(nodes[1..], depth);
    }
  }

  lemma {:induction false} BlockLengthOf(block: seq<FlatOption>, rest: seq<FlatOption>, depth: nat)
    requires forall i :: 0 <= i < |block| ==> block[i].depth > depth
    requires rest == [] || rest[0].depth <= depth
    ensures BlockLength(block + rest, depth) == |block|
  {
    if block == [] {
      assert block + rest == rest;
    } else {
      BlockLengthOf(block[1..], rest, depth);
      assert (block + rest)[1..] == block[1..] + rest;
    }
  }

  /** The block after the first entry is the flattened list of its children. */
  lemma FirstBlock(nodes: seq<Node>, depth: nat)
    requires nodes != []
    ensures var flat := FlattenTree(nodes, depth); var block := FlattenTree(nodes[0].children, depth + 1);
      && BlockLength(flat[1..], depth) == |block|
      && flat[1..][..|block|] == block
      && flat[1..][|block|..] == FlattenTree(nodes[1..], depth)
  {
    var block, rest := FlattenTree(nodes[0].children, depth + 1), FlattenTree(nodes[1..], depth);
    FlatDepths(nodes[0].children, depth + 1);
    FlatDepths(nodes[1..], depth);
    BlockLengthOf(block, rest, depth);
    assert FlattenTree(nodes, depth)[1..] == block + rest;
  }

  /** Ids, names and the whole shape can be read back from the flattened list. */
  lemma {:induction false} RebuildOfFlatten(nodes: seq<Node>, depth: nat)
    ensures Rebuild(FlattenTree(nodes, depth)) == nodes
  {
    if nodes != [] {
      FirstBlock(nodes, depth);
      RebuildOfFlatten(nodes[0].children, depth + 1);
      RebuildOfFlatten(nodes[1..], depth);
      assert nodes == [nodes[0]] + nodes[1..];
    }
  }

  function Size(nodes: seq<Node>): nat {
    if nodes == [] then 0 else 1 + Size(nodes[0].children) + Size(nodes[1..])
  }

  lemma {:induction false} FlatLength(nodes: seq<Node>, depth: nat)
    ensures |FlattenTree(nodes, depth)| == Size(nodes)
  {
    if nodes != [] {
      FlatLength(nodes[0].children, depth + 1);
      FlatLength(nodes[1..], depth);
    }
  }

  /** The node whose entry has index `i`. */
  function NodeAt(nodes: seq<Node>, i: nat): Node
    requires i < Size(nodes)
  {
    var n := Size(nodes[0].children);
    if i == 0 then nodes[0]
    else if i <= n then NodeAt(nodes[0].children, i - 1)
    else NodeAt(nodes[1..], i - 1 - n)
  }

  /** An entry with the deeper entries right after it. */
  function BlockAt(flat: seq<FlatOption>, i: nat): seq<FlatOption>
    requires i < |flat|
  {
    [flat[i]] + flat[i + 1..][..BlockLength(flat[i + 1..], flat[i].depth)]
  }

  lemma BlockInside(first: FlatOption, block: seq<FlatOption>, rest: seq<FlatOption>, i: nat)
    requires i < |block|
    requires rest == [] || rest[0].depth <= block[i].depth
    ensures BlockAt([first] + block + rest, i + 1) == BlockAt(block, i)
  {
    var flat := [first] + block + rest;
    assert flat[i + 1] == block[i];
    assert flat[i + 2..] == block[i + 1..] + rest;
    BlockLengthPrefix(block[i + 1..], rest, block[i].depth);
  }

  lemma BlockAfter(first: FlatOption, block: seq<FlatOption>, rest: seq<FlatOption>, i: nat)
    requires i < |rest|
    ensures BlockAt([first] + block + rest, 1 + |block| + i) == BlockAt(rest, i)
  {
    var flat := [first] + block + rest;
    assert flat[2 + |block| + i..] == rest[i + 1..];
  }

  function SubtreeOptions(node: Node, depth: nat): seq<FlatOption> {
    [FlatOption(node.id, node.name, depth)] + FlattenTree(node.children, depth + 1)
  }

  lemma HeadBlock(nodes: seq<Node>, depth: nat)
    requires nodes != []
    ensures BlockAt(FlattenTree(nodes, depth), 0) == SubtreeOptions(nodes[0], depth)
  {
    FirstBlock(nodes, depth);
  }

  lemma ChildBlock(nodes: seq<Node>, depth: nat, i: nat)
    requires nodes != [] && i < Size(nodes[0].children)
    ensures i + 1 < |FlattenTree(nodes, depth)| && i < |FlattenTree(nodes[0].children, depth + 1)|
    ensures BlockAt(FlattenTree(nodes, depth), i + 1) == BlockAt(FlattenTree(nodes[0].children, depth + 1), i)
  {
    FlatLength(nodes[0].children, depth + 1);
    FlatDepths(nodes[1..], depth);
    FlatDepths(nodes[0].children, depth + 1);
    BlockInside(FlatOption(nodes[0].id, nodes[0].name, depth),
                FlattenTree(nodes[0].children, depth + 1), FlattenTree(nodes[1..], depth), i);
  }

  lemma SiblingBlock(nodes: seq<Node>, depth: nat, i: nat)
    requires nodes != [] && i < Size(nodes[1..])
    ensures var k := 1 + Size(nodes[0].children) + i;
      && k < |FlattenTree(nodes, depth)| && i < |FlattenTree(nodes[1..], depth)|
      && BlockAt(FlattenTree(nodes, depth), k) == BlockAt(FlattenTree(nodes[1..], depth), i)
  {
    FlatLength(nodes[0].children, depth + 1);
    FlatLength(nodes[1..], depth);
    BlockAfter(FlatOption(nodes[0].id, nodes[0].name, depth),
               FlattenTree(nodes[0].children, depth + 1), FlattenTree(nodes[1..], depth), i);
  }

  /** Each entry with the deeper entries right after it is exactly the flattened subtree of its node. */
  lemma {:induction false} BlockIsSubtree(nodes: seq<Node>, depth: nat, i: nat)
    requires i < Size(nodes)
    ensures |FlattenTree(nodes, depth)| == Size(nodes)
    ensures BlockAt(FlattenTree(nodes, depth), i) ==
      SubtreeOptions(NodeAt(nodes, i), FlattenTree(nodes, depth)[i].depth)
    decreases nodes
  {
    FlatLength(nodes, depth);
    BlockStartsWithItself(FlattenTree(nodes, depth), i);
    var n := Size(nodes[0].children);
    if i == 0 {
      HeadBlock(nodes, depth);
    } else if i <= n {
      BlockIsSubtree(nodes[0].children, depth + 1, i - 1);
      BlockStartsWithItself(FlattenTree(nodes[0].children, depth + 1), i - 1);
      ChildBlock(nodes, depth, i - 1);
    } else {
      BlockIsSubtree(nodes[1..], depth, i - 1 - n);
      BlockStartsWithItself(FlattenTree(nodes[1..], depth), i - 1 - n);
      SiblingBlock(nodes, depth, i - 1 - n);
    }
  }

  lemma BlockStartsWithItself(flat: seq<FlatOption>, i: nat)
    requires i < |flat|
    ensures BlockAt(flat, i) != [] && BlockAt(flat, i)[0] == flat[i]
  {
  }

  lemma {:induction false} BlockLengthPrefix(block: seq<FlatOption>, rest: seq<FlatOption>, depth: nat)
    requires rest == [] || rest[0].depth <= depth
    ensures BlockLength(block + rest, depth) == BlockLength(block, depth)
  {
    if block == [] {
      assert block + rest == rest;
    } else {
      BlockLengthPrefix(block[1..], rest, depth);
      assert (block + rest)[1..] == block[1..] + rest;
    }
  }

  // ---------------------------------------------------------------- ids of a subtree

  function Ids(nodes: seq<Node>): set<Id> {
    if nodes == [] then {} else {nodes[0].id} + Ids(nodes[0].children) + Ids(nodes[1..])
  }

  ghost predicate Occurs(node: Node, nodes: seq<Node>) {
    nodes != [] && (node == nodes[0] || Occurs(node, nodes[0].children) || Occurs(node, nodes[1..]))
  }

  /** The ids of every node called `rootId` and of its descendants. */
  function SubtreeIds(nodes: seq<Node>, rootId: Id): set<Id> {
    if nodes == [] then {}
    else
      (if nodes[0].id == rootId then Ids([nodes[0]]) else SubtreeIds(nodes[0].children, rootId))
      + SubtreeIds(nodes[1..], rootId)
  }

  lemma {:induction false} IdsOfOccurrence(node: Node, nodes: seq<Node>)
    requires Occurs(node, nodes)
    ensures Ids([node]) <= Ids(nodes)
  {
    if node == nodes[0] {
      assert [node][1..] == [];
    } else if Occurs(node, nodes[0].children) {
      IdsOfOccurrence(node, nodes[0].children);
    } else {
      IdsOfOccurrence(node, nodes[1..]);
    }
  }

  /** An id is collected exactly when it lies in the subtree of a node called `rootId`. */
  lemma {:induction false} SubtreeIdsMeaning(nodes: seq<Node>, rootId: Id, x: Id)
    ensures x in SubtreeIds(nodes, rootId) <==> exists n :: Occurs(n, nodes) && n.id == rootId && x in Ids([n])
  {
    if nodes != [] {
      SubtreeIdsMeaning(nodes[0].children, rootId, x);
      SubtreeIdsMeaning(nodes[1..], rootId, x);
      if n :| Occurs(n, nodes) && n.id == rootId && x in Ids([n]) {
        if nodes[0].id == rootId && n != nodes[0] && Occurs(n, nodes[0].children) {
          IdsOfOccurrence(n, nodes[0].children);
          assert [nodes[0]][1..] == [];
        }
      }
      if x in SubtreeIds(nodes, rootId) {
        assert Occurs(nodes[0], nodes);
      }
    }
  }

  /** The closure `visit` with the set it adds to. */
  class SubtreeCollector {
    const rootId: Id
    var ids: set<Id>

    constructor (rootId: Id)
      ensures this.rootId == rootId && ids == {}
    {
      this.rootId := rootId;
      ids := {};
    }

    method Visit(node: Node, inSubtree: bool)
      modifies this
      ensures ids == old(ids) + if inSubtree then Ids([node]) else SubtreeIds([node], rootId)
      decreases node
    {
      var included := inSubtree || node.id == rootId;
      if included {
        ids := ids + {node.id};
      }
      ghost var before := ids;
      assert node.children[0..] == node.children;
      for k := 0 to |node.children|
        invariant ids + (if included then Ids(node.children[k..]) else SubtreeIds(node.children[k..], rootId))
               == before + (if included then Ids(node.children) else SubtreeIds(node.children, rootId))
      {
        ghost var rest := node.children[k..];
        assert rest[0] == node.children[k] && rest[1..] == node.children[k + 1..];
        assert [rest[0]][1..] == [];
        Visit(node.children[k], included);
      }
      assert [node][1..] == [];
    }
  }

  method CollectSubtreeIds(nodes: seq<Node>, rootId: Id) returns (ids: set<Id>)
    ensures ids == SubtreeIds(nodes, rootId)
  {
    var collector := new SubtreeCollector(rootId);
    assert nodes[0..] == nodes;
    for k := 0 to |nodes|
      invariant collector.rootId == rootId
      invariant collector.ids + SubtreeIds(nodes[k..], rootId) == SubtreeIds(nodes, rootId)
    {
      ghost var rest := nodes[k..];
      assert rest[0] == nodes[k] && rest[1..] == nodes[k + 1..];
      assert [rest[0]][1..] == [];
      collector.Visit(nodes[k], false);
    }
    ids := collector.ids;
  }

  // ---------------------------------------------------------------- the parents offered

  function Keep(flat: seq<FlatOption>, excluded: set<Id>): seq<FlatOption> {
    if flat == [] then []
    else (if flat[0].id in excluded then [] else [flat[0]]) + Keep(flat[1..], excluded)
  }

  /** `initial` is the category being edited, absent when one is created. */
  function CategoryOptions(tree: seq<Node>, initial: Option<Id>): seq<FlatOption> {
    Keep(FlattenTree(tree, 0), if initial.Some? then SubtreeIds(tree, initial.value) else {})
  }

  method OfferParents(tree: seq<Node>, initial: Option<Id>) returns (options: seq<FlatOption>)
    ensures options == CategoryOptions(tree, initial)
  {
    var excludedIds := {};
    if initial.Some? {
      excludedIds := CollectSubtreeIds(tree, initial.value);
    }
    options := Keep(FlattenTree(tree, 0), excludedIds);
  }

  ghost predicate Offered(tree: seq<Node>, initial: Option<Id>, p: Id) {
    exists i :: 0 <= i < |CategoryOptions(tree, initial)| && CategoryOptions(tree, initial)[i].id == p
  }

  ghost predicate HasId(flat: seq<FlatOption>, p: Id) {
    exists i :: 0 <= i < |flat| && flat[i].id == p
  }

  lemma HasIdConcat(a: seq<FlatOption>, b: seq<FlatOption>, p: Id)
    ensures HasId(a + b, p) <==> HasId(a, p) || HasId(b, p)
  {
    if i :| 0 <= i < |a| && a[i].id == p {
      assert (a + b)[i].id == p;
    }
    if i :| 0 <= i < |b| && b[i].id == p {
      assert (a + b)[|a| + i].id == p;
    }
  }

  lemma {:induction false} FlatIds(nodes: seq<Node>, depth: nat, p: Id)
    ensures HasId(FlattenTree(nodes, depth), p) <==> p in Ids(nodes)
  {
    if nodes != [] {
      var first := [FlatOption(nodes[0].id, nodes[0].name, depth)];
      var block, rest := FlattenTree(nodes[0].children, depth + 1), FlattenTree(nodes[1..], depth);
      FlatIds(nodes[0].children, depth + 1, p);
      FlatIds(nodes[1..], depth, p);
      HasIdConcat(first, block, p);
      HasIdConcat(first + block, rest, p);
      assert HasId(first, p) <==> first[0].id == p;
    }
  }

  lemma {:induction false} KeptIds(flat: seq<FlatOption>, excluded: set<Id>, p: Id)
    ensures HasId(Keep(flat, excluded), p) <==> HasId(flat, p) && p !in excluded
  {
    if flat != [] {
      KeptIds(flat[1..], excluded, p);
      HasIdConcat([flat[0]], flat[1..], p);
      assert flat == [flat[0]] + flat[1..];
      var first := if flat[0].id in excluded then [] else [flat[0]];
      HasIdConcat(first, Keep(flat[1..], excluded), p);
      assert HasId([flat[0]], p) <==> [flat[0]][0].id == p;
    }
  }

  /** Of the existing ids the form withholds exactly those of the edited category's subtree. */
  lemma OfferedIffOutsideSubtree(tree: seq<Node>, c: Id, p: Id)
    ensures Offered(tree, Some(c), p) <==> p in Ids(tree) && p !in SubtreeIds(tree, c)
    ensures Offered(tree, None, p) <==> p in Ids(tree)
  {
    FlatIds(tree, 0, p);
    KeptIds(FlattenTree(tree, 0), SubtreeIds(tree, c), p);
    KeptIds(FlattenTree(tree, 0), {}, p);
    assert Offered(tree, Some(c), p) <==> HasId(CategoryOptions(tree, Some(c)), p);
    assert Offered(tree, None, p) <==> HasId(CategoryOptions(tree, None), p);
  }

  /** How deep in the forest the node at preorder place `i` lies. */
  function DepthOf(nodes: seq<Node>, i: nat): nat
    requires i < Size(nodes)
  {
    var n := Size(nodes[0].children);
    if i == 0 then 0
    else if i <= n then 1 + DepthOf(nodes[0].children, i - 1)
    else DepthOf(nodes[1..], i - 1 - n)
  }

  lemma {:induction false} EntryAt(nodes: seq<Node>, depth: nat, i: nat)
    requires i < Size(nodes)
    ensures |FlattenTree(nodes, depth)| == Size(nodes)
    ensures FlattenTree(nodes, depth)[i] ==
      FlatOption(NodeAt(nodes, i).id, NodeAt(nodes, i).name, depth + DepthOf(nodes, i))
  {
    var n := Size(nodes[0].children);
    FlatLength(nodes, depth);
    FlatLength(nodes[0].children, depth + 1);
    if 0 < i <= n {
      EntryAt(nodes[0].children, depth + 1, i - 1);
    } else if i > n {
      EntryAt(nodes[1..], depth, i - 1 - n);
    }
  }

  ghost predicate Increasing(at: seq<nat>) {
    forall k, l :: 0 <= k < l < |at| ==> at[k] < at[l]
  }

  /** The entries at the places `at`, which are those with an id outside `excluded`. */
  ghost predicate Picks(flat: seq<FlatOption>, excluded: set<Id>, at: seq<nat>, kept: seq<FlatOption>) {
    && |at| == |kept| && Increasing(at)
    && (forall k :: 0 <= k < |at| ==> at[k] < |flat| && kept[k] == flat[at[k]])
    && (forall i :: 0 <= i < |flat| ==> (i in at <==> flat[i].id !in excluded))
  }

  lemma {:induction false} KeepAppend(flat: seq<FlatOption>, last: FlatOption, excluded: set<Id>)
    ensures Keep(flat + [last], excluded) == Keep(flat, excluded) + if last.id in excluded then [] else [last]
  {
    if flat == [] {
      assert flat + [last] == [last] && [last][1..] == [];
    } else {
      KeepAppend(flat[1..], last, excluded);
      assert (flat + [last])[1..] == flat[1..] + [last];
    }
  }

  lemma {:induction false} KeepPicks(flat: seq<FlatOption>, excluded: set<Id>) returns (at: seq<nat>)
    ensures Picks(flat, excluded, at, Keep(flat, excluded))
    decreases |flat|
  {
    at := [];
    if flat != [] {
      var n := |flat| - 1;
      at := KeepPicks(flat[..n], excluded);
      KeepAppend(flat[..n], flat[n], excluded);
      assert flat == flat[..n] + [flat[n]];
      if flat[n].id !in excluded {
        at := at + [n];
      }
    }
  }

  /** What the selector shows of the node at preorder place `i`. */
  function OptionOf(tree: seq<Node>, i: nat): FlatOption
    requires i < Size(tree)
  {
    FlatOption(NodeAt(tree, i).id, NodeAt(tree, i).name, DepthOf(tree, i))
  }

  /** The options list, in preorder, id, name and depth of exactly the nodes with an id outside `excluded`. */
  ghost predicate ListsNodes(tree: seq<Node>, excluded: set<Id>, options: seq<FlatOption>, at: seq<nat>) {
    && |at| == |options| && Increasing(at)
    && (forall k :: 0 <= k < |at| ==> at[k] < Size(tree))
    && (forall k :: 0 <= k < |at| ==> options[k] == OptionOf(tree, at[k]))
    && (forall i :: 0 <= i < Size(tree) ==> (i in at <==> NodeAt(tree, i).id !in excluded))
  }

  lemma PickedAreNodes(tree: seq<Node>, excluded: set<Id>) returns (at: seq<nat>)
    ensures ListsNodes(tree, excluded, Keep(FlattenTree(tree, 0), excluded), at)
  {
    var flat := FlattenTree(tree, 0);
    at := KeepPicks(flat, excluded);
    FlatLength(tree, 0);
    forall i | 0 <= i < Size(tree) ensures flat[i] == OptionOf(tree, i) {
      EntryAt(tree, 0, i);
    }
  }

  /** The form offers exactly the nodes outside the edited category's subtree, each with its name and depth. */
  lemma OptionsAreNodes(tree: seq<Node>, c: Id)
    ensures exists at :: ListsNodes(tree, SubtreeIds(tree, c), CategoryOptions(tree, Some(c)), at)
    ensures exists at :: ListsNodes(tree, {}, CategoryOptions(tree, None), at)
  {
    var at := PickedAreNodes(tree, SubtreeIds(tree, c));
    assert ListsNodes(tree, SubtreeIds(tree, c), CategoryOptions(tree, Some(c)), at);
    var all := PickedAreNodes(tree, {});
    assert ListsNodes(tree, {}, CategoryOptions(tree, None), all);
  }

  // ---------------------------------------------------------------- re-parenting

  /** A stored category: what the tree says of it besides the order among siblings. */
  datatype Row = Row(name: string, parent: Option<Id>)

  ghost predicate DistinctIds(nodes: seq<Node>) {
    nodes != [] ==>
      && nodes[0].id !in Ids(nodes[0].children)
      && Ids([nodes[0]]) !! Ids(nodes[1..])
      && DistinctIds(nodes[0].children)
      && DistinctIds(nodes[1..])
  }

  /** The table of stored rows that a forest stands for. */
  ghost function Rows(nodes: seq<Node>, parent: Option<Id>): (rows: map<Id, Row>)
    ensures rows.Keys == Ids(nodes)
  {
    if nodes == [] then map[]
    else
      Rows(nodes[1..], parent)
      + Rows(nodes[0].children, Some(nodes[0].id))
      + map[nodes[0].id := Row(nodes[0].name, parent)]
  }

  ghost function Find(nodes: seq<Node>, c: Id): Node
    requires c in Ids(nodes)
  {
    if nodes[0].id == c then nodes[0]
    else if c in Ids(nodes[0].children) then Find(nodes[0].children, c)
    else Find(nodes[1..], c)
  }

  ghost function Detach(nodes: seq<Node>, c: Id): seq<Node> {
    if nodes == [] then []
    else if nodes[0].id == c then Detach(nodes[1..], c)
    else [nodes[0].(children := Detach(nodes[0].children, c))] + Detach(nodes[1..], c)
  }

  /** `moved` becomes the last child of the category `p`. */
  ghost function Attach(nodes: seq<Node>, p: Id, moved: Node): seq<Node> {
    if nodes == [] then []
    else
      var children := Attach(nodes[0].children, p, moved);
      [nodes[0].(children := if nodes[0].id == p then children + [moved] else children)] + Attach(nodes[1..], p, moved)
  }

  ghost function Move(tree: seq<Node>, c: Id, p: Id): seq<Node>
    requires c in Ids(tree)
  {
    Attach(Detach(tree, c), p, Find(tree, c))
  }

  lemma IdsOfOne(node: Node)
    ensures Ids([node]) == {node.id} + Ids(node.children)
  {
    assert [node][1..] == [];
  }

  lemma {:induction false} SubtreeIdsAreIds(nodes: seq<Node>, c: Id)
    ensures SubtreeIds(nodes, c) <= Ids(nodes)
    ensures c in SubtreeIds(nodes, c) <==> c in Ids(nodes)
    ensures c !in Ids(nodes) ==> SubtreeIds(nodes, c) == {}
  {
    if nodes != [] {
      IdsOfOne(nodes[0]);
      SubtreeIdsAreIds(nodes[0].children, c);
      SubtreeIdsAreIds(nodes[1..], c);
    }
  }

  lemma RowAt(nodes: seq<Node>, parent: Option<Id>, x: Id)
    requires x in Ids(nodes)
    ensures Rows(nodes, parent)[x] ==
      if x == nodes[0].id then Row(nodes[0].name, parent)
      else if x in Ids(nodes[0].children) then Rows(nodes[0].children, Some(nodes[0].id))[x]
      else Rows(nodes[1..], parent)[x]
  {
  }

  lemma {:induction false} FindSubtree(nodes: seq<Node>, c: Id)
    requires DistinctIds(nodes) && c in Ids(nodes)
    ensures var n := Find(nodes, c); n.id == c && DistinctIds([n]) && Ids([n]) == SubtreeIds(nodes, c)
  {
    IdsOfOne(nodes[0]);
    SubtreeIdsAreIds(nodes[0].children, c);
    SubtreeIdsAreIds(nodes[1..], c);
    if nodes[0].id == c {
      assert [nodes[0]][1..] == [];
    } else if c in Ids(nodes[0].children) {
      FindSubtree(nodes[0].children, c);
    } else {
      FindSubtree(nodes[1..], c);
    }
  }

  /** The node found carries the stored name of `c`, and its subtree the stored rows. */
  lemma {:induction false} FindRow(nodes: seq<Node>, parent: Option<Id>, c: Id, x: Id)
    requires DistinctIds(nodes) && c in Ids(nodes) && x in Ids(Find(nodes, c).children)
    ensures x in Ids(nodes) && Rows(nodes, parent)[x] == Rows(Find(nodes, c).children, Some(c))[x]
  {
    IdsOfOne(nodes[0]);
    if nodes[0].id != c {
      if c in Ids(nodes[0].children) {
        FindRow(nodes[0].children, Some(nodes[0].id), c, x);
      } else {
        FindRow(nodes[1..], parent, c, x);
      }
    }
    RowAt(nodes, parent, x);
  }

  lemma {:induction false} FindName(nodes: seq<Node>, parent: Option<Id>, c: Id)
    requires DistinctIds(nodes) && c in Ids(nodes)
    ensures Find(nodes, c).name == Rows(nodes, parent)[c].name
  {
    RowAt(nodes, parent, c);
    IdsOfOne(nodes[0]);
    if nodes[0].id != c {
      if c in Ids(nodes[0].children) {
        FindName(nodes[0].children, Some(nodes[0].id), c);
      } else {
        FindName(nodes[1..], parent, c);
      }
    }
  }

  lemma {:induction false} DetachHas(nodes: seq<Node>, c: Id, x: Id)
    requires DistinctIds(nodes)
    ensures x in Ids(Detach(nodes, c)) <==> x in Ids(nodes) && x !in SubtreeIds(nodes, c)
  {
    if nodes != [] {
      IdsOfOne(nodes[0]);
      DetachHas(nodes[0].children, c, x);
      DetachHas(nodes[1..], c, x);
      SubtreeIdsAreIds(nodes[0].children, c);
      SubtreeIdsAreIds(nodes[1..], c);
      if nodes[0].id != c {
        assert Detach(nodes, c)[1..] == Detach(nodes[1..], c);
      }
    }
  }

  lemma {:induction false} DetachIds(nodes: seq<Node>, c: Id)
    requires DistinctIds(nodes)
    ensures DistinctIds(Detach(nodes, c)) && Ids(Detach(nodes, c)) == Ids(nodes) - SubtreeIds(nodes, c)
  {
    forall x ensures x in Ids(Detach(nodes, c)) <==> x in Ids(nodes) && x !in SubtreeIds(nodes, c) {
      DetachHas(nodes, c, x);
    }
    if nodes != [] {
      IdsOfOne(nodes[0]);
      DetachIds(nodes[0].children, c);
      DetachIds(nodes[1..], c);
      if nodes[0].id != c {
        IdsOfOne(nodes[0].(children := Detach(nodes[0].children, c)));
        assert Detach(nodes, c)[1..] == Detach(nodes[1..], c);
      }
    }
  }

  lemma {:induction false} DetachRow(nodes: seq<Node>, parent: Option<Id>, c: Id, x: Id)
    requires DistinctIds(nodes) && x in Ids(Detach(nodes, c))
    ensures x in Ids(nodes) && Rows(Detach(nodes, c), parent)[x] == Rows(nodes, parent)[x]
  {
    DetachIds(nodes, c);
    RowAt(nodes, parent, x);
    RowAt(Detach(nodes, c), parent, x);
    IdsOfOne(nodes[0]);
    if nodes[0].id == c {
      DetachRow(nodes[1..], parent, c, x);
    } else {
      assert Detach(nodes, c)[1..] == Detach(nodes[1..], c);
      if x in Ids(Detach(nodes[0].children, c)) {
        DetachRow(nodes[0].children, Some(nodes[0].id), c, x);
      } else if x != nodes[0].id {
        DetachRow(nodes[1..], parent, c, x);
      }
    }
  }

  lemma {:induction false} AttachNowhere(nodes: seq<Node>, p: Id, moved: Node)
    requires p !in Ids(nodes)
    ensures Attach(nodes, p, moved) == nodes
  {
    if nodes != [] {
      AttachNowhere(nodes[0].children, p, moved);
      AttachNowhere(nodes[1..], p, moved);
    }
  }

  lemma {:induction false} ConcatHas(a: seq<Node>, b: seq<Node>, x: Id)
    ensures x in Ids(a + b) <==> x in Ids(a) || x in Ids(b)
  {
    if a == [] {
      assert a + b == b;
    } else {
      ConcatHas(a[1..], b, x);
      assert (a + b)[1..] == a[1..] + b;
    }
  }

  lemma ConcatIds(a: seq<Node>, b: seq<Node>)
    ensures Ids(a + b) == Ids(a) + Ids(b)
  {
    forall x ensures x in Ids(a + b) <==> x in Ids(a) || x in Ids(b) {
      ConcatHas(a, b, x);
    }
  }

  lemma {:induction false} ConcatDistinct(a: seq<Node>, b: seq<Node>)
    requires DistinctIds(a) && DistinctIds(b) && Ids(a) !! Ids(b)
    ensures DistinctIds(a + b)
  {
    if a == [] {
      assert a + b == b;
    } else {
      ConcatDistinct(a[1..], b);
      IdsOfOne(a[0]);
      assert (a + b)[1..] == a[1..] + b;
      ConcatIds(a[1..], b);
    }
  }

  lemma {:induction false} ConcatRow(a: seq<Node>, b: seq<Node>, parent: Option<Id>, x: Id)
    requires x in Ids(a) || x in Ids(b)
    ensures x in Ids(a + b)
    ensures Rows(a + b, parent)[x] == if x in Ids(a) then Rows(a, parent)[x] else Rows(b, parent)[x]
  {
    ConcatHas(a, b, x);
    if a == [] {
      assert a + b == b;
    } else {
      assert (a + b)[1..] == a[1..] + b;
      RowAt(a + b, parent, x);
      if x in Ids(a) {
        RowAt(a, parent, x);
      }
      if x in Ids(a[1..]) || x in Ids(b) {
        ConcatRow(a[1..], b, parent, x);
      }
    }
  }

  /** Where the moved subtree can hang without an id occurring twice. */
  ghost predicate CanHang(nodes: seq<Node>, moved: Node) {
    DistinctIds(nodes) && DistinctIds([moved]) && Ids([moved]) !! Ids(nodes)
  }

  lemma {:induction false} AttachHas(nodes: seq<Node>, p: Id, moved: Node, x: Id)
    ensures x in Ids(Attach(nodes, p, moved)) <==> x in Ids(nodes) || (p in Ids(nodes) && x in Ids([moved]))
  {
    if nodes != [] {
      assert Attach(nodes, p, moved)[1..] == Attach(nodes[1..], p, moved);
      AttachHas(nodes[0].children, p, moved, x);
      AttachHas(nodes[1..], p, moved, x);
      ConcatHas(Attach(nodes[0].children, p, moved), [moved], x);
    }
  }

  lemma AttachIds(nodes: seq<Node>, p: Id, moved: Node)
    ensures Ids(Attach(nodes, p, moved)) == Ids(nodes) + if p in Ids(nodes) then Ids([moved]) else {}
  {
    forall x ensures x in Ids(Attach(nodes, p, moved)) <==> x in Ids(nodes) || (p in Ids(nodes) && x in Ids([moved])) {
      AttachHas(nodes, p, moved, x);
    }
  }

  lemma {:induction false} AttachDistinct(nodes: seq<Node>, p: Id, moved: Node)
    requires CanHang(nodes, moved)
    ensures DistinctIds(Attach(nodes, p, moved))
  {
    if nodes != [] {
      var all := Attach(nodes, p, moved);
      assert all[1..] == Attach(nodes[1..], p, moved);
      IdsOfOne(nodes[0]);
      IdsOfOne(all[0]);
      AttachDistinct(nodes[1..], p, moved);
      AttachIds(nodes[1..], p, moved);
      AttachIds(nodes[0].children, p, moved);
      if nodes[0].id == p {
        AttachNowhere(nodes[0].children, p, moved);
        ConcatDistinct(nodes[0].children, [moved]);
        ConcatIds(nodes[0].children, [moved]);
      } else {
        AttachDistinct(nodes[0].children, p, moved);
      }
    }
  }

  lemma {:induction false} AttachRow(nodes: seq<Node>, parent: Option<Id>, p: Id, moved: Node, x: Id)
    requires CanHang(nodes, moved) && x in Ids(Attach(nodes, p, moved))
    ensures x in Ids(nodes) + Ids([moved])
    ensures Rows(Attach(nodes, p, moved), parent)[x] ==
      if x in Ids(nodes) then Rows(nodes, parent)[x] else Rows([moved], Some(p))[x]
  {
    AttachIds(nodes, p, moved);
    if p !in Ids(nodes) {
      AttachNowhere(nodes, p, moved);
    } else {
      var all := Attach(nodes, p, moved);
      RowAt(all, parent, x);
      assert all[1..] == Attach(nodes[1..], p, moved);
      IdsOfOne(nodes[0]);
      IdsOfOne(all[0]);
      if x in Ids(nodes) {
        RowAt(nodes, parent, x);
      }
      if x in Ids(all[0].children) {
        AttachIds(nodes[0].children, p, moved);
        if nodes[0].id == p {
          AttachNowhere(nodes[0].children, p, moved);
          ConcatHas(nodes[0].children, [moved], x);
          ConcatRow(nodes[0].children, [moved], Some(p), x);
        } else {
          AttachRow(nodes[0].children, Some(nodes[0].id), p, moved, x);
        }
      } else if x != nodes[0].id {
        AttachIds(nodes[1..], p, moved);
        AttachRow(nodes[1..], parent, p, moved, x);
      }
    }
  }

  /** The stored row of `c` names the new parent; every other row stays. */
  ghost function Reparented(tree: seq<Node>, c: Id, p: Id): map<Id, Row>
    requires c in Ids(tree)
  {
    var rows := Rows(tree, None);
    rows[c := Row(rows[c].name, Some(p))]
  }

  lemma MoveRow(tree: seq<Node>, c: Id, p: Id, x: Id)
    requires DistinctIds(tree) && c in Ids(tree) && x in Ids(tree)
    requires CanHang(Detach(tree, c), Find(tree, c)) && x in Ids(Move(tree, c, p))
    ensures Rows(Move(tree, c, p), None)[x] == Reparented(tree, c, p)[x]
  {
    var n := Find(tree, c);
    FindSubtree(tree, c);
    AttachRow(Detach(tree, c), None, p, n, x);
    if x in Ids(Detach(tree, c)) {
      DetachHas(tree, c, x);
      DetachRow(tree, None, c, x);
      SubtreeIdsAreIds(tree, c);
    } else {
      RowAt([n], Some(p), x);
      IdsOfOne(n);
      FindName(tree, None, c);
      if x != c {
        FindRow(tree, None, c, x);
      }
    }
  }

  lemma MoveIds(tree: seq<Node>, c: Id, p: Id)
    requires DistinctIds(tree) && c in Ids(tree) && p in Ids(tree) && p !in SubtreeIds(tree, c)
    ensures CanHang(Detach(tree, c), Find(tree, c)) && Ids(Move(tree, c, p)) == Ids(tree)
  {
    FindSubtree(tree, c);
    DetachIds(tree, c);
    SubtreeIdsAreIds(tree, c);
    AttachIds(Detach(tree, c), p, Find(tree, c));
  }

  /** Moving under a category outside the subtree gives a forest of the same categories. */
  lemma {:induction false} MoveOutside(tree: seq<Node>, c: Id, p: Id)
    requires DistinctIds(tree) && c in Ids(tree) && p in Ids(tree) && p !in SubtreeIds(tree, c)
    ensures DistinctIds(Move(tree, c, p)) && Rows(Move(tree, c, p), None) == Reparented(tree, c, p)
  {
    MoveIds(tree, c, p);
    AttachDistinct(Detach(tree, c), p, Find(tree, c));
    forall x | x in Ids(tree)
      ensures Rows(Move(tree, c, p), None)[x] == Reparented(tree, c, p)[x]
    {
      MoveRow(tree, c, p, x);
    }
  }

  /** The depth at which a category hangs in a forest. */
  ghost function Depths(nodes: seq<Node>, depth: nat): (d: map<Id, nat>)
    ensures d.Keys == Ids(nodes)
  {
    if nodes == [] then map[]
    else Depths(nodes[1..], depth) + Depths(nodes[0].children, depth + 1) + map[nodes[0].id := depth]
  }

  lemma DepthAt(nodes: seq<Node>, depth: nat, x: Id)
    requires x in Ids(nodes)
    ensures Depths(nodes, depth)[x] ==
      if x == nodes[0].id then depth
      else if x in Ids(nodes[0].children) then Depths(nodes[0].children, depth + 1)[x]
      else Depths(nodes[1..], depth)[x]
  {
  }

  /** A category is a root of the forest, or its parent is in the forest one level higher. */
  lemma {:induction false} ParentsAreHigher(nodes: seq<Node>, parent: Option<Id>, depth: nat, x: Id)
    requires DistinctIds(nodes) && x in Ids(nodes)
    ensures var q := Rows(nodes, parent)[x].parent; var d := Depths(nodes, depth);
      (q == parent && d[x] == depth) || (q.Some? && q.value in Ids(nodes) && d[q.value] + 1 == d[x])
  {
    IdsOfOne(nodes[0]);
    RowAt(nodes, parent, x);
    DepthAt(nodes, depth, x);
    DepthAt(nodes, depth, nodes[0].id);
    if x != nodes[0].id {
      if x in Ids(nodes[0].children) {
        ParentsAreHigher(nodes[0].children, Some(nodes[0].id), depth + 1, x);
        var q := Rows(nodes[0].children, Some(nodes[0].id))[x].parent.value;
        DepthAt(nodes, depth, q);
      } else {
        ParentsAreHigher(nodes[1..], parent, depth, x);
        var q := Rows(nodes[1..], parent)[x].parent;
        if q.Some? && q.value in Ids(nodes[1..]) {
          DepthAt(nodes, depth, q.value);
        }
      }
    }
  }

  ghost predicate Climbs(rows: map<Id, Row>, rank: map<Id, nat>) {
    forall x :: x in rows && rows[x].parent.Some? ==>
      x in rank && rows[x].parent.value in rank && rank[rows[x].parent.value] < rank[x]
  }

  /** In a table whose parents rank lower, a subtree ranks above its root. */
  lemma {:induction false} SubtreeRanksAbove(nodes: seq<Node>, q: Id, rows: map<Id, Row>, rank: map<Id, nat>, x: Id)
    requires DistinctIds(nodes) && x in Ids(nodes) && Climbs(rows, rank) && q in rank
    requires forall y :: y in Ids(nodes) ==> y in rows && rows[y] == Rows(nodes, Some(q))[y]
    ensures x in rank && rank[q] < rank[x]
  {
    IdsOfOne(nodes[0]);
    var r := nodes[0].id;
    assert rows[r].parent == Some(q);
    if x in Ids(nodes[0].children) {
      SubtreeRanksAbove(nodes[0].children, r, rows, rank, x);
    } else if x != r {
      SubtreeRanksAbove(nodes[1..], q, rows, rank, x);
    }
  }

  /** Under a category of its own subtree the move closes a cycle: no forest has those rows. */
  lemma {:induction false} MoveInside(tree: seq<Node>, c: Id, p: Id, forest: seq<Node>)
    requires DistinctIds(tree) && c in Ids(tree) && p in SubtreeIds(tree, c) && DistinctIds(forest)
    ensures Rows(forest, None) != Reparented(tree, c, p)
  {
    if Rows(forest, None) == Reparented(tree, c, p) {
      var rows, rank := Rows(forest, None), Depths(forest, 0);
      forall x | x in rows && rows[x].parent.Some?
        ensures rows[x].parent.value in rank && rank[rows[x].parent.value] < rank[x]
      {
        ParentsAreHigher(forest, None, 0, x);
      }
      assert Climbs(rows, rank);
      var n := Find(tree, c);
      FindSubtree(tree, c);
      IdsOfOne(n);
      assert rows[c].parent == Some(p);
      if p != c {
        forall y | y in Ids(n.children)
          ensures y in rows && rows[y] == Rows(n.children, Some(c))[y]
        {
          FindRow(tree, None, c, y);
        }
        SubtreeRanksAbove(n.children, c, rows, rank, p);
      }
    }
  }

  /** The form offers an existing category as parent exactly when the move leaves the categories a forest. */
  lemma {:induction false} OfferedIffForest(tree: seq<Node>, c: Id, p: Id)
    requires DistinctIds(tree) && c in Ids(tree) && p in Ids(tree)
    ensures Offered(tree, Some(c), p) <==>
      exists forest :: DistinctIds(forest) && Rows(forest, None) == Reparented(tree, c, p)
  {
    OfferedIffOutsideSubtree(tree, c, p);
    if p in SubtreeIds(tree, c) {
      forall forest | DistinctIds(forest)
        ensures Rows(forest, None) != Reparented(tree, c, p)
      {
        MoveInside(tree, c, p, forest);
      }
    } else {
      MoveOutside(tree, c, p);
    }
  }
}
