/**
 * The graph of record nodes the viewer walks (app.js:295-324, 419-428,
 * 456-466, 769-780).
 *
 * The JavaScript nodes are heap objects that point to their parent and hold
 * an array of children. Here every node ever built lives in one arena, a
 * sequence owned by the class NodeArena; a node is named by its index in the
 * arena and its parent and children are indices too. The `id` field is the
 * source's numeric node id, handed out by the global counter `nextNodeId`.
 */
module NodeTree {
  import opened Wrappers
  import opened Coords
  import opened Sgf

  datatype Node = Node(id: nat, props: PropertyBag, parent: Option<nat>, children: seq<nat>)

  /** What getNodeMove reports: the colour, the decoded point (none for a pass) and the raw value. */
  datatype Move = Move(color: Color, point: Option<Point>, coord: string)

  // ---------------------------------------------------------------------
  // Shape of the arena
  // ---------------------------------------------------------------------

  /** Every child index in a children list names a later node whose parent is the list's owner. */
  ghost predicate ChildrenLinked(nodes: seq<Node>) {
    forall p, j :: 0 <= p < |nodes| && 0 <= j < |nodes[p].children| ==>
      p < nodes[p].children[j] < |nodes| && nodes[nodes[p].children[j]].parent == Some(p)
  }

  /** Every node with a parent comes after it and is listed among its children. */
  ghost predicate ParentsLinked(nodes: seq<Node>) {
    forall c :: 0 <= c < |nodes| && nodes[c].parent.Some? ==>
      nodes[c].parent.value < c && c in nodes[nodes[c].parent.value].children
  }

  /**
   * Every children list is in creation order: nodes are only ever pushed
   * onto a children list as they are made, so the list ascends (and so names
   * no node twice).
   */
  ghost predicate ChildrenAscending(nodes: seq<Node>) {
    forall p, j, k :: 0 <= p < |nodes| && 0 <= j < k < |nodes[p].children| ==>
      nodes[p].children[j] < nodes[p].children[k]
  }

  /**
   * The arena is a forest: each node sits in exactly one children list, its
   * parent's, exactly once, and parents precede their children. With the
   * lists ascending, the parent links alone fix every children list.
   */
  ghost predicate Linked(nodes: seq<Node>) {
    ChildrenLinked(nodes) && ParentsLinked(nodes) && ChildrenAscending(nodes)
  }

  /** A node with a parent is listed in no children list but its parent's. */
  lemma OnlyParentListsChild(nodes: seq<Node>, p: nat, c: nat)
    requires Linked(nodes) && p < |nodes| && c in nodes[p].children
    ensures c < |nodes| && nodes[c].parent == Some(p)
  {
    var j :| 0 <= j < |nodes[p].children| && nodes[p].children[j] == c;
  }

  // ---------------------------------------------------------------------
  // buildNodeTree
  // ---------------------------------------------------------------------

  /** The node contents of a parsed tree in pre-order: its sequence, then each child tree in turn. */
  ghost function Preorder(t: GameTree): seq<PropertyBag>
    decreases t, |t.children| + 1
  {
    t.sequence + PreorderBefore(t, |t.children|)
  }

  /** The pre-order contents of the first k child trees of t. */
  ghost function PreorderBefore(t: GameTree, k: nat): seq<PropertyBag>
    requires k <= |t.children|
    decreases t, k
  {
    if k == 0 then [] else PreorderBefore(t, k - 1) + Preorder(t.children[k - 1])
  }

  /** The number of sequence entries in a tree, counted separately from Preorder. */
  ghost function EntryCount(t: GameTree): nat
    decreases t, |t.children| + 1
  {
    |t.sequence| + EntryCountBefore(t, |t.children|)
  }

  ghost function EntryCountBefore(t: GameTree, k: nat): nat
    requires k <= |t.children|
    decreases t, k
  {
    if k == 0 then 0 else EntryCountBefore(t, k - 1) + EntryCount(t.children[k - 1])
  }

  /** Pre-order visits every sequence entry of the tree exactly once. */
  lemma {:induction false} PreorderCountsEntries(t: GameTree)
    ensures |Preorder(t)| == EntryCount(t)
    decreases t, |t.children| + 1
  {
    PreorderBeforeCounts(t, |t.children|);
  }

  lemma {:induction false} PreorderBeforeCounts(t: GameTree, k: nat)
    requires k <= |t.children|
    ensures |PreorderBefore(t, k)| == EntryCountBefore(t, k)
    decreases t, k
  {
    if k > 0 {
      PreorderBeforeCounts(t, k - 1);
      PreorderCountsEntries(t.children[k - 1]);
    }
  }

  /** The new nodes from index base on carry the contents cs and the ids id0, id0 + 1, ... */
  ghost predicate Numbered(nodes: seq<Node>, base: nat, cs: seq<PropertyBag>, id0: nat) {
    base + |cs| <= |nodes| &&
    forall m :: 0 <= m < |cs| ==> nodes[base + m].props == cs[m] && nodes[base + m].id == id0 + m
  }

  /** Where a chain of n nodes from index base ends: its last node, or `from` itself when n is 0. */
  function ChainEnd(from: nat, base: nat, n: nat): nat {
    if n == 0 then from else base + n - 1
  }

  /** The parents of a chain of n new nodes from index base: the first hangs from `from`, each other from the one before. */
  ghost function ChainParents(from: nat, base: nat, n: nat): (ps: seq<nat>)
    ensures |ps| == n
    ensures forall m :: 0 <= m < n ==> ps[m] == ChainEnd(from, base, m)
  {
    seq(n, m requires 0 <= m => ChainEnd(from, base, m))
  }

  /**
   * The parent index of every pre-order entry of t once t is hung from node
   * `from` with its nodes from index base on: the sequence as a chain, then
   * each child tree hung from the chain's end, its nodes following those of
   * the child trees before it.
   */
  ghost function Parents(t: GameTree, from: nat, base: nat): seq<nat>
    decreases t, |t.children| + 1
  {
    var n := |t.sequence|;
    ChainParents(from, base, n) + ParentsBefore(t, ChainEnd(from, base, n), base + n, |t.children|)
  }

  /** The parents of the entries of the first k child trees of t, hung from `last` with nodes from b on. */
  ghost function ParentsBefore(t: GameTree, last: nat, b: nat, k: nat): seq<nat>
    requires k <= |t.children|
    decreases t, k
  {
    if k == 0 then []
    else ParentsBefore(t, last, b, k - 1) + Parents(t.children[k - 1], last, b + |PreorderBefore(t, k - 1)|)
  }

  /** There is a parent for every pre-order entry. */
  lemma {:induction false} ParentsCover(t: GameTree, from: nat, base: nat)
    ensures |Parents(t, from, base)| == |Preorder(t)|
    decreases t, |t.children| + 1
  {
    var n := |t.sequence|;
    ParentsBeforeCover(t, ChainEnd(from, base, n), base + n, |t.children|);
  }

  lemma {:induction false} ParentsBeforeCover(t: GameTree, last: nat, b: nat, k: nat)
    requires k <= |t.children|
    ensures |ParentsBefore(t, last, b, k)| == |PreorderBefore(t, k)|
    decreases t, k
  {
    if k > 0 {
      ParentsBeforeCover(t, last, b, k - 1);
      ParentsCover(t.children[k - 1], last, b + |PreorderBefore(t, k - 1)|);
    }
  }

  /** The nodes from index base on have the parents ps. */
  ghost predicate Hung(nodes: seq<Node>, base: nat, ps: seq<nat>) {
    base + |ps| <= |nodes| &&
    forall m :: 0 <= m < |ps| ==> nodes[base + m].parent == Some(ps[m])
  }

  /** Nodes below `limit` keep their id, contents and parent. */
  ghost predicate Kept(before: seq<Node>, after: seq<Node>, limit: nat) {
    limit <= |before| && limit <= |after| &&
    forall i :: 0 <= i < limit ==>
      after[i].id == before[i].id && after[i].props == before[i].props && after[i].parent == before[i].parent
  }

  /** Children lists below `limit`, other than the one of node `from`, are untouched. */
  ghost predicate OtherChildrenKept(before: seq<Node>, after: seq<Node>, limit: nat, from: nat) {
    limit <= |before| && limit <= |after| &&
    forall i :: 0 <= i < limit && i != from ==> after[i].children == before[i].children
  }

  lemma KeptTrans(a: seq<Node>, b: seq<Node>, c: seq<Node>, limit: nat, limit2: nat)
    requires Kept(a, b, limit) && Kept(b, c, limit2) && limit <= limit2
    ensures Kept(a, c, limit)
  {
  }

  lemma OtherChildrenKeptTrans(a: seq<Node>, b: seq<Node>, c: seq<Node>, limit: nat, limit2: nat, from: nat, from2: nat)
    requires OtherChildrenKept(a, b, limit, from) && OtherChildrenKept(b, c, limit2, from2)
    requires limit <= limit2 && (from2 == from || from2 >= limit)
    ensures OtherChildrenKept(a, c, limit, from)
  {
  }

  /** Adding a node under parent p and listing it last among p's children keeps the forest shape. */
  lemma AddChildKeepsLinked(nodes: seq<Node>, p: nat, node: Node)
    requires Linked(nodes) && p < |nodes|
    requires node.parent == Some(p) && node.children == []
    ensures Linked((nodes + [node])[p := (nodes + [node])[p].(children := nodes[p].children + [|nodes|])])
  {
    var c := |nodes|;
    var grown := nodes + [node];
    var after := grown[p := grown[p].(children := nodes[p].children + [c])];
    assert forall i :: 0 <= i < |nodes| && i != p ==> after[i] == nodes[i];
    assert after[p].children == nodes[p].children + [c];
    forall q, j | 0 <= q < |after| && 0 <= j < |after[q].children|
      ensures q < after[q].children[j] < |after| && after[after[q].children[j]].parent == Some(q)
    {
      if q == p && j == |nodes[p].children| {
        assert after[q].children[j] == c;
      } else {
        assert q < |nodes| && after[q].children[j] == nodes[q].children[j];
      }
    }
    forall x | 0 <= x < |after| && after[x].parent.Some?
      ensures after[x].parent.value < x && x in after[after[x].parent.value].children
    {
      if x < c {
        assert x in nodes[nodes[x].parent.value].children;
      }
    }
    forall q, j, k | 0 <= q < |after| && 0 <= j < k < |after[q].children|
      ensures after[q].children[j] < after[q].children[k]
    {
      if q == p && k == |nodes[p].children| {
        assert after[q].children[j] == nodes[p].children[j] < c;
      } else {
        assert after[q].children[j] == nodes[q].children[j];
      }
    }
  }

  lemma PreorderBeforeStep(t: GameTree, k: nat)
    requires k < |t.children|
    ensures t.sequence + PreorderBefore(t, k + 1) == (t.sequence + PreorderBefore(t, k)) + Preorder(t.children[k])
  {
  }

  /** Adding a child changes nothing below the new node but the parent's children list. */
  lemma AddChildKeepsOthers(nodes: seq<Node>, p: nat, node: Node)
    requires p < |nodes|
    ensures var after := (nodes + [node])[p := (nodes + [node])[p].(children := nodes[p].children + [|nodes|])];
      |after| == |nodes| + 1 && after[|nodes|] == node &&
      after[p].children == nodes[p].children + [|nodes|] &&
      Kept(nodes, after, |nodes|) && OtherChildrenKept(nodes, after, |nodes|, p)
  {
  }

  /** Numbering of the nodes added so far, extended by the nodes of one more child tree. */
  lemma NumberedAppend(nodes: seq<Node>, base: nat, cs: seq<PropertyBag>, more: seq<PropertyBag>, id0: nat)
    requires Numbered(nodes, base, cs, id0) && Numbered(nodes, base + |cs|, more, id0 + |cs|)
    ensures Numbered(nodes, base, cs + more, id0)
  {
    forall m | 0 <= m < |cs + more|
      ensures nodes[base + m].props == (cs + more)[m] && nodes[base + m].id == id0 + m
    {
      if m >= |cs| {
        var r := m - |cs|;
        assert nodes[base + |cs| + r].props == more[r];
      }
    }
  }

  /** Numbering survives when the numbered nodes keep their ids and contents. */
  lemma NumberedKept(before: seq<Node>, after: seq<Node>, base: nat, cs: seq<PropertyBag>, id0: nat)
    requires Numbered(before, base, cs, id0) && Kept(before, after, |before|)
    ensures Numbered(after, base, cs, id0)
  {
    forall m | 0 <= m < |cs|
      ensures after[base + m].props == cs[m] && after[base + m].id == id0 + m
    {
      assert before[base + m].props == cs[m];
    }
  }

  /** The parents of the nodes added so far, extended by those of the nodes of one more child tree. */
  lemma HungAppend(nodes: seq<Node>, base: nat, ps: seq<nat>, more: seq<nat>)
    requires Hung(nodes, base, ps) && Hung(nodes, base + |ps|, more)
    ensures Hung(nodes, base, ps + more)
  {
    forall m | 0 <= m < |ps + more|
      ensures nodes[base + m].parent == Some((ps + more)[m])
    {
      if m >= |ps| {
        var r := m - |ps|;
        assert nodes[base + |ps| + r].parent == Some(more[r]);
      }
    }
  }

  /** Parent links survive when the nodes keep their parents. */
  lemma HungKept(before: seq<Node>, after: seq<Node>, base: nat, ps: seq<nat>)
    requires Hung(before, base, ps) && Kept(before, after, |before|)
    ensures Hung(after, base, ps)
  {
    forall m | 0 <= m < |ps|
      ensures after[base + m].parent == Some(ps[m])
    {
      assert before[base + m].parent == Some(ps[m]);
    }
  }

  lemma ParentsBeforeUnfold(t: GameTree, last: nat, b: nat, k: nat)
    requires k < |t.children|
    ensures ParentsBefore(t, last, b, k + 1) ==
      ParentsBefore(t, last, b, k) + Parents(t.children[k], last, b + |PreorderBefore(t, k)|)
  {
  }

  lemma ParentsBeforeStep(t: GameTree, chain: seq<nat>, last: nat, b: nat, k: nat)
    requires k < |t.children|
    ensures chain + ParentsBefore(t, last, b, k + 1) ==
      (chain + ParentsBefore(t, last, b, k)) + Parents(t.children[k], last, b + |PreorderBefore(t, k)|)
  {
    ParentsBeforeUnfold(t, last, b, k);
  }

  /** The nodes with `node` added last and listed last among the children of p. */
  function AddChild(nodes: seq<Node>, p: nat, node: Node): (after: seq<Node>)
    requires p < |nodes|
    ensures |after| == |nodes| + 1 && after[|nodes|] == node
  {
    (nodes + [node])[p := (nodes + [node])[p].(children := nodes[p].children + [|nodes|])]
  }

  /**
   * The state of the chain loop after s rounds: the first s entries of
   * `sequence` hang as a chain from `from`, numbered on from id0, and the
   * cursor is the chain's end.
   */
  ghost predicate ChainSoFar(nodes: seq<Node>, after: seq<Node>, cursor: nat, from: nat, id0: nat,
                             sequence: seq<PropertyBag>, s: nat)
  {
    s <= |sequence| && from < |nodes| &&
    Linked(after) && |after| == |nodes| + s && cursor == ChainEnd(from, |nodes|, s) &&
    (s == 0 ==> after == nodes) &&
    (s > 0 ==> after[from].children == nodes[from].children + [|nodes|]) &&
    Kept(nodes, after, |nodes|) && OtherChildrenKept(nodes, after, |nodes|, from) &&
    Numbered(after, |nodes|, sequence[..s], id0) &&
    Hung(after, |nodes|, ChainParents(from, |nodes|, s))
  }

  /** The numbering of a chain extended by one node. */
  lemma ChainStepNumbered(after: seq<Node>, next: seq<Node>, base: nat, id0: nat, sequence: seq<PropertyBag>, s: nat)
    requires s < |sequence| && |after| == base + s && |next| == |after| + 1
    requires Numbered(after, base, sequence[..s], id0) && Kept(after, next, |after|)
    requires next[|after|].props == sequence[s] && next[|after|].id == id0 + s
    ensures Numbered(next, base, sequence[..s + 1], id0)
  {
    NumberedKept(after, next, base, sequence[..s], id0);
    assert Numbered(next, base + s, [sequence[s]], id0 + s);
    NumberedAppend(next, base, sequence[..s], [sequence[s]], id0);
    assert sequence[..s] + [sequence[s]] == sequence[..s + 1];
  }

  /** The parents of a chain extended by one node hung from the chain's end. */
  lemma ChainStepHung(after: seq<Node>, next: seq<Node>, base: nat, from: nat, s: nat)
    requires |after| == base + s && |next| == |after| + 1
    requires Hung(after, base, ChainParents(from, base, s)) && Kept(after, next, |after|)
    requires next[|after|].parent == Some(ChainEnd(from, base, s))
    ensures Hung(next, base, ChainParents(from, base, s + 1))
  {
    HungKept(after, next, base, ChainParents(from, base, s));
    assert Hung(next, base + s, [ChainEnd(from, base, s)]);
    HungAppend(next, base, ChainParents(from, base, s), [ChainEnd(from, base, s)]);
    assert ChainParents(from, base, s) + [ChainEnd(from, base, s)] == ChainParents(from, base, s + 1);
  }

  /**
   * One round of the chain loop: hanging the next entry, numbered id0 + s,
   * from the cursor keeps the forest shape and extends the chain by one.
   */
  lemma ChainStep(nodes: seq<Node>, after: seq<Node>, cursor: nat, from: nat, id0: nat,
                  sequence: seq<PropertyBag>, s: nat)
    requires ChainSoFar(nodes, after, cursor, from, id0, sequence, s) && s < |sequence|
    ensures cursor < |after|
    ensures ChainSoFar(nodes, AddChild(after, cursor, Node(id0 + s, sequence[s], Some(cursor), [])),
                       |after|, from, id0, sequence, s + 1)
  {
    var base := |nodes|;
    var node := Node(id0 + s, sequence[s], Some(cursor), []);
    var next := AddChild(after, cursor, node);
    AddChildKeepsLinked(after, cursor, node);
    AddChildKeepsOthers(after, cursor, node);
    KeptTrans(nodes, after, next, base, |after|);
    OtherChildrenKeptTrans(nodes, after, next, base, |after|, from, cursor);
    ChainStepNumbered(after, next, base, id0, sequence, s);
    ChainStepHung(after, next, base, from, s);
  }

  /**
   * The first loop of appendSequence: each entry of `sequence` becomes a
   * node hanging from the previous one, the first from `from`, with ids
   * counted on from id0; the cursor ends at the last node of the chain
   * (`from` itself for an empty sequence).
   */
  method AppendChain(nodes: seq<Node>, id0: nat, from: nat, sequence: seq<PropertyBag>) returns (after: seq<Node>, cursor: nat)
    requires Linked(nodes) && from < |nodes|
    ensures Linked(after) && cursor < |after| && |after| == |nodes| + |sequence|
    ensures cursor == ChainEnd(from, |nodes|, |sequence|)
    ensures Kept(nodes, after, |nodes|) && OtherChildrenKept(nodes, after, |nodes|, from)
    ensures sequence == [] ==> after[from].children == nodes[from].children
    ensures sequence != [] ==> after[from].children == nodes[from].children + [|nodes|]
    ensures Numbered(after, |nodes|, sequence, id0)
    ensures Hung(after, |nodes|, ChainParents(from, |nodes|, |sequence|))
  {
    after := nodes;
    cursor := from;
    for s := 0 to |sequence|
      invariant ChainSoFar(nodes, after, cursor, from, id0, sequence, s)
    {
      ChainStep(nodes, after, cursor, from, id0, sequence, s);
      var index := |after|;
      after := AddChild(after, cursor, Node(id0 + s, sequence[s], Some(cursor), []));
      cursor := index;
    }
    assert sequence[..|sequence|] == sequence;
  }

  /**
   * The state of appendSequence's child-tree loop after k rounds, the arena
   * having been `orig` on entry: the chain and the first k child trees hang
   * in place, numbered on from id0.
   */
  ghost predicate TreeSoFar(orig: seq<Node>, nodes: seq<Node>, from: nat, cursor: nat, id0: nat, nextId: nat,
                            tree: GameTree, k: nat)
  {
    var base := |orig|;
    var n := |tree.sequence|;
    k <= |tree.children| && from < base && Linked(nodes) &&
    |nodes| == base + n + |PreorderBefore(tree, k)| && nextId == id0 + n + |PreorderBefore(tree, k)| &&
    cursor == ChainEnd(from, base, n) &&
    Kept(orig, nodes, base) && OtherChildrenKept(orig, nodes, base, from) &&
    orig[from].children <= nodes[from].children &&
    (n != 0 ==> nodes[from].children == orig[from].children + [base]) &&
    Numbered(nodes, base, tree.sequence + PreorderBefore(tree, k), id0) &&
    Hung(nodes, base, ChainParents(from, base, n) + ParentsBefore(tree, cursor, base + n, k))
  }

  /** The chain alone, built from `orig`, is the state before the first child tree. */
  lemma TreeStart(orig: seq<Node>, nodes: seq<Node>, from: nat, cursor: nat, id0: nat, tree: GameTree)
    requires from < |orig| && Linked(nodes) && |nodes| == |orig| + |tree.sequence|
    requires cursor == ChainEnd(from, |orig|, |tree.sequence|)
    requires Kept(orig, nodes, |orig|) && OtherChildrenKept(orig, nodes, |orig|, from)
    requires tree.sequence == [] ==> nodes[from].children == orig[from].children
    requires tree.sequence != [] ==> nodes[from].children == orig[from].children + [|orig|]
    requires Numbered(nodes, |orig|, tree.sequence, id0)
    requires Hung(nodes, |orig|, ChainParents(from, |orig|, |tree.sequence|))
    ensures TreeSoFar(orig, nodes, from, cursor, id0, id0 + |tree.sequence|, tree, 0)
  {
    var chainParents := ChainParents(from, |orig|, |tree.sequence|);
    assert tree.sequence + PreorderBefore(tree, 0) == tree.sequence;
    assert chainParents + ParentsBefore(tree, cursor, |orig| + |tree.sequence|, 0) == chainParents;
  }

  /** Numbering of the chain and child trees so far, extended by child tree k. */
  lemma TreeStepNumbered(prev: seq<Node>, nodes: seq<Node>, base: nat, id0: nat, tree: GameTree, k: nat)
    requires k < |tree.children|
    requires |prev| == base + |tree.sequence| + |PreorderBefore(tree, k)|
    requires Numbered(prev, base, tree.sequence + PreorderBefore(tree, k), id0)
    requires Kept(prev, nodes, |prev|)
    requires Numbered(nodes, |prev|, Preorder(tree.children[k]), id0 + |tree.sequence| + |PreorderBefore(tree, k)|)
    ensures Numbered(nodes, base, tree.sequence + PreorderBefore(tree, k + 1), id0)
  {
    var done := tree.sequence + PreorderBefore(tree, k);
    PreorderBeforeStep(tree, k);
    NumberedKept(prev, nodes, base, done, id0);
    NumberedAppend(nodes, base, done, Preorder(tree.children[k]), id0);
  }

  /** Parents of the chain and child trees so far, extended by those of child tree k. */
  lemma TreeStepHung(prev: seq<Node>, nodes: seq<Node>, base: nat, from: nat, cursor: nat, tree: GameTree, k: nat)
    requires k < |tree.children|
    requires |prev| == base + |tree.sequence| + |PreorderBefore(tree, k)|
    requires Hung(prev, base, ChainParents(from, base, |tree.sequence|) + ParentsBefore(tree, cursor, base + |tree.sequence|, k))
    requires Kept(prev, nodes, |prev|)
    requires Hung(nodes, |prev|, Parents(tree.children[k], cursor, |prev|))
    ensures Hung(nodes, base, ChainParents(from, base, |tree.sequence|) + ParentsBefore(tree, cursor, base + |tree.sequence|, k + 1))
  {
    var chainParents := ChainParents(from, base, |tree.sequence|);
    var hung := chainParents + ParentsBefore(tree, cursor, base + |tree.sequence|, k);
    HungKept(prev, nodes, base, hung);
    ParentsBeforeCover(tree, cursor, base + |tree.sequence|, k);
    HungAppend(nodes, base, hung, Parents(tree.children[k], cursor, |prev|));
    ParentsBeforeStep(tree, chainParents, cursor, base + |tree.sequence|, k);
  }

  /** One round of the child-tree loop: child tree k, appended under the cursor, extends the state. */
  lemma TreeStep(orig: seq<Node>, prev: seq<Node>, nodes: seq<Node>, from: nat, cursor: nat, id0: nat,
                 prevId: nat, nextId: nat, tree: GameTree, k: nat)
    requires TreeSoFar(orig, prev, from, cursor, id0, prevId, tree, k) && k < |tree.children|
    requires Linked(nodes) && |nodes| == |prev| + |Preorder(tree.children[k])|
    requires Kept(prev, nodes, |prev|) && OtherChildrenKept(prev, nodes, |prev|, cursor)
    requires prev[cursor].children <= nodes[cursor].children
    requires Numbered(nodes, |prev|, Preorder(tree.children[k]), prevId)
    requires Hung(nodes, |prev|, Parents(tree.children[k], cursor, |prev|))
    requires nextId == prevId + |Preorder(tree.children[k])|
    ensures TreeSoFar(orig, nodes, from, cursor, id0, nextId, tree, k + 1)
  {
    var base := |orig|;
    KeptTrans(orig, prev, nodes, base, |prev|);
    OtherChildrenKeptTrans(orig, prev, nodes, base, |prev|, from, cursor);
    PreorderBeforeStep(tree, k);
    TreeStepNumbered(prev, nodes, base, id0, tree, k);
    TreeStepHung(prev, nodes, base, from, cursor, tree, k);
  }

  /** After the last child tree the state is appendSequence's promise. */
  lemma TreeEnd(orig: seq<Node>, nodes: seq<Node>, from: nat, cursor: nat, id0: nat, nextId: nat, tree: GameTree)
    requires TreeSoFar(orig, nodes, from, cursor, id0, nextId, tree, |tree.children|)
    ensures |nodes| == |orig| + |Preorder(tree)| && nextId == id0 + |Preorder(tree)|
    ensures Numbered(nodes, |orig|, Preorder(tree), id0)
    ensures Hung(nodes, |orig|, Parents(tree, from, |orig|))
  {
  }

  class NodeArena {
    /** Every node built so far, as the JavaScript heap holds them. */
    var nodes: seq<Node>
    /** state.nextNodeId: the id the next built node receives. */
    var nextNodeId: nat

    ghost predicate Valid()
      reads this`nodes
    {
      Linked(nodes)
    }

    constructor ()
      ensures Valid() && nodes == [] && nextNodeId == 1
    {
      nodes := [];
      nextNodeId := 1;
    }

    /**
     * buildNodeTree: a fresh virtual root with id 0 and no properties, the
     * tree's nodes below it in pre-order with ids counted on from nextNodeId.
     */
    method BuildNodeTree(tree: GameTree) returns (root: nat)
      requires Valid()
      modifies this
      ensures Valid()
      ensures root == old(|nodes|) && |nodes| == root + 1 + |Preorder(tree)|
      ensures nodes[..root] == old(nodes)
      ensures nodes[root].id == 0 && nodes[root].props == map[] && nodes[root].parent == None
      ensures Numbered(nodes, root + 1, Preorder(tree), old(nextNodeId))
      ensures Hung(nodes, root + 1, Parents(tree, root, root + 1))
      ensures nextNodeId == old(nextNodeId) + |Preorder(tree)|
      ensures tree.sequence != [] ==> nodes[root].children == [root + 1]
    {
      root := |nodes|;
      nodes := nodes + [Node(0, map[], None, [])];
      assert Linked(nodes) by {
        assert forall i :: 0 <= i < root ==> nodes[i] == old(nodes)[i];
      }
      ghost var before := nodes;
      AppendSequence(root, tree);
      assert nodes[..root] == old(nodes) by {
        assert Kept(before, nodes, |before|) && OtherChildrenKept(before, nodes, |before|, root);
        forall i | 0 <= i < root
          ensures nodes[i] == old(nodes)[i]
        {
          assert before[i] == old(nodes)[i];
        }
      }
    }

    /**
     * appendSequence: the sequence as a chain hanging from `from`, then each
     * child tree hanging from the chain's last node (or from `from` itself
     * when the sequence is empty).
     */
    method AppendSequence(from: nat, tree: GameTree)
      requires Valid() && from < |nodes|
      modifies this
      ensures Valid()
      ensures |nodes| == old(|nodes|) + |Preorder(tree)|
      ensures Kept(old(nodes), nodes, old(|nodes|))
      ensures OtherChildrenKept(old(nodes), nodes, old(|nodes|), from)
      ensures old(nodes[from].children) <= nodes[from].children
      ensures tree.sequence != [] ==> nodes[from].children == old(nodes[from].children) + [old(|nodes|)]
      ensures Numbered(nodes, old(|nodes|), Preorder(tree), old(nextNodeId))
      ensures Hung(nodes, old(|nodes|), Parents(tree, from, old(|nodes|)))
      ensures nextNodeId == old(nextNodeId) + |Preorder(tree)|
      decreases tree, 0
    {
      ghost var orig := nodes;
      ghost var id0 := nextNodeId;
      var chain, cursor := AppendChain(nodes, nextNodeId, from, tree.sequence);
      nodes := chain;
      nextNodeId := nextNodeId + |tree.sequence|;
      TreeStart(orig, nodes, from, cursor, id0, tree);
      for k := 0 to |tree.children|
        invariant TreeSoFar(orig, nodes, from, cursor, id0, nextNodeId, tree, k)
      {
        ghost var prev := nodes;
        ghost var prevId := nextNodeId;
        AppendSequence(cursor, tree.children[k]);
        TreeStep(orig, prev, nodes, from, cursor, id0, prevId, nextNodeId, tree, k);
      }
      TreeEnd(orig, nodes, from, cursor, id0, nextNodeId, tree);
    }
  }

  // ---------------------------------------------------------------------
  // Walks over the graph
  // ---------------------------------------------------------------------

  /** The nodes from the top of n's tree down to n, leaving out the parentless top node itself. */
  ghost function PathTo(nodes: seq<Node>, n: nat): seq<nat>
    requires Linked(nodes) && n < |nodes|
    decreases n
  {
    if nodes[n].parent.None? then [] else PathTo(nodes, nodes[n].parent.value) + [n]
  }

  /**
   * The path leaves out the parentless top (the virtual root); it ends at n
   * whenever n has a parent; it starts just below a parentless node; and each
   * step goes from a parent to one of its children.
   */
  lemma {:induction false} PathToShape(nodes: seq<Node>, n: nat)
    requires Linked(nodes) && n < |nodes|
    ensures var path := PathTo(nodes, n);
      (forall k :: 0 <= k < |path| ==> path[k] < |nodes| && nodes[path[k]].parent.Some?) &&
      (nodes[n].parent.None? <==> path == []) &&
      (path != [] ==> path[|path| - 1] == n && nodes[nodes[path[0]].parent.value].parent.None?) &&
      (forall k :: 0 < k < |path| ==> nodes[path[k]].parent == Some(path[k - 1]))
    decreases n
  {
    if nodes[n].parent.Some? {
      var p := nodes[n].parent.value;
      PathToShape(nodes, p);
      var path := PathTo(nodes, n);
      assert path == PathTo(nodes, p) + [n];
      if nodes[p].parent.None? {
        assert path == [n];
      }
    }
  }

  /** buildMainlinePath: from start, always the first child, until a node without children. */
  ghost function Mainline(nodes: seq<Node>, start: nat): seq<nat>
    requires Linked(nodes) && start < |nodes|
    decreases |nodes| - start
  {
    if nodes[start].children == [] then [start]
    else [start] + Mainline(nodes, nodes[start].children[0])
  }

  /** The main line starts at its start node, follows first children and stops at a leaf. */
  lemma {:induction false} MainlineShape(nodes: seq<Node>, start: nat)
    requires Linked(nodes) && start < |nodes|
    ensures var line := Mainline(nodes, start);
      |line| > 0 && line[0] == start &&
      (forall k :: 0 <= k < |line| ==> line[k] < |nodes|) &&
      (forall k :: 0 <= k < |line| - 1 ==>
         nodes[line[k]].children != [] && line[k + 1] == nodes[line[k]].children[0]) &&
      nodes[line[|line| - 1]].children == []
    decreases |nodes| - start
  {
    if nodes[start].children != [] {
      var next := nodes[start].children[0];
      MainlineShape(nodes, next);
      var line := Mainline(nodes, start);
      assert line == [start] + Mainline(nodes, next);
      forall k | 0 <= k < |line| - 1
        ensures nodes[line[k]].children != [] && line[k + 1] == nodes[line[k]].children[0]
      {
        if k > 0 {
          assert line[k] == Mainline(nodes, next)[k - 1];
        }
      }
    }
  }

  /** getPathTo: climb the parent links, then put the nodes in root-to-node order. */
  method GetPathTo(nodes: seq<Node>, n: nat) returns (path: seq<nat>)
    requires Linked(nodes) && n < |nodes|
    ensures path == PathTo(nodes, n)
  {
    path := [];
    var cursor: nat := n;
    while nodes[cursor].parent.Some?
      invariant cursor < |nodes|
      invariant PathTo(nodes, n) == PathTo(nodes, cursor) + path
      decreases cursor
    {
      path := [cursor] + path;
      cursor := nodes[cursor].parent.value;
    }
  }

  /** The main line is never empty and names nodes only. */
  lemma MainlineInArena(nodes: seq<Node>, start: nat)
    requires Linked(nodes) && start < |nodes|
    ensures var line := Mainline(nodes, start);
      |line| > 0 && line[0] == start && forall k :: 0 <= k < |line| ==> line[k] < |nodes|
  {
    MainlineShape(nodes, start);
  }

  /** buildMainlinePath. */
  method BuildMainlinePath(nodes: seq<Node>, start: nat) returns (path: seq<nat>)
    requires Linked(nodes) && start < |nodes|
    ensures path == Mainline(nodes, start)
  {
    path := [];
    var cursor := start;
    while true
      invariant cursor < |nodes|
      invariant path + Mainline(nodes, cursor) == Mainline(nodes, start)
      decreases |nodes| - cursor
    {
      path := path + [cursor];
      if nodes[cursor].children == [] {
        break;
      }
      cursor := nodes[cursor].children[0];
    }
  }

  // ---------------------------------------------------------------------
  // Moves recorded on nodes
  // ---------------------------------------------------------------------

  /** getNodeMove: a B value wins over a W value; an empty list counts as absent. */
  function GetNodeMove(props: PropertyBag): (r: Option<Move>)
    ensures r.Some? <==> |Lookup(props, "B")| > 0 || |Lookup(props, "W")| > 0
    ensures r.Some? ==> (r.value.color == Black <==> |Lookup(props, "B")| > 0)
    ensures r.Some? ==> r.value.coord == Lookup(props, if r.value.color == Black then "B" else "W")[0]
    ensures r.Some? ==> r.value.point == CoordToPoint(r.value.coord)
  {
    if |Lookup(props, "B")| > 0 then
      var coord := Lookup(props, "B")[0];
      Some(Move(Black, CoordToPoint(coord), coord))
    else if |Lookup(props, "W")| > 0 then
      var coord := Lookup(props, "W")[0];
      Some(Move(White, CoordToPoint(coord), coord))
    else None
  }

  /**
   * The coordinate goToChildByMove reads from a child: the first B value
   * unless it is missing or empty, else the first W value; "" stands for
   * undefined, which coordToPoint treats like the empty string.
   */
  function ChildMoveCoord(props: PropertyBag): (coord: string)
    ensures |Lookup(props, "B")| > 0 && Lookup(props, "B")[0] != "" ==> coord == Lookup(props, "B")[0]
    ensures !(|Lookup(props, "B")| > 0 && Lookup(props, "B")[0] != "") ==>
              coord == (if |Lookup(props, "W")| > 0 then Lookup(props, "W")[0] else "")
  {
    var b := Lookup(props, "B");
    var w := Lookup(props, "W");
    if |b| > 0 && b[0] != "" then b[0] else if |w| > 0 then w[0] else ""
  }

  /** Where getNodeMove sees a move with a point, goToChildByMove sees the same point. */
  lemma ChildMoveAgreesWithNodeMove(props: PropertyBag)
    requires GetNodeMove(props).Some? && GetNodeMove(props).value.point.Some?
    ensures CoordToPoint(ChildMoveCoord(props)) == GetNodeMove(props).value.point
  {
  }
}
