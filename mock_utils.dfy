/**
 * Search helpers over the mock data: a pre-order visit, a pre-order find,
 * and the root-first list of ancestors of a node, built on a shared stack
 * that is pushed on the way down and popped on every failed branch.
 */
module MockUtils {
  import opened TreeTypes

  /** A mock node; an absent child list is the empty one (both are visited alike). */
  datatype Data = Data(nodeId: NodeId, children: seq<Data>)

  // ---------------------------------------------------------------------------
  // Visit and find
  // ---------------------------------------------------------------------------

  /** The nodes the callback is called on, in call order: the node, then each child's visit. */
  function MapTreeNode(node: Data): (r: seq<Data>)
    ensures |r| >= 1 && r[0] == node
  {
    [node] + MapTreeNodes(node.children)
  }

  function MapTreeNodes(ts: seq<Data>): seq<Data>
  {
    if ts == [] then [] else MapTreeNode(ts[0]) + MapTreeNodes(ts[1..])
  }

  /** The node itself when it has the id, else the first hit among its children. */
  function FindIn(id: NodeId, tree: Data): (r: Option<Data>)
    ensures r.Some? ==> r.value.nodeId == id
  {
    if tree.nodeId == id then Some(tree) else FindAll(id, tree.children)
  }

  /** The first hit across the roots, tried in order. */
  function FindAll(id: NodeId, data: seq<Data>): (r: Option<Data>)
    ensures r.Some? ==> r.value.nodeId == id
  {
    if data == [] then None
    else
      var hit := FindIn(id, data[0]);
      if hit.Some? then hit else FindAll(id, data[1..])
  }

  /** The first node of the list with the id. */
  function FirstMatch(xs: seq<Data>, id: NodeId): (r: Option<Data>)
    ensures r.Some? ==> r.value in xs && r.value.nodeId == id
    ensures r.None? <==> forall i :: 0 <= i < |xs| ==> xs[i].nodeId != id
  {
    if xs == [] then None else if xs[0].nodeId == id then Some(xs[0]) else FirstMatch(xs[1..], id)
  }

  lemma {:induction false} MapTreeNodesAppend(a: seq<Data>, b: seq<Data>)
    ensures MapTreeNodes(a + b) == MapTreeNodes(a) + MapTreeNodes(b)
    decreases |a|
  {
    if a == [] {
      assert a + b == b;
    } else {
      assert (a + b)[0] == a[0] && (a + b)[1..] == a[1..] + b;
      MapTreeNodesAppend(a[1..], b);
    }
  }

  /** Searching a concatenation searches the left part first; the mock `Data` nodes carry `nodeId` directly, so this lemma is stated for `Data` here and for the record-carrying `Tree` nodes in `NestedStage`. */
  lemma {:induction false} FirstMatchAppend(a: seq<Data>, b: seq<Data>, id: NodeId)
    ensures FirstMatch(a + b, id) == if FirstMatch(a, id).Some? then FirstMatch(a, id) else FirstMatch(b, id)
    decreases |a|
  {
    if a == [] {
      assert a + b == b;
    } else {
      assert (a + b)[0] == a[0] && (a + b)[1..] == a[1..] + b;
      FirstMatchAppend(a[1..], b, id);
    }
  }

  /** The search returns the first node, in callback order, with the id. */
  lemma {:induction false} FindInIsFirst(id: NodeId, tree: Data)
    ensures FindIn(id, tree) == FirstMatch(MapTreeNode(tree), id)
  {
    FirstMatchAppend([tree], MapTreeNodes(tree.children), id);
    FindAllIsFirst(id, tree.children);
  }

  /** Across roots, the search returns the first node, in callback order, with the id. */
  lemma {:induction false} FindAllIsFirst(id: NodeId, data: seq<Data>)
    ensures FindAll(id, data) == FirstMatch(MapTreeNodes(data), id)
  {
    if data != [] {
      FindInIsFirst(id, data[0]);
      FindAllIsFirst(id, data[1..]);
      FirstMatchAppend(MapTreeNode(data[0]), MapTreeNodes(data[1..]), id);
    }
  }

  /** The search from position i is the search of tree i, then of the rest (one copy per node type, see `FirstMatchAppend`). */
  lemma {:induction false} FindAllAt(ts: seq<Data>, i: nat, id: NodeId)
    requires i < |ts|
    ensures FindAll(id, ts[i..]) == if FindIn(id, ts[i]).Some? then FindIn(id, ts[i]) else FindAll(id, ts[i + 1..])
  {
    assert ts[i..][0] == ts[i] && ts[i..][1..] == ts[i + 1..];
  }

  /** The tree itself when it has the id, else the children's searches in order up to the first hit. */
  method FindNodeHelper(id: NodeId, tree: Data) returns (r: Option<Data>)
    ensures r == FindIn(id, tree)
  {
    if tree.nodeId == id {
      return Some(tree);
    }
    var children := tree.children;
    for i := 0 to |children|
      invariant FindAll(id, children) == FindAll(id, children[i..])
    {
      r := FindNodeHelper(id, children[i]);
      FindAllAt(children, i, id);
      if r.Some? {
        return;
      }
    }
    return None;
  }

  /** The roots' searches in order up to the first hit. */
  method FindNode(id: NodeId, data: seq<Data>) returns (r: Option<Data>)
    ensures r == FindAll(id, data)
  {
    for i := 0 to |data|
      invariant FindAll(id, data) == FindAll(id, data[i..])
    {
      r := FindNodeHelper(id, data[i]);
      FindAllAt(data, i, id);
      if r.Some? {
        return;
      }
    }
    return None;
  }

  // ---------------------------------------------------------------------------
  // Ancestor paths
  // ---------------------------------------------------------------------------

  /** Each node of the list is a child of the one before it. */
  ghost predicate IsPath(p: seq<Data>)
  {
    forall k :: 0 <= k < |p| - 1 ==> p[k + 1] in p[k].children
  }

  ghost predicate HasChildWithId(n: Data, id: NodeId)
  {
    exists c :: c in n.children && c.nodeId == id
  }

  /**
   * The ancestors of the first pre-order node with the id, root first,
   * without the node itself; None when no node has the id.
   */
  function PathIn(tree: Data, id: NodeId): (r: Option<seq<Data>>)
    ensures (r.Some? && r.value == []) <==> tree.nodeId == id
    ensures r.Some? && r.value != [] ==>
      r.value[0] == tree && IsPath(r.value) && HasChildWithId(r.value[|r.value| - 1], id)
    ensures r.Some? ==> forall k :: 0 <= k < |r.value| ==> r.value[k].nodeId != id
  {
    if tree.nodeId == id then Some([])
    else
      var below := PathAll(tree.children, id);
      if below.None? then None
      else
        var p := [tree] + below.value;
        assert forall k :: 1 <= k < |p| ==> p[k] == below.value[k - 1];
        Some(p)
  }

  /** The path found in the first tree of the list that holds the id. */
  function PathAll(ts: seq<Data>, id: NodeId): (r: Option<seq<Data>>)
    ensures r.Some? && r.value == [] ==> exists i :: 0 <= i < |ts| && ts[i].nodeId == id
    ensures r.Some? && r.value != [] ==>
      r.value[0] in ts && IsPath(r.value) && HasChildWithId(r.value[|r.value| - 1], id)
    ensures r.Some? ==> forall k :: 0 <= k < |r.value| ==> r.value[k].nodeId != id
  {
    if ts == [] then None
    else
      var here := PathIn(ts[0], id);
      if here.Some? then here else PathAll(ts[1..], id)
  }

  /** A path exists exactly when the search finds the node. */
  lemma {:induction false} PathIffFound(id: NodeId, tree: Data)
    ensures PathIn(tree, id).Some? <==> FindIn(id, tree).Some?
  {
    if tree.nodeId != id {
      PathAllIffFound(id, tree.children);
    }
  }

  lemma {:induction false} PathAllIffFound(id: NodeId, ts: seq<Data>)
    ensures PathAll(ts, id).Some? <==> FindAll(id, ts).Some?
  {
    if ts != [] {
      PathIffFound(id, ts[0]);
      PathAllIffFound(id, ts[1..]);
    }
  }

  /** A non-empty path ends at the parent of the node the search finds: that node is its first child with the id. */
  lemma {:induction false} PathInEndsAtFound(id: NodeId, tree: Data)
    requires PathIn(tree, id).Some? && PathIn(tree, id).value != []
    ensures var p := PathIn(tree, id).value;
      FirstMatch(p[|p| - 1].children, id) == FindIn(id, tree)
  {
    var below := PathAll(tree.children, id).value;
    PathAllEndsAtFound(id, tree.children);
    assert PathIn(tree, id).value == [tree] + below;
  }

  /**
   * Across roots: an empty path means the search finds the first root with
   * the id; otherwise the path ends at the parent of the node the search finds.
   */
  lemma {:induction false} PathAllEndsAtFound(id: NodeId, ts: seq<Data>)
    requires PathAll(ts, id).Some?
    ensures var p := PathAll(ts, id).value;
      (p == [] ==> FindAll(id, ts) == FirstMatch(ts, id)) &&
      (p != [] ==> FirstMatch(p[|p| - 1].children, id) == FindAll(id, ts))
  {
    var here := PathIn(ts[0], id);
    PathIffFound(id, ts[0]);
    if here.Some? {
      if here.value != [] {
        PathInEndsAtFound(id, ts[0]);
      }
    } else {
      PathAllEndsAtFound(id, ts[1..]);
    }
  }

  lemma {:induction false} PathAllAt(ts: seq<Data>, i: nat, id: NodeId)
    requires i < |ts|
    ensures PathAll(ts[i..], id) == if PathIn(ts[i], id).Some? then PathIn(ts[i], id) else PathAll(ts[i + 1..], id)
  {
    assert ts[i..][0] == ts[i] && ts[i..][1..] == ts[i + 1..];
  }

  /**
   * The recursive visit of the ancestor search. On a hit the stack ends as
   * it was plus the path below; on a miss everything pushed is popped again.
   */
  method Visit(node: Data, id: NodeId, parents: seq<Data>) returns (found: bool, stack: seq<Data>)
    ensures found <==> PathIn(node, id).Some?
    ensures stack == if found then parents + PathIn(node, id).value else parents
    decreases node, 1
  {
    if node.nodeId == id {
      assert parents + [] == parents;
      return true, parents;
    }
    stack := parents + [node];
    var isChild;
    isChild, stack := FindChild(node, id, stack);
    if isChild {
      assert parents + [node] + PathAll(node.children, id).value == parents + PathIn(node, id).value;
      return true, stack;
    }
    stack := stack[..|stack| - 1];
    assert stack == parents;
    return false, stack;
  }

  /** The children's visits in order, up to the first hit. */
  method FindChild(node: Data, id: NodeId, parents: seq<Data>) returns (found: bool, stack: seq<Data>)
    ensures found <==> PathAll(node.children, id).Some?
    ensures stack == if found then parents + PathAll(node.children, id).value else parents
    decreases node, 0
  {
    var kids := node.children;
    for i := 0 to |kids|
      invariant PathAll(kids, id) == PathAll(kids[i..], id)
    {
      found, stack := Visit(kids[i], id, parents);
      PathAllAt(kids, i, id);
      if found {
        return;
      }
    }
    return false, parents;
  }

  /** The ancestors of id inside one tree, or None. */
  method FindNodeParentsHelper(id: NodeId, tree: Data) returns (r: Option<seq<Data>>)
    ensures r == PathIn(tree, id)
  {
    var found, parents := Visit(tree, id, []);
    if found {
      assert [] + PathIn(tree, id).value == PathIn(tree, id).value;
      r := Some(parents);
    } else {
      r := None;
    }
  }

  /** The ancestors of id within the first root that holds it, or None. */
  method FindNodeParents(id: NodeId, tree: seq<Data>) returns (r: Option<seq<Data>>)
    ensures r == PathAll(tree, id)
  {
    for i := 0 to |tree|
      invariant PathAll(tree, id) == PathAll(tree[i..], id)
    {
      var res := FindNodeParentsHelper(id, tree[i]);
      PathAllAt(tree, i, id);
      if res.Some? {
        return res;
      }
    }
    return None;
  }
}
