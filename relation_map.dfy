/**
 * The nested relation index: from the nested tree, a map from each parent id
 * to the ids of its tree-node children and a map from each child id to its
 * parent id, with duplicate ids reported; and the transitive descendant and
 * ancestor queries over those maps.
 */
module RelationMap {
  import opened TreeTypes
  import opened TreeUtils

  type ToChildren = map<NodeId, seq<NodeId>>
  type ToParent = map<NodeId, NodeId>

  // ---------------------------------------------------------------------------
  // What the builder visits and records
  // ---------------------------------------------------------------------------

  /** The elements of a sequence of ids, as a set. */
  function Elems(xs: seq<NodeId>): set<NodeId>
  {
    set x | x in xs
  }

  /** The ids of a sequence of elements, in order. */
  function IdsOf(es: seq<Element>): (r: seq<NodeId>)
    requires forall k :: 0 <= k < |es| ==> es[k].TreeNode?
    ensures |r| == |es| && forall k :: 0 <= k < |es| ==> r[k] == es[k].id
  {
    seq(|es|, k requires 0 <= k < |es| => es[k].id)
  }

  /** The ids of the tree-node children among kids, in order. */
  function KidIds(kids: seq<Element>): seq<NodeId>
  {
    var ts := TreeKids(kids);
    seq(|ts|, k requires 0 <= k < |ts| => ts[k].id)
  }

  /**
   * The tree nodes the builder visits under e, in visiting order: e itself,
   * then, when its children prop is present, those under its children.
   */
  function Members(e: Element): (r: seq<Element>)
    ensures forall k :: 0 <= k < |r| ==> r[k].TreeNode?
  {
    match e
    case Other(_) => []
    case TreeNode(_, _, has, kids) => [e] + (if has then MembersAll(kids) else [])
  }

  function MembersAll(es: seq<Element>): (r: seq<Element>)
    ensures forall k :: 0 <= k < |r| ==> r[k].TreeNode?
  {
    if es == [] then [] else Members(es[0]) + MembersAll(es[1..])
  }

  /** The ids visited under e, in visiting order. */
  function Visited(e: Element): seq<NodeId>
  {
    IdsOf(Members(e))
  }

  function VisitedAll(es: seq<Element>): seq<NodeId>
  {
    IdsOf(MembersAll(es))
  }

  /** The ids of ids that were seen before (in `seen` or earlier in ids), one entry per repeat. */
  function Repeated(seen: set<NodeId>, ids: seq<NodeId>): seq<NodeId>
    decreases |ids|
  {
    if ids == [] then []
    else (if ids[0] in seen then [ids[0]] else []) + Repeated(seen + {ids[0]}, ids[1..])
  }

  /**
   * The parent-to-children entries recorded under e, in the order they are
   * set (a node's own entry after those below it; a later set wins).
   */
  function ChildEntries(e: Element): ToChildren
  {
    match e
    case Other(_) => map[]
    case TreeNode(id, _, has, kids) =>
      if !has then map[] else ChildEntriesAll(kids)[id := KidIds(kids)]
  }

  function ChildEntriesAll(es: seq<Element>): ToChildren
  {
    if es == [] then map[] else ChildEntries(es[0]) + ChildEntriesAll(es[1..])
  }

  /** Every id of ids mapped to p, set one after another. */
  function ParentsOf(ids: seq<NodeId>, p: NodeId): ToParent
  {
    if ids == [] then map[] else ParentsOf(ids[..|ids| - 1], p)[ids[|ids| - 1] := p]
  }

  /** The child-to-parent entries recorded under e, in the order they are set. */
  function ParentEntries(e: Element): ToParent
  {
    match e
    case Other(_) => map[]
    case TreeNode(id, _, has, kids) =>
      if !has then map[] else ParentEntriesAll(kids) + ParentsOf(KidIds(kids), id)
  }

  function ParentEntriesAll(es: seq<Element>): ToParent
  {
    if es == [] then map[] else ParentEntries(es[0]) + ParentEntriesAll(es[1..])
  }

  // ---------------------------------------------------------------------------
  // Algebra of the recorded entries
  // ---------------------------------------------------------------------------

  lemma MapAssoc<K, V>(x: map<K, V>, y: map<K, V>, z: map<K, V>)
    ensures (x + y) + z == x + (y + z)
  {
  }

  lemma MapEmpty<K, V>(x: map<K, V>)
    ensures x + map[] == x && map[] + x == x
  {
  }

  lemma MapUpdate<K, V>(x: map<K, V>, y: map<K, V>, k: K, v: V)
    ensures x + y[k := v] == (x + y)[k := v]
  {
  }

  lemma {:induction false} MembersAllAppend(a: seq<Element>, b: seq<Element>)
    ensures MembersAll(a + b) == MembersAll(a) + MembersAll(b)
  {
    if a == [] {
      assert a + b == b;
    } else {
      assert (a + b)[1..] == a[1..] + b && (a + b)[0] == a[0];
      MembersAllAppend(a[1..], b);
    }
  }

  lemma {:induction false} ChildEntriesAllAppend(a: seq<Element>, b: seq<Element>)
    ensures ChildEntriesAll(a + b) == ChildEntriesAll(a) + ChildEntriesAll(b)
  {
    if a == [] {
      assert a + b == b;
      MapEmpty(ChildEntriesAll(b));
    } else {
      assert (a + b)[1..] == a[1..] + b && (a + b)[0] == a[0];
      ChildEntriesAllAppend(a[1..], b);
      MapAssoc(ChildEntries(a[0]), ChildEntriesAll(a[1..]), ChildEntriesAll(b));
    }
  }

  lemma {:induction false} ParentEntriesAllAppend(a: seq<Element>, b: seq<Element>)
    ensures ParentEntriesAll(a + b) == ParentEntriesAll(a) + ParentEntriesAll(b)
  {
    if a == [] {
      assert a + b == b;
      MapEmpty(ParentEntriesAll(b));
    } else {
      assert (a + b)[1..] == a[1..] + b && (a + b)[0] == a[0];
      ParentEntriesAllAppend(a[1..], b);
      MapAssoc(ParentEntries(a[0]), ParentEntriesAll(a[1..]), ParentEntriesAll(b));
    }
  }

  lemma {:induction false} RepeatedAppend(seen: set<NodeId>, a: seq<NodeId>, b: seq<NodeId>)
    ensures Repeated(seen, a + b) == Repeated(seen, a) + Repeated(seen + Elems(a), b)
    decreases |a|
  {
    if a == [] {
      assert a + b == b;
      assert seen + Elems(a) == seen;
    } else {
      var head := if a[0] in seen then [a[0]] else [];
      assert (a + b)[1..] == a[1..] + b && (a + b)[0] == a[0];
      assert Repeated(seen, a + b) == head + Repeated(seen + {a[0]}, a[1..] + b);
      RepeatedAppend(seen + {a[0]}, a[1..], b);
      assert seen + {a[0]} + Elems(a[1..]) == seen + Elems(a);
    }
  }

  lemma {:induction false} IdsOfAppend(a: seq<Element>, b: seq<Element>)
    requires forall k :: 0 <= k < |a| ==> a[k].TreeNode?
    requires forall k :: 0 <= k < |b| ==> b[k].TreeNode?
    ensures IdsOf(a + b) == IdsOf(a) + IdsOf(b)
  {
  }

  /** One more child appended to the list extends what is recorded under the list. */
  lemma {:induction false} OneMoreChild(kids: seq<Element>, k: nat)
    requires k < |kids|
    ensures MembersAll(kids[..k + 1]) == MembersAll(kids[..k]) + Members(kids[k])
    ensures ChildEntriesAll(kids[..k + 1]) == ChildEntriesAll(kids[..k]) + ChildEntries(kids[k])
    ensures ParentEntriesAll(kids[..k + 1]) == ParentEntriesAll(kids[..k]) + ParentEntries(kids[k])
    ensures KidIds(kids[..k + 1]) == KidIds(kids[..k]) + (if kids[k].TreeNode? then [kids[k].id] else [])
  {
    var a, b := kids[..k], [kids[k]];
    assert kids[..k + 1] == a + b;
    OneMembers(kids[k]);
    MembersAllAppend(a, b);
    OneChildEntries(kids[k]);
    ChildEntriesAllAppend(a, b);
    OneParentEntries(kids[k]);
    ParentEntriesAllAppend(a, b);
    OneKidIds(a, kids[k]);
  }

  lemma {:induction false} OneMembers(e: Element)
    ensures MembersAll([e]) == Members(e)
  {
    assert [e][1..] == [];
  }

  lemma {:induction false} OneChildEntries(e: Element)
    ensures ChildEntriesAll([e]) == ChildEntries(e)
  {
    assert [e][1..] == [];
    MapEmpty(ChildEntries(e));
  }

  lemma {:induction false} OneParentEntries(e: Element)
    ensures ParentEntriesAll([e]) == ParentEntries(e)
  {
    assert [e][1..] == [];
    MapEmpty(ParentEntries(e));
  }

  lemma {:induction false} OneKidIds(a: seq<Element>, e: Element)
    ensures KidIds(a + [e]) == KidIds(a) + (if e.TreeNode? then [e.id] else [])
  {
    TreeKidsAppend(a, [e]);
    assert [e][1..] == [];
    assert TreeKids([e]) == (if e.TreeNode? then [e] else []);
  }

  lemma {:induction false} TreeKidsAppend(a: seq<Element>, b: seq<Element>)
    ensures TreeKids(a + b) == TreeKids(a) + TreeKids(b)
  {
    if a == [] {
      assert a + b == b;
    } else {
      assert (a + b)[1..] == a[1..] + b && (a + b)[0] == a[0];
      TreeKidsAppend(a[1..], b);
    }
  }

  // ---------------------------------------------------------------------------
  // The builder
  // ---------------------------------------------------------------------------

  /** The builder's state: the two maps, the ids seen and the duplicates reported. */
  datatype Index = Index(toChildren: ToChildren, toParent: ToParent, idSet: set<NodeId>, duplicates: seq<NodeId>)

  /** What visiting e on top of st leaves. */
  function After(st: Index, e: Element): Index
  {
    Index(st.toChildren + ChildEntries(e), st.toParent + ParentEntries(e),
      st.idSet + Elems(Visited(e)), st.duplicates + Repeated(st.idSet, Visited(e)))
  }

  /** What visiting each of es in turn on top of st leaves. */
  function AfterAll(st: Index, es: seq<Element>): Index
  {
    Index(st.toChildren + ChildEntriesAll(es), st.toParent + ParentEntriesAll(es),
      st.idSet + Elems(VisitedAll(es)), st.duplicates + Repeated(st.idSet, VisitedAll(es)))
  }

  /** Visiting one more element extends AfterAll. */
  lemma {:induction false} AfterAllStep(st: Index, es: seq<Element>, k: nat)
    requires k < |es|
    ensures After(AfterAll(st, es[..k]), es[k]) == AfterAll(st, es[..k + 1])
  {
    OneMoreChild(es, k);
    MapAssoc(st.toChildren, ChildEntriesAll(es[..k]), ChildEntries(es[k]));
    MapAssoc(st.toParent, ParentEntriesAll(es[..k]), ParentEntries(es[k]));
    var va, vb := VisitedAll(es[..k]), Visited(es[k]);
    IdsOfAppend(MembersAll(es[..k]), Members(es[k]));
    RepeatedAppend(st.idSet, va, vb);
    ElemsAppend(va, vb);
    SeqAssoc(st.duplicates, Repeated(st.idSet, va), Repeated(st.idSet + Elems(va), vb));
  }

  lemma ElemsAppend(a: seq<NodeId>, b: seq<NodeId>)
    ensures Elems(a + b) == Elems(a) + Elems(b)
  {
  }

  lemma SeqAssoc<T>(a: seq<T>, b: seq<T>, c: seq<T>)
    ensures (a + b) + c == a + (b + c)
  {
  }

  /** Visit one tree node: check its id, then index its children when the prop is present. */
  method IndexNode(child: Element, st: Index) returns (r: Index)
    requires child.TreeNode?
    ensures r == After(st, child)
    decreases child, 1
  {
    var nodeId := child.id;
    r := st;
    if nodeId in r.idSet {
      r := r.(duplicates := r.duplicates + [nodeId]);
    } else {
      r := r.(idSet := r.idSet + {nodeId});
    }
    var st1 := r;
    assert st1.idSet == st.idSet + Elems([nodeId]);
    assert st1.duplicates == st.duplicates + Repeated(st.idSet, [nodeId]);
    if !child.hasChildren {
      LeafAfter(st, child);
      return;
    }
    var visited, ids := IndexKids(child, st1);
    var toParent := LinkParents(visited.toParent, ids, nodeId);
    r := Index(visited.toChildren[nodeId := ids], toParent, visited.idSet, visited.duplicates);
    NodeAfter(st, st1, child, visited);
  }

  /** Visit the children of parent in order, collecting the ids of the tree nodes among them. */
  method IndexKids(parent: Element, st: Index) returns (r: Index, ids: seq<NodeId>)
    requires parent.TreeNode?
    ensures r == AfterAll(st, parent.children) && ids == KidIds(parent.children)
    decreases parent, 0
  {
    var kids := parent.children;
    r := st;
    ids := [];
    var k := 0;
    assert kids[..0] == [];
    NothingYet(st);
    while k < |kids|
      invariant 0 <= k <= |kids|
      invariant r == AfterAll(st, kids[..k])
      invariant ids == KidIds(kids[..k])
    {
      var v := kids[k];
      ghost var prev := r;
      if v.TreeNode? {
        ids := ids + [v.id];
        r := IndexNode(v, r);
      } else {
        SkipOther(r, v);
      }
      assert r == After(prev, v);
      AfterAllStep(st, kids, k);
      assert kids[..k + 1] == kids[..k] + [v];
      OneKidIds(kids[..k], v);
      k := k + 1;
    }
    assert kids[..k] == kids;
  }

  /** Record p as the parent of every id of ids, one after another. */
  method LinkParents(toParent: ToParent, ids: seq<NodeId>, p: NodeId) returns (r: ToParent)
    ensures r == toParent + ParentsOf(ids, p)
  {
    r := toParent;
    var j := 0;
    MapEmpty(toParent);
    while j < |ids|
      invariant 0 <= j <= |ids|
      invariant r == toParent + ParentsOf(ids[..j], p)
    {
      assert ids[..j + 1][..j] == ids[..j];
      MapUpdate(toParent, ParentsOf(ids[..j], p), ids[j], p);
      r := r[ids[j] := p];
      j := j + 1;
    }
    assert ids[..j] == ids;
  }

  /** The state IndexNode builds from its pieces is After(st, child). */
  lemma {:induction false} NodeAfter(st: Index, st1: Index, child: Element, visited: Index)
    requires child.TreeNode? && child.hasChildren
    requires st1.toChildren == st.toChildren && st1.toParent == st.toParent
    requires st1.idSet == st.idSet + Elems([child.id])
    requires st1.duplicates == st.duplicates + Repeated(st.idSet, [child.id])
    requires visited == AfterAll(st1, child.children)
    ensures After(st, child) == Index(
      visited.toChildren[child.id := KidIds(child.children)],
      visited.toParent + ParentsOf(KidIds(child.children), child.id),
      visited.idSet, visited.duplicates)
  {
    var kids := child.children;
    assert Members(child) == [child] + MembersAll(kids);
    IdsOfAppend([child], MembersAll(kids));
    assert Visited(child) == [child.id] + VisitedAll(kids);
    RepeatedAppend(st.idSet, [child.id], VisitedAll(kids));
    ElemsAppend([child.id], VisitedAll(kids));
    SeqAssoc(st.duplicates, Repeated(st.idSet, [child.id]), Repeated(st1.idSet, VisitedAll(kids)));
    MapUpdate(st.toChildren, ChildEntriesAll(kids), child.id, KidIds(kids));
    MapAssoc(st.toParent, ParentEntriesAll(kids), ParentsOf(KidIds(kids), child.id));
  }

  /** A leaf visit records nothing but its own id. */
  lemma {:induction false} LeafAfter(st: Index, child: Element)
    requires child.TreeNode? && !child.hasChildren
    ensures After(st, child) == Index(st.toChildren, st.toParent, st.idSet + Elems([child.id]),
      st.duplicates + Repeated(st.idSet, [child.id]))
  {
    assert Members(child) == [child];
    assert Visited(child) == [child.id];
    MapEmpty(st.toChildren);
    MapEmpty(st.toParent);
  }

  /** A child that is not a tree node is skipped. */
  lemma {:induction false} SkipOther(st: Index, e: Element)
    requires !e.TreeNode?
    ensures After(st, e) == st
  {
    assert Visited(e) == [];
    assert Elems([]) == {};
    MapEmpty(st.toChildren);
    MapEmpty(st.toParent);
  }

  /** Visiting nothing leaves the state as it is. */
  lemma {:induction false} NothingYet(st: Index)
    ensures AfterAll(st, []) == st
  {
    assert VisitedAll([]) == [];
    assert Elems([]) == {};
    MapEmpty(st.toChildren);
    MapEmpty(st.toParent);
  }

  /** The relation maps of a forest, with the duplicate ids in the order they are met. */
  method BuildRelations(children: seq<Element>) returns (toChildren: ToChildren, toParent: ToParent, duplicates: seq<NodeId>)
    ensures toChildren == ChildEntriesAll(children) && toParent == ParentEntriesAll(children)
    ensures duplicates == Repeated({}, VisitedAll(children))
  {
    var st0 := Index(map[], map[], {}, []);
    var st := st0;
    var k := 0;
    assert children[..0] == [];
    NothingYet(st0);
    while k < |children|
      invariant 0 <= k <= |children|
      invariant st == AfterAll(st0, children[..k])
    {
      AfterAllStep(st0, children, k);
      if children[k].TreeNode? {
        st := IndexNode(children[k], st);
      } else {
        SkipOther(st, children[k]);
      }
      k := k + 1;
    }
    assert children[..k] == children;
    MapEmpty(ChildEntriesAll(children));
    MapEmpty(ParentEntriesAll(children));
    toChildren, toParent, duplicates := st.toChildren, st.toParent, st.duplicates;
  }

  // ---------------------------------------------------------------------------
  // Transitive queries
  // ---------------------------------------------------------------------------

  /**
   * R witnesses that the children map has no cycle: every listed parent is
   * ranked, and a child that is itself listed ranks below its parent.
   */
  ghost predicate DownRanked(toChildren: ToChildren, rank: map<NodeId, nat>)
  {
    (forall p :: p in toChildren ==> p in rank) &&
    (forall p, c :: p in toChildren && c in toChildren[p] && c in toChildren ==> rank[c] < rank[p])
  }

  /**
   * D witnesses that the parent map has no cycle: every listed child is
   * ranked, and a parent that is itself listed ranks below its child.
   */
  ghost predicate UpRanked(toParent: ToParent, depth: map<NodeId, nat>)
  {
    (forall c :: c in toParent ==> c in depth) &&
    (forall c :: c in toParent && toParent[c] in toParent ==> depth[toParent[c]] < depth[c])
  }

  /** Each id of vs, followed by every id below it, in order. */
  function ChildIdsAll(vs: seq<NodeId>, toChildren: ToChildren, ghost rank: map<NodeId, nat>, ghost bound: nat): (r: seq<NodeId>)
    requires DownRanked(toChildren, rank)
    requires forall v :: v in vs && v in toChildren ==> rank[v] < bound
    ensures forall v :: v in vs ==> v in r
    ensures vs != [] ==> r != [] && r[0] == vs[0]
    decreases bound, |vs|
  {
    if vs == [] then []
    else
      var v := vs[0];
      var below := if v in toChildren then ChildIdsAll(toChildren[v], toChildren, rank, rank[v]) else [];
      [v] + below + ChildIdsAll(vs[1..], toChildren, rank, bound)
  }

  /**
   * Every id below parentId in pre-order, parentId itself excluded: empty for
   * an id the map does not list; otherwise it starts with the first listed
   * child and holds every listed child.
   */
  function ChildIds(parentId: NodeId, toChildren: ToChildren, ghost rank: map<NodeId, nat>): (r: seq<NodeId>)
    requires DownRanked(toChildren, rank)
    ensures parentId !in toChildren ==> r == []
    ensures parentId in toChildren ==> (r == [] <==> toChildren[parentId] == [])
    ensures parentId in toChildren ==> forall c :: c in toChildren[parentId] ==> c in r
  {
    if parentId in toChildren then ChildIdsAll(toChildren[parentId], toChildren, rank, rank[parentId]) else []
  }

  /**
   * The chain of parents of childId, nearest first: empty exactly when the
   * map has no parent for it; each entry is the parent of the one before; the
   * last one has no parent of its own.
   */
  function ParentIds(childId: NodeId, toParent: ToParent, ghost depth: map<NodeId, nat>): (r: seq<NodeId>)
    requires UpRanked(toParent, depth)
    ensures r == [] <==> childId !in toParent
    ensures childId in toParent ==> r[0] == toParent[childId]
    ensures forall k :: 0 <= k < |r| - 1 ==> r[k] in toParent && r[k + 1] == toParent[r[k]]
    ensures r != [] ==> r[|r| - 1] !in toParent
    decreases if childId in toParent then depth[childId] + 1 else 0
  {
    if childId in toParent then [toParent[childId]] + ParentIds(toParent[childId], toParent, depth) else []
  }

  /** The two maps describe the same parent-child pairs. */
  ghost predicate Consistent(toChildren: ToChildren, toParent: ToParent)
  {
    (forall p, c :: p in toChildren && c in toChildren[p] ==> c in toParent && toParent[c] == p) &&
    (forall c :: c in toParent ==> toParent[c] in toChildren && c in toChildren[toParent[c]])
  }

  /** An ancestor's ancestor is in the chain too. */
  lemma {:induction false} ParentIdsClosed(x: NodeId, y: NodeId, toParent: ToParent, depth: map<NodeId, nat>)
    requires UpRanked(toParent, depth)
    requires y in ParentIds(x, toParent, depth) && y in toParent
    ensures toParent[y] in ParentIds(x, toParent, depth)
  {
    var r := ParentIds(x, toParent, depth);
    var k :| 0 <= k < |r| && r[k] == y;
    if k == |r| - 1 {
      assert false;
    } else {
      assert r[k + 1] == toParent[y];
    }
  }

  /** The ids below an id listed in ChildIdsAll are listed too. */
  lemma {:induction false} ChildIdsAllClosed(vs: seq<NodeId>, toChildren: ToChildren, rank: map<NodeId, nat>, bound: nat, y: NodeId, x: NodeId)
    requires DownRanked(toChildren, rank)
    requires forall v :: v in vs && v in toChildren ==> rank[v] < bound
    requires y in ChildIdsAll(vs, toChildren, rank, bound) && x in ChildIds(y, toChildren, rank)
    ensures x in ChildIdsAll(vs, toChildren, rank, bound)
    decreases bound, |vs|
  {
    var v := vs[0];
    var below := if v in toChildren then ChildIdsAll(toChildren[v], toChildren, rank, rank[v]) else [];
    var rest := ChildIdsAll(vs[1..], toChildren, rank, bound);
    assert ChildIdsAll(vs, toChildren, rank, bound) == [v] + below + rest;
    if y == v {
      assert x in below;
    } else if y in below {
      ChildIdsAllClosed(toChildren[v], toChildren, rank, rank[v], y, x);
    } else {
      ChildIdsAllClosed(vs[1..], toChildren, rank, bound, y, x);
    }
  }

  /** An id below some children of p has p among its parents. */
  lemma {:induction false} BelowHasParent(vs: seq<NodeId>, p: NodeId, toChildren: ToChildren, toParent: ToParent,
      rank: map<NodeId, nat>, bound: nat, depth: map<NodeId, nat>, x: NodeId)
    requires Consistent(toChildren, toParent) && DownRanked(toChildren, rank) && UpRanked(toParent, depth)
    requires forall v :: v in vs && v in toChildren ==> rank[v] < bound
    requires forall v :: v in vs ==> v in toParent && toParent[v] == p
    requires x in ChildIdsAll(vs, toChildren, rank, bound)
    ensures p in ParentIds(x, toParent, depth)
    decreases bound, |vs|
  {
    var v := vs[0];
    var below := if v in toChildren then ChildIdsAll(toChildren[v], toChildren, rank, rank[v]) else [];
    var rest := ChildIdsAll(vs[1..], toChildren, rank, bound);
    assert ChildIdsAll(vs, toChildren, rank, bound) == [v] + below + rest;
    if x == v {
      assert ParentIds(x, toParent, depth)[0] == p;
    } else if x in below {
      BelowHasParent(toChildren[v], v, toChildren, toParent, rank, rank[v], depth, x);
      ParentIdsClosed(x, v, toParent, depth);
    } else {
      BelowHasParent(vs[1..], p, toChildren, toParent, rank, bound, depth, x);
    }
  }

  /** An id with p among its parents is below p. */
  lemma {:induction false} AboveHasChild(p: NodeId, toChildren: ToChildren, toParent: ToParent,
      rank: map<NodeId, nat>, depth: map<NodeId, nat>, x: NodeId)
    requires Consistent(toChildren, toParent) && DownRanked(toChildren, rank) && UpRanked(toParent, depth)
    requires p in ParentIds(x, toParent, depth)
    ensures x in ChildIds(p, toChildren, rank)
    decreases if x in toParent then depth[x] + 1 else 0
  {
    var q := toParent[x];
    assert x in toChildren[q];
    if q != p {
      AboveHasChild(p, toChildren, toParent, rank, depth, q);
      ChildIdsAllClosed(toChildren[p], toChildren, rank, rank[p], q, x);
    }
  }

  /** With consistent, acyclic maps, x is below p exactly when p is among x's parents. */
  lemma {:induction false} ChildParentInverse(p: NodeId, x: NodeId, toChildren: ToChildren, toParent: ToParent,
      rank: map<NodeId, nat>, depth: map<NodeId, nat>)
    requires Consistent(toChildren, toParent) && DownRanked(toChildren, rank) && UpRanked(toParent, depth)
    ensures x in ChildIds(p, toChildren, rank) <==> p in ParentIds(x, toParent, depth)
  {
    if x in ChildIds(p, toChildren, rank) {
      BelowHasParent(toChildren[p], p, toChildren, toParent, rank, rank[p], depth, x);
    }
    if p in ParentIds(x, toParent, depth) {
      AboveHasChild(p, toChildren, toParent, rank, depth, x);
    }
  }
}
