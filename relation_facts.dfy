/**
 * What the relation maps built from a nested tree hold: with unique ids, the
 * listed children and parents of every node, no parent for a top-level node,
 * consistency of the two maps, ranks that make the transitive queries
 * terminate, the descendant query as the pre-order visit below a node, and
 * the inverse relation of the two queries. Without unique ids: which entry
 * wins and which ids are reported.
 */
module RelationFacts {
  import opened TreeTypes
  import opened TreeUtils
  import opened RelationMap

  // ---------------------------------------------------------------------------
  // Shape of the visit
  // ---------------------------------------------------------------------------

  lemma {:induction false} VisitedUnfold(e: Element)
    requires e.TreeNode?
    ensures Visited(e) == [e.id] + (if e.hasChildren then VisitedAll(e.children) else [])
  {
    if e.hasChildren {
      IdsOfAppend([e], MembersAll(e.children));
    } else {
      assert Members(e) == [e];
    }
  }

  lemma {:induction false} VisitedAllUnfold(es: seq<Element>)
    requires es != []
    ensures VisitedAll(es) == Visited(es[0]) + VisitedAll(es[1..])
  {
    IdsOfAppend(Members(es[0]), MembersAll(es[1..]));
  }

  /** A sequence of distinct ids splits into two distinct, disjoint halves. */
  lemma {:induction false} DistinctSplit(a: seq<NodeId>, b: seq<NodeId>)
    requires Distinct(a + b)
    ensures Distinct(a) && Distinct(b)
    ensures forall x :: x in a ==> x !in b
  {
    forall i, j | 0 <= i < |a| && 0 <= j < |b| ensures a[i] != b[j] {
      assert (a + b)[i] == a[i] && (a + b)[|a| + j] == b[j];
    }
    forall i, j | 0 <= i < j < |a| ensures a[i] != a[j] {
      assert (a + b)[i] == a[i] && (a + b)[j] == a[j];
    }
    forall i, j | 0 <= i < j < |b| ensures b[i] != b[j] {
      assert (a + b)[|a| + i] == b[i] && (a + b)[|a| + j] == b[j];
    }
  }

  /** The id of a visited member is visited. */
  lemma {:induction false} MemberId(ms: seq<Element>, m: Element)
    requires forall k :: 0 <= k < |ms| ==> ms[k].TreeNode?
    requires m in ms
    ensures m.id in IdsOf(ms)
  {
    var i :| 0 <= i < |ms| && ms[i] == m;
    assert IdsOf(ms)[i] == m.id;
  }

  /** A visited id belongs to a visited member. */
  lemma {:induction false} IdMember(ms: seq<Element>, x: NodeId) returns (m: Element)
    requires forall k :: 0 <= k < |ms| ==> ms[k].TreeNode?
    requires x in IdsOf(ms)
    ensures m in ms && m.id == x
  {
    var i :| 0 <= i < |ms| && IdsOf(ms)[i] == x;
    m := ms[i];
  }

  /** The ids of three blocks of members, block by block. */
  lemma {:induction false} IdsOfBlocks(pre: seq<Element>, mid: seq<Element>, post: seq<Element>)
    requires forall k :: 0 <= k < |pre + mid + post| ==> (pre + mid + post)[k].TreeNode?
    ensures forall k :: 0 <= k < |pre| ==> pre[k].TreeNode?
    ensures forall k :: 0 <= k < |mid| ==> mid[k].TreeNode?
    ensures forall k :: 0 <= k < |post| ==> post[k].TreeNode?
    ensures IdsOf(pre + mid + post) == IdsOf(pre) + IdsOf(mid) + IdsOf(post)
  {
    var all := pre + mid + post;
    assert forall k :: 0 <= k < |pre + mid| ==> all[k] == (pre + mid)[k];
    assert forall k :: 0 <= k < |post| ==> all[|pre| + |mid| + k] == post[k];
    assert forall k :: 0 <= k < |pre| ==> (pre + mid)[k] == pre[k];
    assert forall k :: 0 <= k < |mid| ==> (pre + mid)[|pre| + k] == mid[k];
    IdsOfAppend(pre, mid);
    IdsOfAppend(pre + mid, post);
  }

  /** With unique visited ids, two members with one id are one member. */
  lemma {:induction false} SameIdSameMember(ms: seq<Element>, m1: Element, m2: Element)
    requires forall k :: 0 <= k < |ms| ==> ms[k].TreeNode?
    requires Distinct(IdsOf(ms)) && m1 in ms && m2 in ms && m1.id == m2.id
    ensures m1 == m2
  {
    var i :| 0 <= i < |ms| && ms[i] == m1;
    var j :| 0 <= j < |ms| && ms[j] == m2;
    assert IdsOf(ms)[i] == IdsOf(ms)[j];
  }

  /** What is visited under es[j] is a block of what is visited under es. */
  lemma {:induction false} MembersAllAt(es: seq<Element>, j: nat) returns (pre: seq<Element>, post: seq<Element>)
    requires j < |es|
    ensures MembersAll(es) == pre + Members(es[j]) + post
    decreases j
  {
    if j == 0 {
      pre, post := [], MembersAll(es[1..]);
    } else {
      var p, q := MembersAllAt(es[1..], j - 1);
      pre, post := Members(es[0]) + p, q;
    }
  }

  /** What is visited under a member m of e is a block of what is visited under e. */
  lemma {:induction false} MembersInfix(e: Element, m: Element) returns (pre: seq<Element>, post: seq<Element>)
    requires m in Members(e)
    ensures Members(e) == pre + Members(m) + post
    decreases e
  {
    if m == e {
      pre, post := [], [];
    } else {
      assert e.TreeNode? && e.hasChildren && Members(e) == [e] + MembersAll(e.children);
      var p, q := MembersAllInfix(e.children, m);
      SeqAssoc([e], p + Members(m), q);
      SeqAssoc([e], p, Members(m));
      pre, post := [e] + p, q;
    }
  }

  lemma {:induction false} MembersAllInfix(es: seq<Element>, m: Element) returns (pre: seq<Element>, post: seq<Element>)
    requires m in MembersAll(es)
    ensures MembersAll(es) == pre + Members(m) + post
    decreases es
  {
    var head, rest := Members(es[0]), MembersAll(es[1..]);
    assert MembersAll(es) == head + rest;
    if m in head {
      var p, q := MembersInfix(es[0], m);
      SeqAssoc(p + Members(m), q, rest);
      pre, post := p, q + rest;
    } else {
      var p, q := MembersAllInfix(es[1..], m);
      SeqAssoc(head, p + Members(m), q);
      SeqAssoc(head, p, Members(m));
      pre, post := head + p, q;
    }
  }

  /** Members of a member are members. */
  lemma {:induction false} MemberOfMember(es: seq<Element>, m: Element, k: Element)
    requires m in MembersAll(es) && k in Members(m)
    ensures k in MembersAll(es)
  {
    var pre, post := MembersAllInfix(es, m);
    assert MembersAll(es)[|pre| ..][.. |Members(m)|] == Members(m);
  }

  /** A tree-node child of a node whose children prop is present is one of its members. */
  lemma {:induction false} KidMember(m: Element, k: Element)
    requires m.TreeNode? && m.hasChildren && k in TreeKids(m.children)
    ensures k in Members(m)
  {
    assert k in m.children;
    var j :| 0 <= j < |m.children| && m.children[j] == k;
    var pre, post := MembersAllAt(m.children, j);
    assert Members(k)[0] == k;
    assert (pre + Members(k) + post)[|pre|] == k;
  }

  /** The id of a tree-node child is visited under the children. */
  lemma {:induction false} KidVisited(kids: seq<Element>, c: NodeId) returns (k: Element)
    requires c in KidIds(kids)
    ensures k in TreeKids(kids) && k.id == c && c in VisitedAll(kids)
  {
    var ts := TreeKids(kids);
    var i :| 0 <= i < |ts| && KidIds(kids)[i] == c;
    k := ts[i];
    assert k in kids;
    var j :| 0 <= j < |kids| && kids[j] == k;
    var pre, post := MembersAllAt(kids, j);
    assert (pre + Members(k) + post)[|pre|] == k;
    MemberId(MembersAll(kids), k);
  }

  /** Visited ids of a block, as a block of visited ids. */
  lemma {:induction false} VisitedInfix(es: seq<Element>, m: Element) returns (pre: seq<NodeId>, post: seq<NodeId>)
    requires m in MembersAll(es)
    ensures VisitedAll(es) == pre + Visited(m) + post
  {
    var p, q := MembersAllInfix(es, m);
    IdsOfBlocks(p, Members(m), q);
    pre, post := IdsOf(p), IdsOf(q);
  }

  // ---------------------------------------------------------------------------
  // The children map under unique ids
  // ---------------------------------------------------------------------------

  /** Every key of the children map is a member whose children prop is present. */
  lemma {:induction false} ChildKeyOwner(e: Element, k: NodeId) returns (m: Element)
    requires k in ChildEntries(e)
    ensures m in Members(e) && m.hasChildren && m.id == k
    decreases e
  {
    assert e.TreeNode? && e.hasChildren;
    if k == e.id {
      m := e;
    } else {
      m := ChildKeyOwnerAll(e.children, k);
    }
  }

  lemma {:induction false} ChildKeyOwnerAll(es: seq<Element>, k: NodeId) returns (m: Element)
    requires k in ChildEntriesAll(es)
    ensures m in MembersAll(es) && m.hasChildren && m.id == k
    decreases es
  {
    if k in ChildEntriesAll(es[1..]) {
      m := ChildKeyOwnerAll(es[1..], k);
    } else {
      m := ChildKeyOwner(es[0], k);
    }
  }

  /** Keys of the children map are visited ids. */
  lemma {:induction false} ChildKeyVisited(es: seq<Element>, k: NodeId)
    requires k in ChildEntriesAll(es)
    ensures k in VisitedAll(es)
  {
    var m := ChildKeyOwnerAll(es, k);
    MemberId(MembersAll(es), m);
  }

  /** With unique ids, a member whose children prop is present lists its tree-node children's ids. */
  lemma {:induction false} ChildValues(e: Element, m: Element)
    requires Distinct(Visited(e)) && m in Members(e) && m.hasChildren
    ensures m.id in ChildEntries(e) && ChildEntries(e)[m.id] == KidIds(m.children)
    decreases e
  {
    if m != e {
      VisitedUnfold(e);
      DistinctSplit([e.id], VisitedAll(e.children));
      ChildValuesAll(e.children, m);
      MemberId(MembersAll(e.children), m);
    }
  }

  lemma {:induction false} ChildValuesAll(es: seq<Element>, m: Element)
    requires Distinct(VisitedAll(es)) && m in MembersAll(es) && m.hasChildren
    ensures m.id in ChildEntriesAll(es) && ChildEntriesAll(es)[m.id] == KidIds(m.children)
    decreases es
  {
    VisitedAllUnfold(es);
    DistinctSplit(Visited(es[0]), VisitedAll(es[1..]));
    if m in Members(es[0]) {
      ChildValues(es[0], m);
      MemberId(Members(es[0]), m);
      if m.id in ChildEntriesAll(es[1..]) {
        ChildKeyVisited(es[1..], m.id);
        assert false;
      }
    } else {
      ChildValuesAll(es[1..], m);
    }
  }

  // ---------------------------------------------------------------------------
  // The parent map under unique ids
  // ---------------------------------------------------------------------------

  lemma {:induction false} ParentsOfKeys(ids: seq<NodeId>, p: NodeId, c: NodeId)
    ensures c in ParentsOf(ids, p) <==> c in ids
    ensures c in ids ==> ParentsOf(ids, p)[c] == p
    decreases |ids|
  {
    if ids != [] {
      var init := ids[..|ids| - 1];
      ParentsOfKeys(init, p, c);
      assert ids == init + [ids[|ids| - 1]];
    }
  }

  /** Every key of the parent map is visited strictly below a node whose children prop is present. */
  lemma {:induction false} ParentKeyBelow(e: Element, k: NodeId)
    requires k in ParentEntries(e)
    ensures e.TreeNode? && e.hasChildren && k in VisitedAll(e.children)
    decreases e
  {
    assert e.TreeNode? && e.hasChildren;
    var kids := e.children;
    ParentsOfKeys(KidIds(kids), e.id, k);
    if k in KidIds(kids) {
      var _ := KidVisited(kids, k);
    } else {
      var j := ParentKeyBelowAll(kids, k);
      var m := kids[j];
      var pre, post := MembersAllAt(kids, j);
      MemberOfMember(kids, m, m) by {
        assert (pre + Members(m) + post)[|pre|] == m;
      }
      var vp, vq := VisitedInfix(kids, m);
      VisitedUnfold(m);
    }
  }

  lemma {:induction false} ParentKeyBelowAll(es: seq<Element>, k: NodeId) returns (j: nat)
    requires k in ParentEntriesAll(es)
    ensures j < |es| && es[j].TreeNode? && es[j].hasChildren && k in VisitedAll(es[j].children)
    decreases es
  {
    if k in ParentEntriesAll(es[1..]) {
      var i := ParentKeyBelowAll(es[1..], k);
      j := i + 1;
    } else {
      ParentKeyBelow(es[0], k);
      j := 0;
    }
  }

  /** Keys of the parent map are visited ids. */
  lemma {:induction false} ParentKeyVisited(e: Element, k: NodeId)
    requires k in ParentEntries(e)
    ensures k in Visited(e)
  {
    ParentKeyBelow(e, k);
    VisitedUnfold(e);
  }

  /** The ids visited under es[j] are visited under es. */
  lemma {:induction false} BlockInVisited(es: seq<Element>, j: nat)
    requires j < |es|
    ensures forall y :: y in Visited(es[j]) ==> y in VisitedAll(es)
  {
    var pre, post := MembersAllAt(es, j);
    IdsOfBlocks(pre, Members(es[j]), post);
    forall y | y in Visited(es[j]) ensures y in VisitedAll(es) {
      var t :| 0 <= t < |Visited(es[j])| && Visited(es[j])[t] == y;
      assert VisitedAll(es)[|IdsOf(pre)| + t] == y;
    }
  }

  /** With unique ids, two different blocks of the visit share no id. */
  lemma {:induction false} BlocksDisjoint(es: seq<Element>, i: nat, j: nat, x: NodeId)
    requires Distinct(VisitedAll(es)) && i < |es| && j < |es| && i != j
    requires x in Visited(es[i])
    ensures x !in Visited(es[j])
    decreases |es|
  {
    VisitedAllUnfold(es);
    DistinctSplit(Visited(es[0]), VisitedAll(es[1..]));
    if i == 0 {
      BlockInVisited(es[1..], j - 1);
    } else if j == 0 {
      BlockInVisited(es[1..], i - 1);
    } else {
      BlocksDisjoint(es[1..], i - 1, j - 1, x);
    }
  }

  /** With unique ids, a top-level node has no entry in the parent map. */
  lemma {:induction false} NoTopParent(es: seq<Element>, i: nat)
    requires Distinct(VisitedAll(es)) && i < |es| && es[i].TreeNode?
    ensures es[i].id !in ParentEntriesAll(es)
  {
    var t := es[i];
    if t.id in ParentEntriesAll(es) {
      var j := ParentKeyBelowAll(es, t.id);
      VisitedUnfold(t);
      VisitedUnfold(es[j]);
      if i == j {
        var pre, post := MembersAllAt(es, i);
        IdsOfBlocks(pre, Members(t), post);
        DistinctSplit(IdsOf(pre) + Visited(t), IdsOf(post));
        DistinctSplit(IdsOf(pre), Visited(t));
        DistinctSplit([t.id], VisitedAll(t.children));
      } else {
        BlocksDisjoint(es, i, j, t.id);
      }
    }
  }

  /** With unique ids, the tree-node children of a node with a children prop map to it. */
  lemma {:induction false} ParentValues(e: Element, m: Element, c: NodeId)
    requires Distinct(Visited(e)) && m in Members(e) && m.hasChildren && c in KidIds(m.children)
    ensures c in ParentEntries(e) && ParentEntries(e)[c] == m.id
    decreases e
  {
    var kids := e.children;
    ParentsOfKeys(KidIds(kids), e.id, c);
    if m != e {
      VisitedUnfold(e);
      DistinctSplit([e.id], VisitedAll(kids));
      ParentValuesAll(kids, m, c);
      if c in KidIds(kids) {
        var k := KidVisited(kids, c);
        var i :| 0 <= i < |kids| && kids[i] == k;
        NoTopParent(kids, i);
        assert false;
      }
    }
  }

  lemma {:induction false} ParentValuesAll(es: seq<Element>, m: Element, c: NodeId)
    requires Distinct(VisitedAll(es)) && m in MembersAll(es) && m.hasChildren && c in KidIds(m.children)
    ensures c in ParentEntriesAll(es) && ParentEntriesAll(es)[c] == m.id
    decreases es
  {
    VisitedAllUnfold(es);
    DistinctSplit(Visited(es[0]), VisitedAll(es[1..]));
    if m in Members(es[0]) {
      ParentValues(es[0], m, c);
      ParentKeyVisited(es[0], c);
      if c in ParentEntriesAll(es[1..]) {
        var j := ParentKeyBelowAll(es[1..], c);
        var top := es[1..][j];
        var pre, post := MembersAllAt(es[1..], j);
        MemberOfMember(es[1..], top, top) by {
          assert (pre + Members(top) + post)[|pre|] == top;
        }
        var vp, vq := VisitedInfix(es[1..], top);
        VisitedUnfold(top);
        assert false;
      }
    } else {
      ParentValuesAll(es[1..], m, c);
    }
  }

  /** Every key of the parent map is a tree-node child of a member whose children prop is present. */
  lemma {:induction false} ParentKeyOwner(e: Element, k: NodeId) returns (m: Element)
    requires k in ParentEntries(e)
    ensures m in Members(e) && m.hasChildren && k in KidIds(m.children)
    decreases e
  {
    assert e.TreeNode? && e.hasChildren;
    ParentsOfKeys(KidIds(e.children), e.id, k);
    if k in KidIds(e.children) {
      m := e;
    } else {
      m := ParentKeyOwnerAll(e.children, k);
    }
  }

  lemma {:induction false} ParentKeyOwnerAll(es: seq<Element>, k: NodeId) returns (m: Element)
    requires k in ParentEntriesAll(es)
    ensures m in MembersAll(es) && m.hasChildren && k in KidIds(m.children)
    decreases es
  {
    if k in ParentEntriesAll(es[1..]) {
      m := ParentKeyOwnerAll(es[1..], k);
    } else {
      m := ParentKeyOwner(es[0], k);
    }
  }

  // ---------------------------------------------------------------------------
  // Built maps: consistency, ranks and the transitive queries
  // ---------------------------------------------------------------------------

  /** The first position of x in xs. */
  function IndexOf(xs: seq<NodeId>, x: NodeId): (r: nat)
    requires x in xs
    ensures r < |xs| && xs[r] == x && x !in xs[..r]
  {
    if xs[0] == x then 0 else 1 + IndexOf(xs[1..], x)
  }

  /** With distinct ids, the position of the id at t is t. */
  lemma {:induction false} IndexAt(xs: seq<NodeId>, t: nat)
    requires Distinct(xs) && t < |xs|
    ensures IndexOf(xs, xs[t]) == t
  {
    var r := IndexOf(xs, xs[t]);
    assert xs[r] == xs[t];
  }

  /** Rank of a listed parent: how far from the end of the visit it is met. */
  function Rank(es: seq<Element>): map<NodeId, nat>
  {
    var v := VisitedAll(es);
    map p | p in ChildEntriesAll(es) && p in v :: |v| - IndexOf(v, p)
  }

  /** Depth of a listed child: where in the visit it is met. */
  function Depth(es: seq<Element>): map<NodeId, nat>
  {
    var v := VisitedAll(es);
    map c | c in ParentEntriesAll(es) && c in v :: IndexOf(v, c)
  }

  /** With unique ids, a node is visited before each of its tree-node children. */
  lemma {:induction false} ParentBefore(es: seq<Element>, m: Element, c: NodeId)
    requires Distinct(VisitedAll(es)) && m in MembersAll(es) && m.hasChildren && c in KidIds(m.children)
    ensures m.id in VisitedAll(es) && c in VisitedAll(es)
    ensures IndexOf(VisitedAll(es), m.id) < IndexOf(VisitedAll(es), c)
  {
    var pre, post := VisitedInfix(es, m);
    VisitedUnfold(m);
    var _ := KidVisited(m.children, c);
    var below := VisitedAll(m.children);
    var t :| 0 <= t < |below| && below[t] == c;
    InfixOrder(VisitedAll(es), pre, m.id, below, post, t);
  }

  /** In a list of distinct ids, an id comes before every id of the block that follows it. */
  lemma {:induction false} InfixOrder(v: seq<NodeId>, pre: seq<NodeId>, a: NodeId, mid: seq<NodeId>, post: seq<NodeId>, t: nat)
    requires Distinct(v) && v == pre + ([a] + mid) + post && t < |mid|
    ensures a in v && mid[t] in v && IndexOf(v, a) < IndexOf(v, mid[t])
  {
    assert v[|pre|] == a;
    assert v[|pre| + 1 + t] == mid[t];
    IndexAt(v, |pre|);
    IndexAt(v, |pre| + 1 + t);
  }

  /** With unique ids, the two built maps describe the same parent-child pairs. */
  lemma {:induction false} BuiltConsistent(es: seq<Element>)
    requires Distinct(VisitedAll(es))
    ensures Consistent(ChildEntriesAll(es), ParentEntriesAll(es))
  {
    var toChildren, toParent := ChildEntriesAll(es), ParentEntriesAll(es);
    forall p, c | p in toChildren && c in toChildren[p] ensures c in toParent && toParent[c] == p {
      var m := ChildKeyOwnerAll(es, p);
      ChildValuesAll(es, m);
      ParentValuesAll(es, m, c);
    }
    forall c | c in toParent ensures toParent[c] in toChildren && c in toChildren[toParent[c]] {
      var m := ParentKeyOwnerAll(es, c);
      ParentValuesAll(es, m, c);
      ChildValuesAll(es, m);
    }
  }

  /** With unique ids, the built children map has no cycle. */
  lemma {:induction false} BuiltDownRanked(es: seq<Element>)
    requires Distinct(VisitedAll(es))
    ensures DownRanked(ChildEntriesAll(es), Rank(es))
  {
    var toChildren, rank := ChildEntriesAll(es), Rank(es);
    forall p | p in toChildren ensures p in rank {
      ChildKeyVisited(es, p);
    }
    forall p, c | p in toChildren && c in toChildren[p] && c in toChildren ensures rank[c] < rank[p] {
      var m := ChildKeyOwnerAll(es, p);
      ChildValuesAll(es, m);
      ParentBefore(es, m, c);
    }
  }

  /** With unique ids, the built parent map has no cycle. */
  lemma {:induction false} BuiltUpRanked(es: seq<Element>)
    requires Distinct(VisitedAll(es))
    ensures UpRanked(ParentEntriesAll(es), Depth(es))
  {
    var toParent, depth := ParentEntriesAll(es), Depth(es);
    forall c | c in toParent ensures c in depth {
      var m := ParentKeyOwnerAll(es, c);
      ParentBefore(es, m, c);
    }
    forall c | c in toParent && toParent[c] in toParent ensures depth[toParent[c]] < depth[c] {
      var m := ParentKeyOwnerAll(es, c);
      ParentValuesAll(es, m, c);
      ParentBefore(es, m, c);
    }
  }

  lemma {:induction false} KidIdsUnfold(kids: seq<Element>)
    requires kids != []
    ensures KidIds(kids) == (if kids[0].TreeNode? then [kids[0].id] else []) + KidIds(kids[1..])
  {
  }

  /** The descendant listing of a non-empty id list: the first id, the ids below it, then the rest. */
  lemma {:induction false} ChildIdsAllCons(vs: seq<NodeId>, toChildren: ToChildren, rank: map<NodeId, nat>, bound: nat)
    requires DownRanked(toChildren, rank) && vs != []
    requires forall v :: v in vs && v in toChildren ==> rank[v] < bound
    ensures ChildIdsAll(vs, toChildren, rank, bound) ==
      [vs[0]] + ChildIds(vs[0], toChildren, rank) + ChildIdsAll(vs[1..], toChildren, rank, bound)
  {
  }

  /** With unique ids, the ids below the tree-node children of kids are exactly those visited under kids. */
  lemma {:induction false} KidsDescendants(es: seq<Element>, kids: seq<Element>, bound: nat)
    requires Distinct(VisitedAll(es)) && DownRanked(ChildEntriesAll(es), Rank(es))
    requires forall k :: k in TreeKids(kids) ==> k in MembersAll(es)
    requires forall v :: v in KidIds(kids) && v in ChildEntriesAll(es) ==> Rank(es)[v] < bound
    ensures ChildIdsAll(KidIds(kids), ChildEntriesAll(es), Rank(es), bound) == VisitedAll(kids)
    decreases kids, 1
  {
    var toChildren, rank := ChildEntriesAll(es), Rank(es);
    if kids != [] {
      var k := kids[0];
      VisitedAllUnfold(kids);
      KidIdsUnfold(kids);
      KidsDescendants(es, kids[1..], bound);
      var vs := KidIds(kids);
      if k.TreeNode? {
        assert vs[0] == k.id && vs[1..] == KidIds(kids[1..]);
        assert k in MembersAll(es);
        ChildIdsAllCons(vs, toChildren, rank, bound);
        KidDescendants(es, k);
        VisitedUnfold(k);
      } else {
        assert Members(k) == [];
        assert Visited(k) == [];
        assert vs == KidIds(kids[1..]);
        assert VisitedAll(kids) == VisitedAll(kids[1..]);
      }
    }
  }

  /** With unique ids, the ids below one visited tree node are exactly those visited under its children. */
  lemma {:induction false} KidDescendants(es: seq<Element>, k: Element)
    requires Distinct(VisitedAll(es)) && DownRanked(ChildEntriesAll(es), Rank(es))
    requires k.TreeNode? && k in MembersAll(es)
    ensures ChildIds(k.id, ChildEntriesAll(es), Rank(es)) == if k.hasChildren then VisitedAll(k.children) else []
    decreases k, 0
  {
    var toChildren, rank := ChildEntriesAll(es), Rank(es);
    if k.hasChildren {
      ChildValuesAll(es, k);
      forall t | t in TreeKids(k.children) ensures t in MembersAll(es) {
        KidMember(k, t);
        MemberOfMember(es, k, t);
      }
      KidsDescendants(es, k.children, rank[k.id]);
    } else if k.id in toChildren {
      var m := ChildKeyOwnerAll(es, k.id);
      SameIdSameMember(MembersAll(es), m, k);
      assert false;
    }
  }

  /**
   * With unique ids, the descendant query on a node whose children prop is
   * present returns every id visited below it, in pre-order.
   */
  lemma {:induction false} BuiltDescendants(es: seq<Element>, m: Element)
    requires Distinct(VisitedAll(es)) && m in MembersAll(es) && m.hasChildren
    ensures DownRanked(ChildEntriesAll(es), Rank(es))
    ensures ChildIds(m.id, ChildEntriesAll(es), Rank(es)) == VisitedAll(m.children)
  {
    BuiltDownRanked(es);
    ChildValuesAll(es, m);
    forall t | t in TreeKids(m.children) ensures t in MembersAll(es) {
      KidMember(m, t);
      MemberOfMember(es, m, t);
    }
    KidsDescendants(es, m.children, Rank(es)[m.id]);
  }

  /** With unique ids, x is below p in the built maps exactly when p is among x's parents. */
  lemma {:induction false} BuiltInverse(es: seq<Element>, p: NodeId, x: NodeId)
    requires Distinct(VisitedAll(es))
    ensures DownRanked(ChildEntriesAll(es), Rank(es)) && UpRanked(ParentEntriesAll(es), Depth(es))
    ensures x in ChildIds(p, ChildEntriesAll(es), Rank(es)) <==> p in ParentIds(x, ParentEntriesAll(es), Depth(es))
  {
    BuiltConsistent(es);
    BuiltDownRanked(es);
    BuiltUpRanked(es);
    ChildParentInverse(p, x, ChildEntriesAll(es), ParentEntriesAll(es), Rank(es), Depth(es));
  }

  /** With unique ids, a top-level node has no parents. */
  lemma {:induction false} BuiltRootHasNoParents(es: seq<Element>, i: nat)
    requires Distinct(VisitedAll(es)) && i < |es| && es[i].TreeNode?
    ensures UpRanked(ParentEntriesAll(es), Depth(es))
    ensures ParentIds(es[i].id, ParentEntriesAll(es), Depth(es)) == []
  {
    BuiltUpRanked(es);
    NoTopParent(es, i);
  }

  // ---------------------------------------------------------------------------
  // Repeated ids: which entry wins, which ids are reported
  // ---------------------------------------------------------------------------

  /** Entries recorded under later siblings override those of earlier ones. */
  lemma {:induction false} LaterSiblingWins(a: seq<Element>, b: seq<Element>, k: NodeId)
    ensures k in ChildEntriesAll(b) ==> k in ChildEntriesAll(a + b) && ChildEntriesAll(a + b)[k] == ChildEntriesAll(b)[k]
    ensures k in ParentEntriesAll(b) ==> k in ParentEntriesAll(a + b) && ParentEntriesAll(a + b)[k] == ParentEntriesAll(b)[k]
    ensures k !in ChildEntriesAll(b) ==> SameAt(ChildEntriesAll(a + b), ChildEntriesAll(a), k)
    ensures k !in ParentEntriesAll(b) ==> SameAt(ParentEntriesAll(a + b), ParentEntriesAll(a), k)
  {
    ChildEntriesAllAppend(a, b);
    ParentEntriesAllAppend(a, b);
  }

  /**
   * A node's own entries are recorded after everything below it, so they win
   * over entries of nodes below that carry a repeated id.
   */
  lemma {:induction false} OwnEntryWins(e: Element, c: NodeId)
    requires e.TreeNode? && e.hasChildren
    ensures e.id in ChildEntries(e) && ChildEntries(e)[e.id] == KidIds(e.children)
    ensures c in KidIds(e.children) ==> c in ParentEntries(e) && ParentEntries(e)[c] == e.id
  {
    ParentsOfKeys(KidIds(e.children), e.id, c);
  }

  lemma {:induction false} DistinctCons(h: NodeId, t: seq<NodeId>)
    ensures Distinct([h] + t) <==> Distinct(t) && h !in t
  {
    var s := [h] + t;
    if Distinct(s) {
      DistinctSplit([h], t);
    }
    if Distinct(t) && h !in t {
      forall i, j | 0 <= i < j < |s| ensures s[i] != s[j] {
        assert s[j] == t[j - 1];
        if i > 0 {
          assert s[i] == t[i - 1];
        }
      }
    }
  }

  /** Nothing is reported exactly when no id repeats and none was seen before. */
  lemma {:induction false} NoReportIffUnique(seen: set<NodeId>, ids: seq<NodeId>)
    ensures Repeated(seen, ids) == [] <==> Distinct(ids) && forall x :: x in ids ==> x !in seen
    decreases |ids|
  {
    if ids != [] {
      var h, t := ids[0], ids[1..];
      assert ids == [h] + t;
      NoReportIffUnique(seen + {h}, t);
      DistinctCons(h, t);
    }
  }

  /** An id is at position i a repeat: seen before, or listed earlier. */
  ghost predicate RepeatAt(seen: set<NodeId>, ids: seq<NodeId>, i: nat)
    requires i < |ids|
  {
    ids[i] in seen || ids[i] in ids[..i]
  }

  /** Every reported id is a repeat. */
  lemma {:induction false} ReportedIsRepeat(seen: set<NodeId>, ids: seq<NodeId>, x: NodeId) returns (i: nat)
    requires x in Repeated(seen, ids)
    ensures i < |ids| && ids[i] == x && RepeatAt(seen, ids, i)
    decreases |ids|
  {
    var h, t := ids[0], ids[1..];
    if x == h && h in seen {
      i := 0;
    } else {
      var j := ReportedIsRepeat(seen + {h}, t, x);
      assert ids[..j + 1] == [h] + t[..j];
      i := j + 1;
    }
  }

  /** Every repeat is reported. */
  lemma {:induction false} RepeatIsReported(seen: set<NodeId>, ids: seq<NodeId>, i: nat)
    requires i < |ids| && RepeatAt(seen, ids, i)
    ensures ids[i] in Repeated(seen, ids)
    decreases |ids|
  {
    var h, t := ids[0], ids[1..];
    if i > 0 {
      assert ids[..i] == [h] + t[..i - 1];
      assert t[i - 1] == ids[i];
      assert RepeatAt(seen + {h}, t, i - 1);
      RepeatIsReported(seen + {h}, t, i - 1);
    }
  }

  /** The ids reported are exactly the repeats. */
  lemma {:induction false} ReportsAreRepeats(seen: set<NodeId>, ids: seq<NodeId>, x: NodeId)
    ensures x in Repeated(seen, ids) <==> exists i :: 0 <= i < |ids| && ids[i] == x && RepeatAt(seen, ids, i)
  {
    if x in Repeated(seen, ids) {
      var i := ReportedIsRepeat(seen, ids, x);
    }
    if exists i :: 0 <= i < |ids| && ids[i] == x && RepeatAt(seen, ids, i) {
      var i :| 0 <= i < |ids| && ids[i] == x && RepeatAt(seen, ids, i);
      RepeatIsReported(seen, ids, i);
    }
  }

  /** The builder reports nothing exactly when every visited id is unique. */
  lemma {:induction false} BuiltReportsIffDuplicates(es: seq<Element>)
    ensures Repeated({}, VisitedAll(es)) == [] <==> Distinct(VisitedAll(es))
  {
    NoReportIffUnique({}, VisitedAll(es));
  }
}
