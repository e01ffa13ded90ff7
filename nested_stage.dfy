/**
 * The nested demo page: fetched records are kept as a forest, each node
 * holding the records fetched under it, and each batch is attached to the
 * first node in pre-order that carries a record's parent id.
 */
module NestedStage {
  import opened TreeTypes
  import opened Loading

  /** A record and the nodes attached under it, in arrival order. */
  datatype Tree = Tree(rec: Record, nodeChildren: seq<Tree>)

  // ---------------------------------------------------------------------------
  // Search
  // ---------------------------------------------------------------------------

  /** The first node in pre-order with the id: the tree itself, else the first hit among its children. */
  function FindIn(t: Tree, id: NodeId): (r: Option<Tree>)
    ensures r.Some? ==> r.value.rec.id == id
  {
    if t.rec.id == id then Some(t) else FindAll(t.nodeChildren, id)
  }

  /** The first hit across the trees, tried in order. */
  function FindAll(ts: seq<Tree>, id: NodeId): (r: Option<Tree>)
    ensures r.Some? ==> r.value.rec.id == id
  {
    if ts == [] then None
    else
      var hit := FindIn(ts[0], id);
      if hit.Some? then hit else FindAll(ts[1..], id)
  }

  /** Every node of the tree, each before the nodes under it. */
  function PreOrder(t: Tree): seq<Tree>
  {
    [t] + PreOrderAll(t.nodeChildren)
  }

  function PreOrderAll(ts: seq<Tree>): seq<Tree>
  {
    if ts == [] then [] else PreOrder(ts[0]) + PreOrderAll(ts[1..])
  }

  /** The records of the forest in pre-order. */
  function Recs(t: Tree): seq<Record>
  {
    [t.rec] + RecsAll(t.nodeChildren)
  }

  function RecsAll(ts: seq<Tree>): seq<Record>
  {
    if ts == [] then [] else Recs(ts[0]) + RecsAll(ts[1..])
  }

  /** The first node of the list with the id. */
  function FirstMatch(xs: seq<Tree>, id: NodeId): (r: Option<Tree>)
    ensures r.Some? ==> r.value in xs && r.value.rec.id == id
    ensures r.None? <==> forall i :: 0 <= i < |xs| ==> xs[i].rec.id != id
  {
    if xs == [] then None else if xs[0].rec.id == id then Some(xs[0]) else FirstMatch(xs[1..], id)
  }

  // ---------------------------------------------------------------------------
  // Insertion
  // ---------------------------------------------------------------------------

  /** Attach c at the end of the child list of the first node in pre-order with the id. */
  function AppendIn(t: Tree, id: NodeId, c: Tree): (r: Tree)
    ensures r.rec == t.rec
  {
    if t.rec.id == id then t.(nodeChildren := t.nodeChildren + [c])
    else t.(nodeChildren := AppendAll(t.nodeChildren, id, c))
  }

  /** The same across the trees: only the first tree holding the id changes; roots keep their records. */
  function AppendAll(ts: seq<Tree>, id: NodeId, c: Tree): (r: seq<Tree>)
    ensures |r| == |ts|
    ensures forall i :: 0 <= i < |ts| ==> r[i].rec == ts[i].rec
  {
    if ts == [] then []
    else if FindIn(ts[0], id).Some? then [AppendIn(ts[0], id, c)] + ts[1..]
    else [ts[0]] + AppendAll(ts[1..], id, c)
  }

  /** One record placed: under the found parent, or as a new last root. */
  function InsertOne(ts: seq<Tree>, v: Record): seq<Tree>
  {
    var child := Tree(v, []);
    if HasParent(v) && FindAll(ts, v.pid.value).Some? then AppendAll(ts, v.pid.value, child)
    else ts + [child]
  }

  /** A batch placed record by record; each search sees the records placed before it. */
  function InsertAll(ts: seq<Tree>, data: seq<Record>): seq<Tree>
    decreases |data|
  {
    if data == [] then ts else InsertOne(InsertAll(ts, data[..|data| - 1]), data[|data| - 1])
  }

  /** The tree itself when it has the id, else the children's searches in order up to the first hit. */
  method FindNodeHelper(id: NodeId, tree: Tree) returns (r: Option<Tree>)
    ensures r == FindIn(tree, id)
  {
    if tree.rec.id == id {
      return Some(tree);
    }
    var children := tree.nodeChildren;
    for i := 0 to |children|
      invariant FindAll(children, id) == FindAll(children[i..], id)
    {
      r := FindNodeHelper(id, children[i]);
      FindAllAt(children, i, id);
      if r.Some? {
        return;
      }
    }
    return None;
  }

  /** The roots' searches in order up to the first hit. */
  method FindNode(id: NodeId, data: seq<Tree>) returns (r: Option<Tree>)
    ensures r == FindAll(data, id)
  {
    for i := 0 to |data|
      invariant FindAll(data, id) == FindAll(data[i..], id)
    {
      r := FindNodeHelper(id, data[i]);
      FindAllAt(data, i, id);
      if r.Some? {
        return;
      }
    }
    return None;
  }

  /** The search from position i is the search of tree i, then of the rest (one copy per node type, see `FirstMatchAppend`). */
  lemma {:induction false} FindAllAt(ts: seq<Tree>, i: nat, id: NodeId)
    requires i < |ts|
    ensures FindAll(ts[i..], id) == if FindIn(ts[i], id).Some? then FindIn(ts[i], id) else FindAll(ts[i + 1..], id)
  {
    assert ts[i..][0] == ts[i] && ts[i..][1..] == ts[i + 1..];
  }

  /** Merge a fetched batch into a copy of the forest. */
  method Insert(arr: seq<Tree>, data: seq<Record>) returns (res: seq<Tree>)
    ensures res == InsertAll(arr, data)
  {
    res := arr;
    for k := 0 to |data|
      invariant res == InsertAll(arr, data[..k])
    {
      var v := data[k];
      assert data[..k + 1][..k] == data[..k] && data[..k + 1][k] == v;
      var child := Tree(v, []);
      if HasParent(v) {
        var parent := FindNode(v.pid.value, res);
        if parent.Some? {
          res := AppendAll(res, v.pid.value, child);
        } else {
          res := res + [child];
        }
      } else {
        res := res + [child];
      }
    }
    assert data[..|data|] == data;
  }

  // ---------------------------------------------------------------------------
  // Search properties
  // ---------------------------------------------------------------------------

  lemma {:induction false} PreOrderAllAppend(a: seq<Tree>, b: seq<Tree>)
    ensures PreOrderAll(a + b) == PreOrderAll(a) + PreOrderAll(b)
    decreases |a|
  {
    if a == [] {
      assert a + b == b;
    } else {
      assert (a + b)[0] == a[0] && (a + b)[1..] == a[1..] + b;
      PreOrderAllAppend(a[1..], b);
    }
  }

  /** Searching a concatenation searches the left part first; the nodes of `Stage0.tsx` carry their id inside a record, so this lemma is stated for `Tree` here and for the mock `Data` nodes in `MockUtils`. */
  lemma {:induction false} FirstMatchAppend(a: seq<Tree>, b: seq<Tree>, id: NodeId)
    ensures FirstMatch(a + b, id) == if FirstMatch(a, id).Some? then FirstMatch(a, id) else FirstMatch(b, id)
    decreases |a|
  {
    if a == [] {
      assert a + b == b;
    } else {
      assert (a + b)[0] == a[0] && (a + b)[1..] == a[1..] + b;
      FirstMatchAppend(a[1..], b, id);
    }
  }

  /** The search finds exactly the first pre-order node with the id. */
  lemma {:induction false} FindInIsFirst(t: Tree, id: NodeId)
    ensures FindIn(t, id) == FirstMatch(PreOrder(t), id)
  {
    FirstMatchAppend([t], PreOrderAll(t.nodeChildren), id);
    FindAllIsFirst(t.nodeChildren, id);
  }

  /** Across roots, the search finds exactly the first pre-order node with the id. */
  lemma {:induction false} FindAllIsFirst(ts: seq<Tree>, id: NodeId)
    ensures FindAll(ts, id) == FirstMatch(PreOrderAll(ts), id)
  {
    if ts != [] {
      FindInIsFirst(ts[0], id);
      FindAllIsFirst(ts[1..], id);
      FirstMatchAppend(PreOrder(ts[0]), PreOrderAll(ts[1..]), id);
    }
  }

  lemma {:induction false} FindAllAppend(a: seq<Tree>, b: seq<Tree>, id: NodeId)
    ensures FindAll(a + b, id) == if FindAll(a, id).Some? then FindAll(a, id) else FindAll(b, id)
  {
    FindAllIsFirst(a + b, id);
    FindAllIsFirst(a, id);
    FindAllIsFirst(b, id);
    PreOrderAllAppend(a, b);
    FirstMatchAppend(PreOrderAll(a), PreOrderAll(b), id);
  }

  // ---------------------------------------------------------------------------
  // Insertion properties
  // ---------------------------------------------------------------------------

  lemma {:induction false} RecsAllAppend(a: seq<Tree>, b: seq<Tree>)
    ensures RecsAll(a + b) == RecsAll(a) + RecsAll(b)
    decreases |a|
  {
    if a == [] {
      assert a + b == b;
    } else {
      assert (a + b)[0] == a[0] && (a + b)[1..] == a[1..] + b;
      RecsAllAppend(a[1..], b);
    }
  }

  /** Unfolding the lists built by AppendAll. */
  lemma {:induction false} ConsUnfold(x: Tree, rest: seq<Tree>, id: NodeId)
    ensures FindAll([x] + rest, id) == if FindIn(x, id).Some? then FindIn(x, id) else FindAll(rest, id)
    ensures RecsAll([x] + rest) == Recs(x) + RecsAll(rest)
  {
    assert ([x] + rest)[0] == x && ([x] + rest)[1..] == rest;
  }

  /** After attaching, the search for the id finds the same node with c added as its last child. */
  lemma {:induction false} AppendInFound(t: Tree, id: NodeId, c: Tree)
    requires FindIn(t, id).Some?
    ensures FindIn(AppendIn(t, id, c), id) == Some(FindIn(t, id).value.(nodeChildren := FindIn(t, id).value.nodeChildren + [c]))
  {
    if t.rec.id != id {
      AppendAllFound(t.nodeChildren, id, c);
    }
  }

  lemma {:induction false} AppendAllFound(ts: seq<Tree>, id: NodeId, c: Tree)
    requires FindAll(ts, id).Some?
    ensures FindAll(AppendAll(ts, id, c), id) == Some(FindAll(ts, id).value.(nodeChildren := FindAll(ts, id).value.nodeChildren + [c]))
  {
    if FindIn(ts[0], id).Some? {
      AppendInFound(ts[0], id, c);
      ConsUnfold(AppendIn(ts[0], id, c), ts[1..], id);
    } else {
      AppendAllFound(ts[1..], id, c);
      ConsUnfold(ts[0], AppendAll(ts[1..], id, c), id);
    }
  }

  /** A node attached under an id absent so far is what a search for its own id finds. */
  lemma {:induction false} AppendInFresh(t: Tree, id: NodeId, c: Tree, x: NodeId)
    requires FindIn(t, id).Some? && FindIn(t, x).None? && c.rec.id == x
    ensures FindIn(AppendIn(t, id, c), x) == Some(c)
  {
    if t.rec.id == id {
      FindAllAppend(t.nodeChildren, [c], x);
      assert FindAll([c], x) == FindIn(c, x);
    } else {
      AppendAllFresh(t.nodeChildren, id, c, x);
    }
  }

  lemma {:induction false} AppendAllFresh(ts: seq<Tree>, id: NodeId, c: Tree, x: NodeId)
    requires FindAll(ts, id).Some? && FindAll(ts, x).None? && c.rec.id == x
    ensures FindAll(AppendAll(ts, id, c), x) == Some(c)
  {
    if FindIn(ts[0], id).Some? {
      AppendInFresh(ts[0], id, c, x);
      ConsUnfold(AppendIn(ts[0], id, c), ts[1..], x);
    } else {
      AppendAllFresh(ts[1..], id, c, x);
      ConsUnfold(ts[0], AppendAll(ts[1..], id, c), x);
    }
  }

  /** Attaching inserts the records of c into the pre-order records at one place, and changes nothing else. */
  lemma {:induction false} AppendInRecs(t: Tree, id: NodeId, c: Tree) returns (k: nat)
    requires FindIn(t, id).Some?
    ensures 1 <= k <= |Recs(t)|
    ensures Recs(AppendIn(t, id, c)) == Recs(t)[..k] + Recs(c) + Recs(t)[k..]
  {
    var kids := t.nodeChildren;
    if t.rec.id == id {
      RecsAllAppend(kids, [c]);
      ConsUnfold(c, [], id);
      assert RecsAll([c]) == Recs(c) by {
        assert [c] + [] == [c];
      }
      k := |Recs(t)|;
      assert Recs(t)[..k] == Recs(t) && Recs(t)[k..] == [];
    } else {
      var k1 := AppendAllRecs(kids, id, c);
      k := k1 + 1;
      var r := RecsAll(kids);
      assert Recs(t) == [t.rec] + r;
      assert Recs(t)[..k] == [t.rec] + r[..k1];
      assert Recs(t)[k..] == r[k1..];
    }
  }

  lemma {:induction false} AppendAllRecs(ts: seq<Tree>, id: NodeId, c: Tree) returns (k: nat)
    requires FindAll(ts, id).Some?
    ensures k <= |RecsAll(ts)|
    ensures RecsAll(AppendAll(ts, id, c)) == RecsAll(ts)[..k] + Recs(c) + RecsAll(ts)[k..]
  {
    var r0 := Recs(ts[0]);
    var rest := RecsAll(ts[1..]);
    if FindIn(ts[0], id).Some? {
      k := AppendInRecs(ts[0], id, c);
      ConsUnfold(AppendIn(ts[0], id, c), ts[1..], id);
      SpliceLeft(r0, rest, k, Recs(c));
    } else {
      var k1 := AppendAllRecs(ts[1..], id, c);
      ConsUnfold(ts[0], AppendAll(ts[1..], id, c), id);
      k := |r0| + k1;
      SpliceRight(r0, rest, k1, Recs(c));
    }
  }

  /** Splicing into the left part of a concatenation. */
  lemma {:induction false} SpliceLeft(a: seq<Record>, b: seq<Record>, k: nat, x: seq<Record>)
    requires k <= |a|
    ensures (a[..k] + x + a[k..]) + b == (a + b)[..k] + x + (a + b)[k..]
  {
    assert (a + b)[..k] == a[..k];
    assert (a + b)[k..] == a[k..] + b;
  }

  /** Splicing into the right part of a concatenation. */
  lemma {:induction false} SpliceRight(a: seq<Record>, b: seq<Record>, k: nat, x: seq<Record>)
    requires k <= |b|
    ensures a + (b[..k] + x + b[k..]) == (a + b)[..|a| + k] + x + (a + b)[|a| + k..]
  {
    assert (a + b)[..|a| + k] == a + b[..k];
    assert (a + b)[|a| + k..] == b[k..];
  }

  // ---------------------------------------------------------------------------
  // Shape: the structure of the forest as a pre-order list of (record, child count)
  // ---------------------------------------------------------------------------

  /** A node seen in pre-order: its record and how many children it has. */
  datatype Entry = Entry(rec: Record, count: nat)

  /** The pre-order entries of a tree; read back in order, they rebuild the forest. */
  function Shape(t: Tree): seq<Entry>
  {
    [Entry(t.rec, |t.nodeChildren|)] + ShapeAll(t.nodeChildren)
  }

  function ShapeAll(ts: seq<Tree>): seq<Entry>
  {
    if ts == [] then [] else Shape(ts[0]) + ShapeAll(ts[1..])
  }

  /** Entry p gains one child, and the entries x are inserted at position k. */
  function Grown(s: seq<Entry>, p: nat, k: nat, x: seq<Entry>): seq<Entry>
    requires p < k <= |s|
  {
    s[..p] + [Entry(s[p].rec, s[p].count + 1)] + s[p + 1..k] + x + s[k..]
  }

  lemma {:induction false} ShapeAllAppend(a: seq<Tree>, b: seq<Tree>)
    ensures ShapeAll(a + b) == ShapeAll(a) + ShapeAll(b)
    decreases |a|
  {
    if a == [] {
      assert a + b == b;
    } else {
      assert (a + b)[0] == a[0] && (a + b)[1..] == a[1..] + b;
      ShapeAllAppend(a[1..], b);
    }
  }

  lemma {:induction false} ShapeCons(x: Tree, rest: seq<Tree>)
    ensures ShapeAll([x] + rest) == Shape(x) + ShapeAll(rest)
  {
    assert ([x] + rest)[0] == x && ([x] + rest)[1..] == rest;
  }

  /** Growing inside a list, then putting an entry in front. */
  lemma {:induction false} GrownCons(e: Entry, s: seq<Entry>, p: nat, k: nat, x: seq<Entry>)
    requires p < k <= |s|
    ensures [e] + Grown(s, p, k, x) == Grown([e] + s, p + 1, k + 1, x)
  {
    var t := [e] + s;
    assert t[..p + 1] == [e] + s[..p] && t[p + 1] == s[p];
    assert t[p + 2..k + 1] == s[p + 1..k] && t[k + 1..] == s[k..];
  }

  /** Growing inside the left part of a concatenation. */
  lemma {:induction false} GrownLeft(a: seq<Entry>, b: seq<Entry>, p: nat, k: nat, x: seq<Entry>)
    requires p < k <= |a|
    ensures Grown(a, p, k, x) + b == Grown(a + b, p, k, x)
  {
    var t := a + b;
    assert t[..p] == a[..p] && t[p] == a[p];
    assert t[p + 1..k] == a[p + 1..k] && t[k..] == a[k..] + b;
  }

  /** Growing inside the right part of a concatenation. */
  lemma {:induction false} GrownRight(a: seq<Entry>, b: seq<Entry>, p: nat, k: nat, x: seq<Entry>)
    requires p < k <= |b|
    ensures a + Grown(b, p, k, x) == Grown(a + b, |a| + p, |a| + k, x)
  {
    var t := a + b;
    assert t[..|a| + p] == a + b[..p] && t[|a| + p] == b[p];
    assert t[|a| + p + 1..|a| + k] == b[p + 1..k] && t[|a| + k..] == b[k..];
  }

  /**
   * Attaching c changes the shape in one way only: the entry of the found
   * node gains one child, and the entries of c are inserted after it.
   */
  lemma {:induction false} AppendInShape(t: Tree, id: NodeId, c: Tree) returns (p: nat, k: nat)
    requires FindIn(t, id).Some?
    ensures p < k <= |Shape(t)|
    ensures Shape(t)[p] == Entry(FindIn(t, id).value.rec, |FindIn(t, id).value.nodeChildren|)
    ensures Shape(AppendIn(t, id, c)) == Grown(Shape(t), p, k, Shape(c))
  {
    if t.rec.id == id {
      AppendHereShape(t, c);
      p, k := 0, |Shape(t)|;
    } else {
      var p1, k1 := AppendAllShape(t.nodeChildren, id, c);
      p, k := AppendBelowShape(t, id, c, p1, k1);
    }
  }

  /** The found node is the root: its count grows and c's entries come last. */
  lemma {:induction false} AppendHereShape(t: Tree, c: Tree)
    ensures Shape(t.(nodeChildren := t.nodeChildren + [c])) == Grown(Shape(t), 0, |Shape(t)|, Shape(c))
  {
    var kids := t.nodeChildren;
    var s := Shape(t);
    ShapeAllAppend(kids, [c]);
    ShapeCons(c, []);
    assert [c] + [] == [c];
    assert s[..0] == [] && s[1..|s|] == ShapeAll(kids) && s[|s|..] == [];
  }

  /** The found node lies below the root: the change is shifted past the root's entry. */
  lemma {:induction false} AppendBelowShape(t: Tree, id: NodeId, c: Tree, p1: nat, k1: nat) returns (p: nat, k: nat)
    requires t.rec.id != id && p1 < k1 <= |ShapeAll(t.nodeChildren)|
    requires ShapeAll(AppendAll(t.nodeChildren, id, c)) == Grown(ShapeAll(t.nodeChildren), p1, k1, Shape(c))
    ensures p == p1 + 1 && k == k1 + 1 && k <= |Shape(t)|
    ensures Shape(t)[p] == ShapeAll(t.nodeChildren)[p1]
    ensures Shape(AppendIn(t, id, c)) == Grown(Shape(t), p, k, Shape(c))
  {
    var kids := t.nodeChildren;
    var e := Entry(t.rec, |kids|);
    GrownCons(e, ShapeAll(kids), p1, k1, Shape(c));
    assert |AppendAll(kids, id, c)| == |kids|;
    p, k := p1 + 1, k1 + 1;
  }

  lemma {:induction false} AppendAllShape(ts: seq<Tree>, id: NodeId, c: Tree) returns (p: nat, k: nat)
    requires FindAll(ts, id).Some?
    ensures p < k <= |ShapeAll(ts)|
    ensures ShapeAll(ts)[p] == Entry(FindAll(ts, id).value.rec, |FindAll(ts, id).value.nodeChildren|)
    ensures ShapeAll(AppendAll(ts, id, c)) == Grown(ShapeAll(ts), p, k, Shape(c))
  {
    var s0 := Shape(ts[0]);
    var rest := ShapeAll(ts[1..]);
    if FindIn(ts[0], id).Some? {
      p, k := AppendInShape(ts[0], id, c);
      ShapeCons(AppendIn(ts[0], id, c), ts[1..]);
      GrownLeft(s0, rest, p, k, Shape(c));
    } else {
      var p1, k1 := AppendAllShape(ts[1..], id, c);
      ShapeCons(ts[0], AppendAll(ts[1..], id, c));
      GrownRight(s0, rest, p1, k1, Shape(c));
      p, k := |s0| + p1, |s0| + k1;
    }
  }

  /**
   * Placing a record under a found parent grows the parent's entry by one
   * child and inserts the record's entry, with no children, after it; every
   * other node keeps its record and its child count. Otherwise the record's
   * entry is added at the end, as a new root.
   */
  lemma {:induction false} InsertOneShape(ts: seq<Tree>, v: Record) returns (p: nat, k: nat)
    ensures var s := ShapeAll(ts);
      HasParent(v) && FindAll(ts, v.pid.value).Some? ==>
        var m := FindAll(ts, v.pid.value).value;
        p < k <= |s| && s[p] == Entry(m.rec, |m.nodeChildren|) &&
        ShapeAll(InsertOne(ts, v)) == Grown(s, p, k, [Entry(v, 0)])
    ensures !(HasParent(v) && FindAll(ts, v.pid.value).Some?) ==>
      ShapeAll(InsertOne(ts, v)) == ShapeAll(ts) + [Entry(v, 0)]
  {
    var child := Tree(v, []);
    assert Shape(child) == [Entry(v, 0)];
    if HasParent(v) && FindAll(ts, v.pid.value).Some? {
      p, k := AppendAllShape(ts, v.pid.value, child);
    } else {
      ShapeAllAppend(ts, [child]);
      ShapeCons(child, []);
      assert [child] + [] == [child];
      p, k := 0, 0;
    }
  }

  /**
   * A record whose parent id is found is attached as the last child of the
   * first node with that id; the roots stay as they were.
   */
  lemma {:induction false} PlacedUnderParent(ts: seq<Tree>, v: Record)
    requires HasParent(v) && FindAll(ts, v.pid.value).Some?
    ensures var m := FindAll(ts, v.pid.value).value;
      FindAll(InsertOne(ts, v), v.pid.value) == Some(m.(nodeChildren := m.nodeChildren + [Tree(v, [])]))
    ensures |InsertOne(ts, v)| == |ts| && forall i :: 0 <= i < |ts| ==> InsertOne(ts, v)[i].rec == ts[i].rec
  {
    AppendAllFound(ts, v.pid.value, Tree(v, []));
  }

  /** A record without a parent id, or with one that is not found, becomes the last root. */
  lemma {:induction false} PlacedAsRoot(ts: seq<Tree>, v: Record)
    requires !HasParent(v) || FindAll(ts, v.pid.value).None?
    ensures InsertOne(ts, v) == ts + [Tree(v, [])]
    ensures FindAll(InsertOne(ts, v), v.id) == if FindAll(ts, v.id).Some? then FindAll(ts, v.id) else Some(Tree(v, []))
  {
    FindAllAppend(ts, [Tree(v, [])], v.id);
    ConsUnfold(Tree(v, []), [], v.id);
    assert [Tree(v, [])] + [] == [Tree(v, [])];
  }

  /** Placing a record adds exactly it to the pre-order records, at one place. */
  lemma {:induction false} InsertOneRecs(ts: seq<Tree>, v: Record) returns (k: nat)
    ensures k <= |RecsAll(ts)|
    ensures RecsAll(InsertOne(ts, v)) == RecsAll(ts)[..k] + [v] + RecsAll(ts)[k..]
  {
    var child := Tree(v, []);
    assert Recs(child) == [v];
    if HasParent(v) && FindAll(ts, v.pid.value).Some? {
      k := AppendAllRecs(ts, v.pid.value, child);
    } else {
      RecsAllAppend(ts, [child]);
      ConsUnfold(child, [], v.id);
      assert [child] + [] == [child];
      k := |RecsAll(ts)|;
      assert RecsAll(ts)[..k] == RecsAll(ts) && RecsAll(ts)[k..] == [];
    }
  }

  /** A batch adds exactly one node per record. */
  lemma {:induction false} InsertAllCount(ts: seq<Tree>, data: seq<Record>)
    ensures |RecsAll(InsertAll(ts, data))| == |RecsAll(ts)| + |data|
    decreases |data|
  {
    if data != [] {
      InsertAllCount(ts, data[..|data| - 1]);
      var k := InsertOneRecs(InsertAll(ts, data[..|data| - 1]), data[|data| - 1]);
    }
  }

  /** A freshly placed record is found by its own id, so later records of the batch can attach to it. */
  lemma {:induction false} PlacedIsFound(ts: seq<Tree>, v: Record)
    requires FindAll(ts, v.id).None?
    ensures FindAll(InsertOne(ts, v), v.id) == Some(Tree(v, []))
  {
    if HasParent(v) && FindAll(ts, v.pid.value).Some? {
      AppendAllFresh(ts, v.pid.value, Tree(v, []), v.id);
    } else {
      PlacedAsRoot(ts, v);
    }
  }

  /** A record whose parent came earlier in the same batch, under a fresh id, is attached under it. */
  lemma {:induction false} ChildUnderBatchParent(ts: seq<Tree>, parent: Record, v: Record)
    requires FindAll(ts, parent.id).None?
    requires HasParent(v) && v.pid.value == parent.id
    ensures FindAll(InsertOne(InsertOne(ts, parent), v), parent.id) == Some(Tree(parent, [Tree(v, [])]))
  {
    PlacedIsFound(ts, parent);
    PlacedUnderParent(InsertOne(ts, parent), v);
    assert [] + [Tree(v, [])] == [Tree(v, [])];
  }
}
