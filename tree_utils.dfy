/**
 * The flat-sequence toolkit: nodes live in one pre-order sequence where each
 * node carries a level, and ancestry is recovered from the levels alone.
 *
 * The first part is the level theory the loops are proved against:
 *   - IsAncestor(s, a, j): a precedes j and every node after a, up to j, is deeper than a;
 *   - Ancestors(s, i): the backward scan that keeps the first node of each
 *     strictly smaller level, nearest first;
 *   - OpenAt(s, n, l): the node a level stack holds at level l after the scan of s[..n].
 */
module TreeUtils {
  import opened TreeTypes

  // ---------------------------------------------------------------------------
  // Level theory
  // ---------------------------------------------------------------------------

  /** Node a is an ancestor of node j. */
  predicate IsAncestor(s: seq<Node>, a: int, j: int)
  {
    0 <= a < j < |s| && forall k :: a < k <= j ==> s[k].level > s[a].level
  }

  /**
   * Scan backwards from index k - 1, keeping every node whose level is below
   * the current bound and lowering the bound to it.
   */
  function Scan(s: seq<Node>, bound: nat, k: nat): seq<nat>
    requires k <= |s|
    decreases k
  {
    if k == 0 then []
    else if s[k - 1].level < bound then [k - 1] + Scan(s, s[k - 1].level, k - 1)
    else Scan(s, bound, k - 1)
  }

  /** The ancestors of node i, nearest first. */
  function Ancestors(s: seq<Node>, i: nat): seq<nat>
    requires i < |s|
  {
    Scan(s, s[i].level, i)
  }

  /** The nearest ancestor of node i, if any. */
  function Parent(s: seq<Node>, i: nat): (r: Option<nat>)
    requires i < |s|
    ensures r.Some? ==> r.value < i
  {
    var anc := Ancestors(s, i);
    ScanHead(s, s[i].level, i);
    if anc == [] then None else Some(anc[0])
  }

  /** The ancestor nodes of node i, nearest first. */
  function AncestorNodes(s: seq<Node>, i: nat): (r: seq<Node>)
    requires i < |s|
    ensures |r| == |Ancestors(s, i)|
    ensures forall k :: 0 <= k < |r| ==> Ancestors(s, i)[k] < i && r[k] == s[Ancestors(s, i)[k]]
  {
    ScanBelow(s, s[i].level, i);
    seq(|Ancestors(s, i)|, k requires 0 <= k < |Ancestors(s, i)| => s[Ancestors(s, i)[k]])
  }

  lemma {:induction false} ScanHead(s: seq<Node>, bound: nat, k: nat)
    requires k <= |s|
    ensures Scan(s, bound, k) != [] ==> Scan(s, bound, k)[0] < k
  {
    if k > 0 && s[k - 1].level >= bound {
      ScanHead(s, bound, k - 1);
    }
  }

  lemma {:induction false} ScanBelow(s: seq<Node>, bound: nat, k: nat)
    requires k <= |s|
    ensures forall x :: 0 <= x < |Scan(s, bound, k)| ==> Scan(s, bound, k)[x] < k
  {
    if k > 0 {
      var r := Scan(s, bound, k);
      if s[k - 1].level < bound {
        var rest := Scan(s, s[k - 1].level, k - 1);
        ScanBelow(s, s[k - 1].level, k - 1);
        assert r == [k - 1] + rest;
        forall x | 0 < x < |r|
          ensures r[x] < k
        {
          assert r[x] == rest[x - 1];
        }
      } else {
        ScanBelow(s, bound, k - 1);
      }
    }
  }

  lemma {:induction false} ScanMember(s: seq<Node>, bound: nat, k: nat, a: int)
    requires k <= |s|
    ensures a in Scan(s, bound, k) <==>
      (0 <= a < k && s[a].level < bound && forall m :: a < m < k ==> s[m].level > s[a].level)
    decreases k
  {
    if k > 0 {
      if s[k - 1].level < bound {
        ScanMember(s, s[k - 1].level, k - 1, a);
        assert Scan(s, bound, k) == [k - 1] + Scan(s, s[k - 1].level, k - 1);
      } else {
        ScanMember(s, bound, k - 1, a);
        assert Scan(s, bound, k) == Scan(s, bound, k - 1);
      }
    }
  }

  lemma {:induction false} ScanMembers(s: seq<Node>, bound: nat, k: nat)
    requires k <= |s|
    ensures forall a :: a in Scan(s, bound, k) <==>
      (0 <= a < k && s[a].level < bound && forall m :: a < m < k ==> s[m].level > s[a].level)
  {
    forall a
      ensures a in Scan(s, bound, k) <==>
        (0 <= a < k && s[a].level < bound && forall m :: a < m < k ==> s[m].level > s[a].level)
    {
      ScanMember(s, bound, k, a);
    }
  }

  lemma {:induction false} ScanDecreasing(s: seq<Node>, bound: nat, k: nat)
    requires k <= |s|
    ensures forall x :: 0 <= x < |Scan(s, bound, k)| ==>
      Scan(s, bound, k)[x] < k && s[Scan(s, bound, k)[x]].level < bound
    ensures forall x, y :: 0 <= x < y < |Scan(s, bound, k)| ==>
      Scan(s, bound, k)[x] > Scan(s, bound, k)[y] && s[Scan(s, bound, k)[x]].level > s[Scan(s, bound, k)[y]].level
  {
    if k > 0 {
      var r := Scan(s, bound, k);
      if s[k - 1].level < bound {
        var rest := Scan(s, s[k - 1].level, k - 1);
        ScanDecreasing(s, s[k - 1].level, k - 1);
        assert r == [k - 1] + rest;
        forall x | 0 <= x < |r|
          ensures r[x] < k && s[r[x]].level < bound
        {
          if x > 0 {
            assert r[x] == rest[x - 1];
          }
        }
        forall x, y | 0 <= x < y < |r|
          ensures r[x] > r[y] && s[r[x]].level > s[r[y]].level
        {
          assert r[y] == rest[y - 1];
          if x > 0 {
            assert r[x] == rest[x - 1];
          }
        }
      } else {
        ScanDecreasing(s, bound, k - 1);
        assert r == Scan(s, bound, k - 1);
      }
    }
  }

  /** The ancestor chain holds exactly the ancestors of i. */
  lemma {:induction false} AncestorsExact(s: seq<Node>, i: nat)
    requires i < |s|
    ensures forall a :: a in Ancestors(s, i) <==> IsAncestor(s, a, i)
  {
    ScanMembers(s, s[i].level, i);
  }

  /**
   * Ancestors lists indices strictly decreasing, with strictly decreasing
   * levels, all below the level of i.
   */
  lemma {:induction false} AncestorsOrdered(s: seq<Node>, i: nat)
    requires i < |s|
    ensures forall x :: 0 <= x < |Ancestors(s, i)| ==>
      Ancestors(s, i)[x] < i && s[Ancestors(s, i)[x]].level < s[i].level
    ensures forall x, y :: 0 <= x < y < |Ancestors(s, i)| ==>
      Ancestors(s, i)[x] > Ancestors(s, i)[y] && s[Ancestors(s, i)[x]].level > s[Ancestors(s, i)[y]].level
  {
    ScanDecreasing(s, s[i].level, i);
  }

  /** Each link of the chain is the nearest ancestor of the one before it. */
  lemma {:induction false} AncestorsStep(s: seq<Node>, i: nat)
    requires i < |s|
    ensures Parent(s, i).None? ==> Ancestors(s, i) == []
    ensures Parent(s, i).Some? ==>
      Parent(s, i).value < i && Ancestors(s, i) == [Parent(s, i).value] + Ancestors(s, Parent(s, i).value)
  {
    AncestorsUnfold(s, s[i].level, i);
  }

  lemma {:induction false} AncestorsUnfold(s: seq<Node>, bound: nat, k: nat)
    requires k <= |s|
    ensures var r := Scan(s, bound, k);
      r != [] ==> r[0] < k && s[r[0]].level < bound && r == [r[0]] + Scan(s, s[r[0]].level, r[0])
  {
    if k > 0 && s[k - 1].level >= bound {
      AncestorsUnfold(s, bound, k - 1);
    }
  }

  /** The parent is the nearest earlier node of smaller level. */
  lemma {:induction false} ParentIsNearest(s: seq<Node>, i: nat)
    requires i < |s|
    ensures Parent(s, i).Some? ==>
      var j := Parent(s, i).value;
      j < i && s[j].level < s[i].level && forall m :: j < m < i ==> s[m].level >= s[i].level
    ensures Parent(s, i).None? ==> forall m :: 0 <= m < i ==> s[m].level >= s[i].level
  {
    ScanMembers(s, s[i].level, i);
    AncestorsOrdered(s, i);
    var r := Ancestors(s, i);
    if r != [] {
      var j := r[0];
      forall m | j < m < i
        ensures s[m].level >= s[i].level
      {
        if s[m].level < s[i].level {
          // m would be a member of the scan, nearer than its first element
          var lowest := LowestBetween(s, m, i);
          assert false;
        }
      }
    } else {
      forall m | 0 <= m < i
        ensures s[m].level >= s[i].level
      {
        if s[m].level < s[i].level {
          var lowest := LowestBetween(s, m, i);
          assert false;
        }
      }
    }
  }

  /**
   * The last index in [m, i) holding the least level of that range: every node
   * after it, before i, is strictly deeper.
   */
  function LowestBetween(s: seq<Node>, m: nat, i: nat): (w: nat)
    requires m < i <= |s|
    ensures m <= w < i && s[w].level <= s[m].level
    ensures forall k :: m <= k < i ==> s[k].level >= s[w].level
    ensures forall k :: w < k < i ==> s[k].level > s[w].level
    decreases i - m
  {
    if m + 1 == i then m
    else
      var w := LowestBetween(s, m + 1, i);
      if s[w].level <= s[m].level then w else m
  }

  // ---------------------------------------------------------------------------
  // The level stack
  // ---------------------------------------------------------------------------

  /**
   * The node a level stack holds at level l after scanning s[..n]: the last
   * node of level l, unless a later node of smaller level closed it.
   */
  function OpenAt(s: seq<Node>, n: nat, l: nat): (r: Option<nat>)
    requires n <= |s|
    ensures r.Some? ==>
      r.value < n && s[r.value].level == l && forall k :: r.value < k < n ==> s[k].level > l
  {
    if n == 0 then None
    else if s[n - 1].level == l then Some(n - 1)
    else if s[n - 1].level < l then None
    else OpenAt(s, n - 1, l)
  }

  /** A node that every later node (before n) is deeper than is still open. */
  lemma {:induction false} OpenAtWitness(s: seq<Node>, n: nat, j: nat)
    requires j < n <= |s|
    requires forall k :: j < k < n ==> s[k].level > s[j].level
    ensures OpenAt(s, n, s[j].level) == Some(j)
  {
    if n - 1 != j {
      OpenAtWitness(s, n - 1, j);
    }
  }

  /** The stack length after scanning s[..n]. */
  function StackLen(s: seq<Node>, n: nat): nat
    requires n <= |s|
  {
    if n == 0 then 0 else s[n - 1].level + 1
  }

  /** Above the last scanned level nothing is open. */
  lemma {:induction false} AboveStackIsClosed(s: seq<Node>, n: nat, l: nat)
    requires n <= |s| && l >= StackLen(s, n)
    ensures OpenAt(s, n, l).None?
  {
  }

  /** Scanning node n keeps every open node of a smaller level and opens n. */
  lemma {:induction false} OpenAtStep(s: seq<Node>, n: nat, l: nat)
    requires n < |s|
    ensures l < s[n].level ==> OpenAt(s, n + 1, l) == OpenAt(s, n, l)
    ensures l == s[n].level ==> OpenAt(s, n + 1, l) == Some(n)
    ensures l > s[n].level ==> OpenAt(s, n + 1, l).None?
  {
  }

  /** Below the level of node n, the open nodes are exactly its ancestors. */
  lemma {:induction false} OpenBelowAreAncestors(s: seq<Node>, n: nat)
    requires n < |s|
    ensures forall l: nat :: l < s[n].level && OpenAt(s, n, l).Some? ==> IsAncestor(s, OpenAt(s, n, l).value, n)
    ensures forall a :: IsAncestor(s, a, n) ==> s[a].level < s[n].level && OpenAt(s, n, s[a].level) == Some(a)
  {
    forall a | IsAncestor(s, a, n)
      ensures s[a].level < s[n].level && OpenAt(s, n, s[a].level) == Some(a)
    {
      OpenAtWitness(s, n, a);
    }
  }

  /**
   * If t is the highest level below that of node i at which something is
   * open, the node open there is the parent of i; if nothing is open below,
   * i has no parent.
   */
  lemma {:induction false} ParentIsTopOpen(s: seq<Node>, i: nat, t: int)
    requires i < |s| && -1 <= t < s[i].level
    requires t >= 0 ==> OpenAt(s, i, t).Some?
    requires forall l: nat :: t < l < s[i].level ==> OpenAt(s, i, l).None?
    ensures Parent(s, i) == if t >= 0 then OpenAt(s, i, t) else None
  {
    ParentIsNearest(s, i);
    match Parent(s, i)
    case Some(p) =>
      OpenAtWitness(s, i, p);
      if t >= 0 {
        var j0 := OpenAt(s, i, t).value;
        if s[p].level < t {
          assert false;
        }
      }
    case None =>
  }

  /** The id of the node at an optional position. */
  function IdAt(s: seq<Node>, o: Option<nat>): Option<NodeId>
    requires o.Some? ==> o.value < |s|
  {
    match o
    case None => None
    case Some(j) => Some(s[j].id)
  }

  // ---------------------------------------------------------------------------
  // indexOfChild, getChildren, getParents
  // ---------------------------------------------------------------------------

  /** The first position whose node has the given id, or -1 when there is none. */
  function FirstIndex(s: seq<Node>, id: NodeId): (r: int)
    ensures -1 <= r < |s|
    ensures r == -1 <==> forall k :: 0 <= k < |s| ==> s[k].id != id
    ensures r >= 0 ==> s[r].id == id && forall k :: 0 <= k < r ==> s[k].id != id
  {
    if s == [] then -1
    else if s[0].id == id then 0
    else
      var r := FirstIndex(s[1..], id);
      if r == -1 then -1 else r + 1
  }

  method IndexOfChild(id: NodeId, children: seq<Node>) returns (index: int)
    ensures index == FirstIndex(children, id)
  {
    index := -1;
    var i := 0;
    while i < |children|
      invariant 0 <= i <= |children|
      invariant index == -1
      invariant forall k :: 0 <= k < i ==> children[k].id != id
    {
      if children[i].id == id {
        index := i;
        break;
      }
      i := i + 1;
    }
  }

  /**
   * The end of the run that starts at k and holds only nodes deeper than bound:
   * the first position from k on whose level is at most bound, or |s|.
   */
  function RunEnd(s: seq<Node>, bound: nat, k: nat): (e: nat)
    requires k <= |s|
    ensures k <= e <= |s|
    ensures forall m :: k <= m < e ==> s[m].level > bound
    ensures e == |s| || s[e].level <= bound
    decreases |s| - k
  {
    if k == |s| || s[k].level <= bound then k else RunEnd(s, bound, k + 1)
  }

  /** The end of the subtree of node i. */
  function SubtreeEnd(s: seq<Node>, i: nat): nat
    requires i < |s|
  {
    RunEnd(s, s[i].level, i + 1)
  }

  /** All descendants of node i: the maximal run right after i of deeper nodes. */
  function Descendants(s: seq<Node>, i: nat): seq<Node>
    requires i < |s|
  {
    s[i + 1..SubtreeEnd(s, i)]
  }

  /** The subtree run holds exactly the nodes that i is an ancestor of. */
  lemma {:induction false} DescendantsExact(s: seq<Node>, i: nat)
    requires i < |s|
    ensures forall j :: IsAncestor(s, i, j) <==> i < j < SubtreeEnd(s, i)
  {
    var e := SubtreeEnd(s, i);
    forall j | IsAncestor(s, i, j)
      ensures j < e
    {
      if e <= j {
        assert false;
      }
    }
  }

  /** Ancestry inside a slice is ancestry in the whole sequence, shifted. */
  lemma {:induction false} SliceAncestors(s: seq<Node>, lo: nat, hi: nat)
    requires lo <= hi <= |s|
    ensures forall a, j {:trigger IsAncestor(s[lo..hi], a, j)} :: 0 <= a < j < hi - lo ==>
      (IsAncestor(s[lo..hi], a, j) <==> IsAncestor(s, lo + a, lo + j))
  {
    var t := s[lo..hi];
    forall a, j | 0 <= a < j < hi - lo
      ensures IsAncestor(t, a, j) <==> IsAncestor(s, lo + a, lo + j)
    {
      if IsAncestor(s, lo + a, lo + j) {
        forall k | a < k <= j
          ensures t[k].level > t[a].level
        {
          assert t[k] == s[lo + k] && t[a] == s[lo + a];
        }
      }
      if IsAncestor(t, a, j) {
        forall k | lo + a < k <= lo + j
          ensures s[k].level > s[lo + a].level
        {
          assert t[k - lo] == s[k] && t[a] == s[lo + a];
        }
      }
    }
  }

  method GetChildren(id: NodeId, children: seq<Node>) returns (res: seq<Node>)
    ensures var i := FirstIndex(children, id);
      res == if i == -1 then [] else Descendants(children, i)
  {
    var index := IndexOfChild(id, children);
    res := [];
    if index == -1 {
      return;
    }
    var level := children[index].level;
    var i := index + 1;
    while i < |children|
      invariant index + 1 <= i <= |children|
      invariant res == children[index + 1..i]
      invariant forall m :: index + 1 <= m < i ==> children[m].level > level
    {
      var cur := children[i];
      if cur.level <= level {
        break;
      }
      res := res + [cur];
      i := i + 1;
    }
    assert i == RunEnd(children, level, index + 1);
  }

  /** A bound of 0 admits nothing. */
  lemma {:induction false} ScanFromZero(s: seq<Node>, k: nat)
    requires k <= |s|
    ensures Scan(s, 0, k) == []
  {
    if k > 0 {
      ScanFromZero(s, k - 1);
    }
  }

  method GetParents(id: NodeId, children: seq<Node>) returns (res: seq<Node>)
    ensures var i := FirstIndex(children, id);
      res == if i == -1 then [] else AncestorNodes(children, i)
  {
    var index := IndexOfChild(id, children);
    res := [];
    if index == -1 {
      return;
    }
    res := ParentsFrom(children, index);
  }

  /** The backward climb from node index, keeping each node of a smaller level than the last kept. */
  method ParentsFrom(children: seq<Node>, index: nat) returns (res: seq<Node>)
    requires index < |children|
    ensures res == AncestorNodes(children, index)
  {
    res := [];
    var level := children[index].level;
    var i := index - 1;
    ghost var taken: seq<nat> := [];
    while i >= 0
      invariant -1 <= i < index
      invariant taken + Scan(children, level, i + 1) == Ancestors(children, index)
      invariant |res| == |taken| && forall k :: 0 <= k < |taken| ==> taken[k] < |children| && res[k] == children[taken[k]]
    {
      var cur := children[i];
      var curLevel := cur.level;
      if curLevel < level {
        assert Scan(children, level, i + 1) == [i] + Scan(children, curLevel, i);
        res := res + [cur];
        taken := taken + [i];
        level := curLevel;
      }
      if curLevel == 0 {
        ScanFromZero(children, i);
        break;
      }
      i := i - 1;
    }
    if i == -1 {
      assert Scan(children, level, 0) == [];
    }
    AncestorNodesAre(children, index, taken, res);
  }

  /** Nodes read off at the ancestor indices are the ancestor nodes. */
  lemma {:induction false} AncestorNodesAre(s: seq<Node>, i: nat, taken: seq<nat>, res: seq<Node>)
    requires i < |s| && taken == Ancestors(s, i)
    requires |res| == |taken| && forall k :: 0 <= k < |taken| ==> taken[k] < |s| && res[k] == s[taken[k]]
    ensures res == AncestorNodes(s, i)
  {
    var r := AncestorNodes(s, i);
    assert |r| == |res|;
    forall k | 0 <= k < |res|
      ensures res[k] == r[k]
    {
    }
  }

  // ---------------------------------------------------------------------------
  // inferChecked, setCheckedMap, setExpandedMap
  // ---------------------------------------------------------------------------

  /** Every listed node has the given checked state. */
  predicate AllInState(checked: Checked, children: seq<Node>, v: CheckedState)
  {
    forall k :: 0 <= k < |children| ==> GetCheckedState(checked, children[k].id) == v
  }

  /**
   * The state a parent takes from its children: nothing to infer from no
   * children, 2 when all are checked, 0 when all are unchecked, 1 otherwise.
   */
  function Inferred(checked: Checked, children: seq<Node>): Option<CheckedState>
  {
    if |children| == 0 then None
    else if AllInState(checked, children, 2) then Some(2)
    else if AllInState(checked, children, 0) then Some(0)
    else Some(1)
  }

  method InferChecked(checked: Checked, children: seq<Node>) returns (state: Option<CheckedState>)
    ensures state == Inferred(checked, children)
  {
    state := None;
    if |children| > 0 {
      var hasState0 := false;
      var hasState2 := false;
      var i := 0;
      while i < |children|
        invariant 0 <= i <= |children|
        invariant hasState0 <==> exists k :: 0 <= k < i && GetCheckedState(checked, children[k].id) != 2
        invariant hasState2 <==> exists k :: 0 <= k < i && GetCheckedState(checked, children[k].id) != 0
        invariant !(hasState0 && hasState2)
      {
        var id := children[i].id;
        if id in checked {
          var v := checked[id];
          if v == 0 {
            hasState0 := true;
          } else if v == 1 {
            hasState0, hasState2 := true, true;
          } else {
            hasState2 := true;
          }
        } else {
          hasState0 := true;
        }
        if hasState0 && hasState2 {
          break;
        }
        i := i + 1;
      }
      assert GetCheckedState(checked, children[0].id) != 2 || GetCheckedState(checked, children[0].id) != 0;
      if hasState0 && hasState2 {
        state := Some(1);
      } else if hasState0 && !hasState2 {
        state := Some(0);
      } else if !hasState0 && hasState2 {
        state := Some(2);
      }
    }
  }

  /** One indeterminate child makes the parent indeterminate. */
  lemma {:induction false} InferredIndeterminate(checked: Checked, children: seq<Node>, k: nat)
    requires k < |children| && GetCheckedState(checked, children[k].id) == 1
    ensures Inferred(checked, children) == Some(1)
  {
  }

  /** Children both checked and unchecked make the parent indeterminate. */
  lemma {:induction false} InferredMixed(checked: Checked, children: seq<Node>, a: nat, b: nat)
    requires a < |children| && b < |children|
    requires GetCheckedState(checked, children[a].id) == 2 && GetCheckedState(checked, children[b].id) == 0
    ensures Inferred(checked, children) == Some(1)
  {
  }

  /** Store a checked state; 0 is stored by deleting the key. */
  function SetCheckedMap(m: Checked, key: NodeId, value: CheckedState): (r: Checked)
    ensures key in r <==> value != 0
    ensures key in r ==> r[key] == value
    ensures forall k :: k != key ==> (k in r <==> k in m) && (k in r ==> r[k] == m[k])
  {
    if value == 0 then m - {key} else m[key := value]
  }

  /** Reading back a stored checked state gives the value stored. */
  lemma {:induction false} SetCheckedMapRoundTrip(m: Checked, key: NodeId, value: CheckedState, other: NodeId)
    ensures GetCheckedState(SetCheckedMap(m, key, value), key) == value
    ensures other != key ==> GetCheckedState(SetCheckedMap(m, key, value), other) == GetCheckedState(m, other)
  {
  }

  /** Store an expanded flag; only `true` is kept, anything else deletes the key. */
  function SetExpandedMap(m: Expanded, key: NodeId, value: bool): (r: Expanded)
    ensures key in r <==> value
    ensures key in r ==> r[key]
    ensures forall k :: k != key ==> (k in r <==> k in m) && (k in r ==> r[k] == m[k])
  {
    if value then m[key := true] else m - {key}
  }

  /** Reading back a stored expanded flag gives the value stored. */
  lemma {:induction false} SetExpandedMapRoundTrip(m: Expanded, key: NodeId, value: bool, other: NodeId)
    ensures IsExpanded(SetExpandedMap(m, key, value), key) == value
    ensures other != key ==> IsExpanded(SetExpandedMap(m, key, value), other) == IsExpanded(m, other)
  {
  }

  // ---------------------------------------------------------------------------
  // Sparse stacks: a JavaScript array with holes is a sequence of options
  // ---------------------------------------------------------------------------

  /** `stack[l] = x`: overwrite slot l, padding with holes when l is past the end. */
  function SetAt<T>(stack: seq<Option<T>>, l: nat, x: T): (r: seq<Option<T>>)
    ensures |r| == if l < |stack| then |stack| else l + 1
    ensures r[l] == Some(x)
    ensures forall k :: 0 <= k < |stack| && k != l ==> r[k] == stack[k]
    ensures forall k :: |stack| <= k < l ==> r[k] == None
  {
    if l < |stack| then stack[l := Some(x)] else stack + seq(l - |stack|, _ => None) + [Some(x)]
  }

  /** Drop the holes at the top of the stack. */
  method PopEmpty<T>(stack: seq<Option<T>>) returns (r: seq<Option<T>>)
    ensures |r| <= |stack| && r == stack[..|r|]
    ensures forall k :: |r| <= k < |stack| ==> stack[k] == None
    ensures r == [] || r[|r| - 1].Some?
  {
    r := stack;
    var i := |stack| - 1;
    while i >= 0
      invariant -1 <= i < |stack| && |r| == i + 1
      invariant r == stack[..|r|]
      invariant forall k :: |r| <= k < |stack| ==> stack[k] == None
    {
      if r[i] == None {
        r := r[..i];
      } else {
        break;
      }
      i := i - 1;
    }
  }

  // ---------------------------------------------------------------------------
  // filterChildren
  // ---------------------------------------------------------------------------

  /** A condition on a node and its position, as the filter callbacks receive them. */
  type Condition = (Node, nat) -> bool

  /** Node i passes itself and every one of its ancestors passes parentsCondition. */
  predicate Kept(s: seq<Node>, i: nat, parentsCondition: Condition, selfCondition: Condition)
    requires i < |s|
  {
    selfCondition(s[i], i) && forall a :: 0 <= a < i && IsAncestor(s, a, i) ==> parentsCondition(s[a], a)
  }

  /** The kept nodes of s[..n], in order. */
  function FilterSpec(s: seq<Node>, n: nat, parentsCondition: Condition, selfCondition: Condition): seq<Node>
    requires n <= |s|
  {
    if n == 0 then []
    else
      var kept := if Kept(s, n - 1, parentsCondition, selfCondition) then [s[n - 1]] else [];
      FilterSpec(s, n - 1, parentsCondition, selfCondition) + kept
  }

  /** The condition value a stack slot holds for an optional open node. */
  function CondAt(s: seq<Node>, o: Option<nat>, parentsCondition: Condition): Option<bool>
    requires o.Some? ==> o.value < |s|
  {
    match o
    case None => None
    case Some(j) => Some(parentsCondition(s[j], j))
  }

  /** A node is kept exactly when FilterSpec lists it (given unique positions). */
  lemma {:induction false} FilterSpecMembers(s: seq<Node>, n: nat, pc: Condition, sc: Condition)
    requires n <= |s|
    ensures forall x :: x in FilterSpec(s, n, pc, sc) ==>
      exists i :: 0 <= i < n && s[i] == x && Kept(s, i, pc, sc)
    ensures forall i :: 0 <= i < n && Kept(s, i, pc, sc) ==> s[i] in FilterSpec(s, n, pc, sc)
  {
    if n > 0 {
      FilterSpecMembers(s, n - 1, pc, sc);
    }
  }

  method FilterChildren(children: seq<Node>, parentsCondition: Condition, selfCondition: Condition)
    returns (res: seq<Node>)
    ensures res == FilterSpec(children, |children|, parentsCondition, selfCondition)
  {
    var stack: seq<Option<bool>> := [];
    res := [];
    var index := 0;
    while index < |children|
      invariant 0 <= index <= |children|
      invariant res == FilterSpec(children, index, parentsCondition, selfCondition)
      invariant CondStack(children, index, stack, parentsCondition)
    {
      var child := children[index];
      var level := child.level;
      ghost var full := stack;
      if |stack| > level {
        stack := stack[..level];
      }
      var condition1 := Some(false) !in stack;
      var condition2 := selfCondition(child, index);
      ghost var cut := stack;
      stack := SetAt(stack, level, parentsCondition(child, index));
      FilterStackStep(children, index, full, cut, stack, parentsCondition, selfCondition, condition1 && condition2);
      ghost var before := res;
      if condition1 && condition2 {
        res := res + [child];
      }
      FilterSpecStep(children, index, parentsCondition, selfCondition, before, res, condition1 && condition2);
      index := index + 1;
    }
  }

  /** Keeping node i or not extends the filtered prefix. */
  lemma {:induction false} FilterSpecStep(s: seq<Node>, i: nat, pc: Condition, sc: Condition, before: seq<Node>, after: seq<Node>, keep: bool)
    requires i < |s| && before == FilterSpec(s, i, pc, sc) && (keep <==> Kept(s, i, pc, sc))
    requires after == if keep then before + [s[i]] else before
    ensures after == FilterSpec(s, i + 1, pc, sc)
  {
    assert before + [] == before;
  }

  /** The condition stack holds, at each level, the condition value of the node open there after s[..n]. */
  ghost predicate CondStack(s: seq<Node>, n: nat, stack: seq<Option<bool>>, pc: Condition)
    requires n <= |s|
  {
    |stack| == StackLen(s, n) && forall l :: 0 <= l < |stack| ==> stack[l] == CondAt(s, OpenAt(s, n, l), pc)
  }

  /**
   * One step of the filter at node i: the stack cut to the node's level holds
   * a `false` exactly when an ancestor fails, and writing the node's value
   * gives the stack of s[..i + 1].
   */
  lemma {:induction false} FilterStackStep(s: seq<Node>, i: nat, stack: seq<Option<bool>>, cut: seq<Option<bool>>, next: seq<Option<bool>>, pc: Condition, sc: Condition, keep: bool)
    requires i < |s| && CondStack(s, i, stack, pc)
    requires cut == if |stack| > s[i].level then stack[..s[i].level] else stack
    requires next == SetAt(cut, s[i].level, pc(s[i], i))
    requires keep == (Some(false) !in cut && sc(s[i], i))
    ensures keep <==> Kept(s, i, pc, sc)
    ensures CondStack(s, i + 1, next, pc)
  {
    var level := s[i].level;
    AncestorsAreOpen(s, i, cut, pc);
    forall l | 0 <= l < |next|
      ensures next[l] == CondAt(s, OpenAt(s, i + 1, l), pc)
    {
      OpenAtStep(s, i, l);
      if |cut| <= l < level {
        AboveStackIsClosed(s, i, l);
      }
    }
  }

  /**
   * A stack cut down to the levels below node i holds a `false` exactly when
   * some ancestor of i fails the condition.
   */
  lemma {:induction false} AncestorsAreOpen(s: seq<Node>, i: nat, stack: seq<Option<bool>>, pc: Condition)
    requires i < |s| && |stack| <= s[i].level
    requires |stack| == StackLen(s, i) || |stack| == s[i].level
    requires forall l :: 0 <= l < |stack| ==> stack[l] == CondAt(s, OpenAt(s, i, l), pc)
    ensures Some(false) in stack <==> exists a :: IsAncestor(s, a, i) && !pc(s[a], a)
  {
    OpenBelowAreAncestors(s, i);
    forall l | 0 <= l < |stack| && stack[l] == Some(false)
      ensures exists a :: IsAncestor(s, a, i) && !pc(s[a], a)
    {
      var a := OpenAt(s, i, l).value;
      assert IsAncestor(s, a, i);
    }
    if exists a :: IsAncestor(s, a, i) && !pc(s[a], a) {
      var a :| IsAncestor(s, a, i) && !pc(s[a], a);
      var l := s[a].level;
      if l >= |stack| {
        AboveStackIsClosed(s, i, l);
        assert false;
      }
      assert stack[l] == Some(false);
    }
  }

  // ---------------------------------------------------------------------------
  // createNearestChildrenMap
  // ---------------------------------------------------------------------------

  /** The id of the parent of node i, if it has one. */
  function ParentId(s: seq<Node>, i: nat): Option<NodeId>
    requires i < |s|
  {
    IdAt(s, Parent(s, i))
  }

  /** The nodes of s[..n] whose parent has the id key, in order. */
  function NearestOf(s: seq<Node>, n: nat, key: NodeId): seq<Node>
    requires n <= |s|
  {
    if n == 0 then []
    else
      var own := if ParentId(s, n - 1) == Some(key) then [s[n - 1]] else [];
      NearestOf(s, n - 1, key) + own
  }

  /** The parent ids of s[..n], each once, in the order they first occur as a parent. */
  function ParentOrder(s: seq<Node>, n: nat): seq<NodeId>
    requires n <= |s|
  {
    if n == 0 then []
    else
      var ks := ParentOrder(s, n - 1);
      match ParentId(s, n - 1)
      case None => ks
      case Some(p) => if p in ks then ks else ks + [p]
  }

  /**
   * An insertion-ordered map from a parent id to its nearest children:
   * `keys` lists the keys in insertion order.
   */
  datatype NearestChildren = NearestChildren(keys: seq<NodeId>, lists: map<NodeId, seq<Node>>)

  /** The map createNearestChildrenMap builds for s. */
  function NearestChildrenOf(s: seq<Node>): NearestChildren
  {
    var keys := ParentOrder(s, |s|);
    NearestChildren(keys, map k | k in keys :: NearestOf(s, |s|, k))
  }

  /** `map.get(id)`: the children listed for id, or nothing. */
  function Lookup(nc: NearestChildren, id: NodeId): Option<seq<Node>>
  {
    if id in nc.lists then Some(nc.lists[id]) else None
  }

  /** One more node: a key is listed, or has nearest children, when it was before or is that node's parent id. */
  lemma {:induction false} ParentOrderStep(s: seq<Node>, n: nat, key: NodeId)
    requires 0 < n <= |s|
    ensures key in ParentOrder(s, n) <==> key in ParentOrder(s, n - 1) || ParentId(s, n - 1) == Some(key)
    ensures NearestOf(s, n, key) == NearestOf(s, n - 1, key) + (if ParentId(s, n - 1) == Some(key) then [s[n - 1]] else [])
  {
  }

  lemma {:induction false} ParentOrderNearest(s: seq<Node>, n: nat, key: NodeId)
    requires n <= |s|
    ensures key in ParentOrder(s, n) <==> NearestOf(s, n, key) != []
  {
    if n > 0 {
      ParentOrderNearest(s, n - 1, key);
      ParentOrderStep(s, n, key);
    }
  }

  ghost predicate IsParentIdIn(s: seq<Node>, n: nat, key: NodeId)
    requires n <= |s|
  {
    exists i :: 0 <= i < n && ParentId(s, i) == Some(key)
  }

  lemma {:induction false} IsParentIdStep(s: seq<Node>, n: nat, key: NodeId)
    requires 0 < n <= |s|
    ensures IsParentIdIn(s, n, key) <==> IsParentIdIn(s, n - 1, key) || ParentId(s, n - 1) == Some(key)
  {
    if IsParentIdIn(s, n, key) && ParentId(s, n - 1) != Some(key) {
      var i :| 0 <= i < n && ParentId(s, i) == Some(key);
      assert 0 <= i < n - 1;
    }
  }

  lemma {:induction false} ParentOrderExists(s: seq<Node>, n: nat, key: NodeId)
    requires n <= |s|
    ensures key in ParentOrder(s, n) <==> IsParentIdIn(s, n, key)
  {
    if n > 0 {
      ParentOrderExists(s, n - 1, key);
      ParentOrderStep(s, n, key);
      IsParentIdStep(s, n, key);
    }
  }

  /** A key is listed exactly when some node of s[..n] has it as its parent id. */
  lemma {:induction false} ParentOrderMembers(s: seq<Node>, n: nat, key: NodeId)
    requires n <= |s|
    ensures key in ParentOrder(s, n) <==> NearestOf(s, n, key) != []
    ensures key in ParentOrder(s, n) <==> exists i :: 0 <= i < n && ParentId(s, i) == Some(key)
  {
    ParentOrderNearest(s, n, key);
    ParentOrderExists(s, n, key);
  }

  /** The keys are distinct. */
  lemma {:induction false} ParentOrderDistinct(s: seq<Node>, n: nat)
    requires n <= |s|
    ensures Distinct(ParentOrder(s, n))
  {
    if n > 0 {
      ParentOrderDistinct(s, n - 1);
    }
  }

  /** A node NearestOf lists is some node of s[..n] whose parent has the id key. */
  lemma {:induction false} NearestOfSource(s: seq<Node>, n: nat, key: NodeId, x: Node) returns (j: nat)
    requires n <= |s| && x in NearestOf(s, n, key)
    ensures j < n && s[j] == x && ParentId(s, j) == Some(key)
  {
    ParentOrderStep(s, n, key);
    if x in NearestOf(s, n - 1, key) {
      j := NearestOfSource(s, n - 1, key, x);
    } else {
      j := n - 1;
    }
  }

  /** A node of s[..n] whose parent has the id key is listed. */
  lemma {:induction false} NearestOfHas(s: seq<Node>, n: nat, key: NodeId, j: nat)
    requires j < n <= |s| && ParentId(s, j) == Some(key)
    ensures s[j] in NearestOf(s, n, key)
  {
    ParentOrderStep(s, n, key);
    if j < n - 1 {
      NearestOfHas(s, n - 1, key, j);
    }
  }

  /** NearestOf lists exactly the nodes of s[..n] whose parent has the id key. */
  lemma {:induction false} NearestOfMembers(s: seq<Node>, n: nat, key: NodeId)
    requires n <= |s|
    ensures forall x :: x in NearestOf(s, n, key) ==> exists j :: 0 <= j < n && s[j] == x && ParentId(s, j) == Some(key)
    ensures forall j {:trigger ParentId(s, j)} :: 0 <= j < n && ParentId(s, j) == Some(key) ==> s[j] in NearestOf(s, n, key)
  {
    forall x | x in NearestOf(s, n, key)
      ensures exists j :: 0 <= j < n && s[j] == x && ParentId(s, j) == Some(key)
    {
      var j := NearestOfSource(s, n, key, x);
    }
    forall j | 0 <= j < n && ParentId(s, j) == Some(key)
      ensures s[j] in NearestOf(s, n, key)
    {
      NearestOfHas(s, n, key, j);
    }
  }

  /** The keys known after s[..n] are a prefix of the keys known after s[..n']. */
  lemma {:induction false} ParentOrderPrefix(s: seq<Node>, n: nat, n': nat)
    requires n <= n' <= |s|
    ensures |ParentOrder(s, n)| <= |ParentOrder(s, n')| && ParentOrder(s, n) == ParentOrder(s, n')[..|ParentOrder(s, n)|]
    decreases n'
  {
    if n < n' {
      ParentOrderPrefix(s, n, n' - 1);
      var ks := ParentOrder(s, n' - 1);
      assert ParentOrder(s, n') == ks || ParentOrder(s, n') == ks + [ParentId(s, n' - 1).value];
    }
  }

  /** The node right after an ancestor is its child. */
  lemma {:induction false} FirstChild(s: seq<Node>, a: nat, b: nat)
    requires IsAncestor(s, a, b)
    ensures Parent(s, a + 1) == Some(a)
  {
    assert Scan(s, s[a + 1].level, a + 1) == [a] + Scan(s, s[a].level, a);
  }

  /** With unique ids, node b is not yet listed as a parent after s[..b + 1]. */
  lemma {:induction false} NotYetParent(s: seq<Node>, b: nat)
    requires Distinct(Ids(s)) && b < |s|
    ensures s[b].id !in ParentOrder(s, b + 1)
  {
    ParentOrderMembers(s, b + 1, s[b].id);
    forall i | 0 <= i < b + 1 && Parent(s, i).Some?
      ensures s[Parent(s, i).value].id != s[b].id
    {
      DistinctIds(s, Parent(s, i).value, b);
    }
  }

  /** An ancestor a of b is listed as a parent after s[..b + 1]. */
  lemma {:induction false} AncestorListed(s: seq<Node>, a: nat, b: nat)
    requires IsAncestor(s, a, b)
    ensures s[a].id in ParentOrder(s, b + 1)
  {
    FirstChild(s, a, b);
    assert ParentId(s, a + 1) == Some(s[a].id);
    ParentOrderMembers(s, a + 2, s[a].id);
    ParentOrderPrefix(s, a + 2, b + 1);
    var pa := ParentOrder(s, a + 2);
    var x :| 0 <= x < |pa| && pa[x] == s[a].id;
    assert ParentOrder(s, b + 1)[x] == s[a].id;
  }

  /**
   * With unique ids, the keys are ancestors first: when a node is listed as a
   * parent, each of its ancestors is listed before it.
   */
  lemma {:induction false} ParentOrderAncestorsFirst(s: seq<Node>, a: nat, b: nat, y: nat)
    requires Distinct(Ids(s)) && IsAncestor(s, a, b)
    requires y < |ParentOrder(s, |s|)| && ParentOrder(s, |s|)[y] == s[b].id
    ensures exists x :: 0 <= x < y && ParentOrder(s, |s|)[x] == s[a].id
  {
    var pb := ListedPrefix(s, a, b);
    ListedBefore(ParentOrder(s, |s|), pb, s[a].id, s[b].id, y);
  }

  /** The keys known after s[..b + 1]: a prefix of all keys, holding a's id but not b's. */
  lemma {:induction false} ListedPrefix(s: seq<Node>, a: nat, b: nat) returns (pb: seq<NodeId>)
    requires Distinct(Ids(s)) && IsAncestor(s, a, b)
    ensures |pb| <= |ParentOrder(s, |s|)| && pb == ParentOrder(s, |s|)[..|pb|]
    ensures s[a].id in pb && s[b].id !in pb
  {
    pb := ParentOrder(s, b + 1);
    AncestorListed(s, a, b);
    NotYetParent(s, b);
    ParentOrderPrefix(s, b + 1, |s|);
  }

  /** In a sequence extending a prefix, what the prefix holds comes before what it lacks. */
  lemma {:induction false} ListedBefore(keys: seq<NodeId>, prefix: seq<NodeId>, early: NodeId, late: NodeId, y: nat)
    requires |prefix| <= |keys| && prefix == keys[..|prefix|]
    requires early in prefix && late !in prefix
    requires y < |keys| && keys[y] == late
    ensures exists x :: 0 <= x < y && keys[x] == early
  {
    var x :| 0 <= x < |prefix| && prefix[x] == early;
    assert keys[x] == early;
    assert forall k :: 0 <= k < |prefix| ==> keys[k] == prefix[k] && prefix[k] != late;
  }

  /** The id stack holds, at each level, the id of the node open there after s[..n]. */
  ghost predicate IdStack(s: seq<Node>, n: nat, stack: seq<Option<NodeId>>)
    requires n <= |s|
  {
    |stack| == StackLen(s, n) && forall l :: 0 <= l < |stack| ==> stack[l] == IdAt(s, OpenAt(s, n, l))
  }

  /** keys and lists are the insertion-ordered map built from s[..n]. */
  ghost predicate ListsOf(s: seq<Node>, n: nat, keys: seq<NodeId>, lists: map<NodeId, seq<Node>>)
    requires n <= |s|
  {
    keys == ParentOrder(s, n) &&
    (forall k :: k in lists <==> k in keys) &&
    forall k :: k in lists ==> lists[k] == NearestOf(s, n, k)
  }

  /**
   * The stack after popping the holes left by the cut at the level of node i:
   * its top is the id of the parent of i.
   */
  lemma {:induction false} NearestStackTop(s: seq<Node>, i: nat, full: seq<Option<NodeId>>, st: seq<Option<NodeId>>)
    requires i < |s| && IdStack(s, i, full)
    requires |st| <= |full| && |st| <= s[i].level && st == full[..|st|]
    requires forall k :: |st| <= k < |full| && k < s[i].level ==> full[k] == None
    requires st == [] || st[|st| - 1].Some?
    ensures (if |st| > 0 then st[|st| - 1] else None) == ParentId(s, i)
  {
    var t := |st| - 1;
    forall l: nat | t < l < s[i].level
      ensures OpenAt(s, i, l).None?
    {
      if l >= |full| {
        AboveStackIsClosed(s, i, l);
      }
    }
    ParentIsTopOpen(s, i, t);
  }

  /** Writing node i at its level gives the stack of s[..i + 1]. */
  lemma {:induction false} NearestStackStep(s: seq<Node>, i: nat, full: seq<Option<NodeId>>, cut: seq<Option<NodeId>>)
    requires i < |s| && IdStack(s, i, full)
    requires |cut| <= |full| && cut == full[..|cut|]
    requires forall k :: |cut| <= k < |full| && k < s[i].level ==> full[k] == None
    requires |cut| <= s[i].level
    ensures IdStack(s, i + 1, SetAt(cut, s[i].level, s[i].id))
  {
    var next := SetAt(cut, s[i].level, s[i].id);
    forall l | 0 <= l < |next|
      ensures next[l] == IdAt(s, OpenAt(s, i + 1, l))
    {
      OpenAtStep(s, i, l);
      if |full| <= l < s[i].level {
        AboveStackIsClosed(s, i, l);
      } else if |cut| <= l < s[i].level {
        assert full[l] == None;
      }
    }
  }

  /** Appending node i to the list of its parent id gives the map of s[..i + 1]. */
  lemma {:induction false} NearestListsStep(s: seq<Node>, i: nat, keys: seq<NodeId>, lists: map<NodeId, seq<Node>>)
    requires i < |s| && ListsOf(s, i, keys, lists)
    ensures ParentId(s, i).None? ==> ListsOf(s, i + 1, keys, lists)
    ensures ParentId(s, i).Some? ==>
      var pid := ParentId(s, i).value;
      ListsOf(s, i + 1,
        if pid in lists then keys else keys + [pid],
        lists[pid := (if pid in lists then lists[pid] else []) + [s[i]]])
  {
    if ParentId(s, i).Some? {
      ParentOrderMembers(s, i, ParentId(s, i).value);
    }
  }

  /**
   * One step of a level stack of ids at node i: cut the stack to the level of
   * the node and pop the holes, read the parent id off the top, then write
   * the node's id at its level.
   */
  method StackStep(s: seq<Node>, i: nat, stack: seq<Option<NodeId>>)
    returns (parentId: Option<NodeId>, next: seq<Option<NodeId>>)
    requires i < |s| && IdStack(s, i, stack)
    ensures parentId == ParentId(s, i) && IdStack(s, i + 1, next)
  {
    var level := s[i].level;
    var st := stack;
    if |st| > level {
      st := st[..level];
      st := PopEmpty(st);
    } else if i > 0 {
      OpenAtWitness(s, i, i - 1);
    }
    parentId := if |st| > 0 then st[|st| - 1] else None;
    NearestStackTop(s, i, stack, st);
    NearestStackStep(s, i, stack, st);
    next := SetAt(st, level, s[i].id);
  }

  method CreateNearestChildrenMap(children: seq<Node>) returns (res: NearestChildren)
    ensures res == NearestChildrenOf(children)
  {
    var keys: seq<NodeId> := [];
    var lists: map<NodeId, seq<Node>> := map[];
    var stack: seq<Option<NodeId>> := [];
    var i := 0;
    while i < |children|
      invariant 0 <= i <= |children|
      invariant ListsOf(children, i, keys, lists)
      invariant IdStack(children, i, stack)
    {
      var cur := children[i];
      var parentId;
      parentId, stack := StackStep(children, i, stack);
      NearestListsStep(children, i, keys, lists);
      if parentId.Some? {
        var pid := parentId.value;
        var arr := if pid in lists then lists[pid] else [];
        arr := arr + [cur];
        if pid !in lists {
          keys := keys + [pid];
        }
        lists := lists[pid := arr];
      }
      i := i + 1;
    }
    assert lists == map k | k in keys :: NearestOf(children, |children|, k);
    res := NearestChildren(keys, lists);
  }

  // ---------------------------------------------------------------------------
  // flatChildren
  // ---------------------------------------------------------------------------

  /** A tree node keeps its declared level unless that is missing or shallower than where it sits. */
  function NewLevel(declared: Option<int>, level: nat): (r: nat)
    ensures r >= level
    ensures declared.Some? && declared.value >= level ==> r == declared.value
    ensures declared.None? || declared.value < level ==> r == level
  {
    if declared.None? || declared.value < level then level else declared.value
  }

  /** The tree-node children among kids, in order. */
  function TreeKids(kids: seq<Element>): (r: seq<Element>)
    ensures forall t :: t in r ==> t in kids && t.TreeNode?
  {
    if kids == [] then []
    else (if kids[0].TreeNode? then [kids[0]] else []) + TreeKids(kids[1..])
  }

  /** The truthiness of the other children among kids, in order. */
  function OtherContent(kids: seq<Element>): seq<bool>
  {
    if kids == [] then []
    else (if kids[0].Other? then [kids[0].truthy] else []) + OtherContent(kids[1..])
  }

  /**
   * The pre-order flattening of one element found at depth `level`: a tree
   * node becomes one flat node carrying its other children as content,
   * followed by the flattening of its tree-node children one level deeper.
   */
  function Flatten(e: Element, level: nat): seq<Node>
  {
    match e
    case Other(_) => []
    case TreeNode(id, declared, _, kids) =>
      var nl := NewLevel(declared, level);
      [Node(id, nl, OtherContent(kids))] + FlattenAll(kids, nl + 1)
  }

  function FlattenAll(es: seq<Element>, level: nat): seq<Node>
  {
    if es == [] then [] else Flatten(es[0], level) + FlattenAll(es[1..], level)
  }

  /** The set of ids of s. */
  function IdSet(s: seq<Node>): set<NodeId>
  {
    if s == [] then {} else {s[0].id} + IdSet(s[1..])
  }

  /** The ids of s that were seen before (in `seen` or earlier in s), one entry per repeat. */
  function Repeats(seen: set<NodeId>, s: seq<Node>): seq<NodeId>
    decreases |s|
  {
    if s == [] then []
    else (if s[0].id in seen then [s[0].id] else []) + Repeats(seen + {s[0].id}, s[1..])
  }

  lemma {:induction false} IdSetAppend(a: seq<Node>, b: seq<Node>)
    ensures IdSet(a + b) == IdSet(a) + IdSet(b)
  {
    if a == [] {
      assert a + b == b;
    } else {
      assert (a + b)[0] == a[0];
      assert (a + b)[1..] == a[1..] + b;
      IdSetAppend(a[1..], b);
    }
  }

  lemma {:induction false} IdSetMembers(s: seq<Node>)
    ensures forall x :: x in IdSet(s) <==> exists k :: 0 <= k < |s| && s[k].id == x
  {
    if s != [] {
      IdSetMembers(s[1..]);
      assert forall k :: 1 <= k < |s| ==> s[k] == s[1..][k - 1];
    }
  }

  lemma {:induction false} RepeatsAppend(seen: set<NodeId>, a: seq<Node>, b: seq<Node>)
    ensures Repeats(seen, a + b) == Repeats(seen, a) + Repeats(seen + IdSet(a), b)
    decreases |a|
  {
    if a == [] {
      assert a + b == b;
      assert seen + IdSet(a) == seen;
    } else {
      assert (a + b)[0] == a[0];
      assert (a + b)[1..] == a[1..] + b;
      RepeatsAppend(seen + {a[0].id}, a[1..], b);
      assert seen + {a[0].id} + IdSet(a[1..]) == seen + IdSet(a);
    }
  }

  /** No repeat is reported exactly when the ids are distinct and none was seen before. */
  lemma {:induction false} RepeatsEmpty(seen: set<NodeId>, s: seq<Node>)
    ensures Repeats(seen, s) == [] <==> Distinct(Ids(s)) && forall k :: 0 <= k < |s| ==> s[k].id !in seen
    decreases |s|
  {
    if s != [] {
      RepeatsEmpty(seen + {s[0].id}, s[1..]);
      assert forall k :: 1 <= k < |s| ==> s[k] == s[1..][k - 1];
      if Repeats(seen, s) == [] {
        assert s[0].id !in seen;
        forall a, b | 0 <= a < b < |s|
          ensures Ids(s)[a] != Ids(s)[b]
        {
          if a > 0 {
            assert Ids(s[1..])[a - 1] != Ids(s[1..])[b - 1];
          }
        }
      }
      if Distinct(Ids(s)) && forall k :: 0 <= k < |s| ==> s[k].id !in seen {
        forall a, b | 0 <= a < b < |s[1..]|
          ensures Ids(s[1..])[a] != Ids(s[1..])[b]
        {
          assert Ids(s)[a + 1] != Ids(s)[b + 1];
        }
        assert Distinct(Ids(s[1..]));
      }
    }
  }

  lemma {:induction false} FlattenAllAppend(a: seq<Element>, b: seq<Element>, level: nat)
    ensures FlattenAll(a + b, level) == FlattenAll(a, level) + FlattenAll(b, level)
  {
    if a == [] {
      assert a + b == b;
    } else {
      assert (a + b)[0] == a[0];
      assert (a + b)[1..] == a[1..] + b;
      FlattenAllAppend(a[1..], b, level);
    }
  }

  /** Other children contribute nothing to the flattening. */
  lemma {:induction false} FlattenSkipsOthers(kids: seq<Element>, level: nat)
    ensures FlattenAll(kids, level) == FlattenAll(TreeKids(kids), level)
  {
    if kids != [] {
      FlattenSkipsOthers(kids[1..], level);
      var rest := TreeKids(kids[1..]);
      if kids[0].TreeNode? {
        assert TreeKids(kids) == [kids[0]] + rest;
        assert ([kids[0]] + rest)[0] == kids[0];
        assert ([kids[0]] + rest)[1..] == rest;
      } else {
        assert TreeKids(kids) == rest;
        assert FlattenAll(kids, level) == FlattenAll(kids[1..], level);
      }
    }
  }

  lemma {:induction false} TreeKidsAppend(a: seq<Element>, b: seq<Element>)
    ensures TreeKids(a + b) == TreeKids(a) + TreeKids(b)
  {
    if a == [] {
      assert a + b == b;
    } else {
      assert (a + b)[0] == a[0] && (a + b)[1..] == a[1..] + b;
      TreeKidsAppend(a[1..], b);
    }
  }

  lemma {:induction false} OtherContentAppend(a: seq<Element>, b: seq<Element>)
    ensures OtherContent(a + b) == OtherContent(a) + OtherContent(b)
  {
    if a == [] {
      assert a + b == b;
    } else {
      assert (a + b)[0] == a[0] && (a + b)[1..] == a[1..] + b;
      OtherContentAppend(a[1..], b);
    }
  }

  lemma {:induction false} PartitionStep(kids: seq<Element>, k: nat)
    requires k < |kids|
    ensures TreeKids(kids[..k + 1]) == TreeKids(kids[..k]) + (if kids[k].TreeNode? then [kids[k]] else [])
    ensures OtherContent(kids[..k + 1]) == OtherContent(kids[..k]) + (if kids[k].Other? then [kids[k].truthy] else [])
  {
    assert kids[..k + 1] == kids[..k] + [kids[k]];
    TreeKidsAppend(kids[..k], [kids[k]]);
    OtherContentAppend(kids[..k], [kids[k]]);
    assert [kids[k]][1..] == [];
  }

  /** Split the children of a tree node into tree nodes and other content, keeping order. */
  method Partition(kids: seq<Element>) returns (treeNodes: seq<Element>, otherNodes: seq<bool>)
    ensures treeNodes == TreeKids(kids) && otherNodes == OtherContent(kids)
  {
    treeNodes, otherNodes := [], [];
    var k := 0;
    while k < |kids|
      invariant 0 <= k <= |kids|
      invariant treeNodes == TreeKids(kids[..k]) && otherNodes == OtherContent(kids[..k])
    {
      var c := kids[k];
      PartitionStep(kids, k);
      if c.TreeNode? {
        treeNodes := treeNodes + [c];
      } else {
        otherNodes := otherNodes + [c.truthy];
      }
      k := k + 1;
    }
    assert kids[..k] == kids;
  }

  lemma {:induction false} FlattenAllSnoc(ts: seq<Element>, j: nat, level: nat)
    requires j < |ts|
    ensures FlattenAll(ts[..j + 1], level) == FlattenAll(ts[..j], level) + Flatten(ts[j], level)
  {
    FlattenAllAppend(ts[..j], [ts[j]], level);
    assert ts[..j + 1] == ts[..j] + [ts[j]];
    assert FlattenAll([ts[j]], level) == Flatten(ts[j], level) + FlattenAll([], level);
  }

  /** Flattening one more element extends the flattening of the elements before it. */
  lemma {:induction false} FlattenAllStep(ts: seq<Element>, j: nat, level: nat, res0: seq<Node>, mid: seq<Node>, res: seq<Node>)
    requires j < |ts| && mid == res0 + FlattenAll(ts[..j], level) && res == mid + Flatten(ts[j], level)
    ensures res == res0 + FlattenAll(ts[..j + 1], level)
  {
    FlattenAllSnoc(ts, j, level);
  }

  /** idSet holds the ids of res and dups the repeats reported along it. */
  ghost predicate Tracked(res: seq<Node>, idSet: set<NodeId>, dups: seq<NodeId>)
  {
    idSet == IdSet(res) && dups == Repeats({}, res)
  }

  /** Appending one node adds its id to the set and reports it when it was seen before. */
  lemma {:induction false} RecordOne(res: seq<Node>, node: Node)
    ensures IdSet(res + [node]) == IdSet(res) + {node.id}
    ensures Repeats({}, res + [node]) == Repeats({}, res) + (if node.id in IdSet(res) then [node.id] else [])
  {
    RepeatsAppend({}, res, [node]);
    IdSetAppend(res, [node]);
    assert [node][1..] == [];
    assert {} + IdSet(res) == IdSet(res);
  }

  /**
   * Flatten the element `child` found at depth `level`, appending to res and
   * keeping idSet the ids seen and dups the repeats reported so far.
   */
  method FlattenInto(child: Element, level: nat, res0: seq<Node>, idSet0: set<NodeId>, dups0: seq<NodeId>)
    returns (res: seq<Node>, idSet: set<NodeId>, dups: seq<NodeId>)
    requires Tracked(res0, idSet0, dups0)
    ensures res == res0 + Flatten(child, level)
    ensures Tracked(res, idSet, dups)
    decreases child, 1
  {
    res, idSet, dups := res0, idSet0, dups0;
    if child.Other? {
      assert res0 + [] == res0;
      return;
    }
    var id := child.id;
    if id in idSet {
      dups := dups + [id];
    }
    idSet := idSet + {id};
    var treeNodes, otherNodes := Partition(child.children);
    var newLevel := NewLevel(child.level, level);
    var node := Node(id, newLevel, otherNodes);
    RecordOne(res, node);
    res := res + [node];
    res, idSet, dups := FlattenEach(child, treeNodes, newLevel + 1, res, idSet, dups);
    FlattenTreeNode(child, level);
    assert res == res0 + ([node] + FlattenAll(treeNodes, newLevel + 1));
  }

  /** A tree node flattens to its own node followed by its tree-node children one level deeper. */
  lemma {:induction false} FlattenTreeNode(e: Element, level: nat)
    requires e.TreeNode?
    ensures var nl := NewLevel(e.level, level);
      Flatten(e, level) == [Node(e.id, nl, OtherContent(e.children))] + FlattenAll(TreeKids(e.children), nl + 1)
  {
    FlattenSkipsOthers(e.children, NewLevel(e.level, level) + 1);
  }

  /** Flatten each of the tree-node children ts of parent, in order, at depth `level`. */
  method FlattenEach(parent: Element, ts: seq<Element>, level: nat, res0: seq<Node>, idSet0: set<NodeId>, dups0: seq<NodeId>)
    returns (res: seq<Node>, idSet: set<NodeId>, dups: seq<NodeId>)
    requires parent.TreeNode? && forall t :: t in ts ==> t in parent.children
    requires Tracked(res0, idSet0, dups0)
    ensures res == res0 + FlattenAll(ts, level)
    ensures Tracked(res, idSet, dups)
    decreases parent, 0
  {
    res, idSet, dups := res0, idSet0, dups0;
    for j := 0 to |ts|
      invariant res == res0 + FlattenAll(ts[..j], level)
      invariant Tracked(res, idSet, dups)
    {
      assert ts[j] in parent.children;
      ghost var mid := res;
      res, idSet, dups := FlattenInto(ts[j], level, res, idSet, dups);
      FlattenAllStep(ts, j, level, res0, mid, res);
    }
    assert ts[..|ts|] == ts;
  }

  method FlatChildren(children: seq<Element>) returns (res: seq<Node>, duplicates: seq<NodeId>)
    ensures res == FlattenAll(children, 0)
    ensures duplicates == Repeats({}, res)
  {
    res := [];
    var idSet: set<NodeId> := {};
    duplicates := [];
    var k := 0;
    while k < |children|
      invariant 0 <= k <= |children|
      invariant res == FlattenAll(children[..k], 0)
      invariant Tracked(res, idSet, duplicates)
    {
      ghost var mid := res;
      res, idSet, duplicates := FlattenInto(children[k], 0, res, idSet, duplicates);
      FlattenAllStep(children, k, 0, [], mid, res);
      k := k + 1;
    }
    assert children[..k] == children;
  }

  /** Every flat node is at least as deep as the depth its element was found at. */
  lemma {:induction false} FlattenLevels(e: Element, level: nat)
    ensures forall k :: 0 <= k < |Flatten(e, level)| ==> Flatten(e, level)[k].level >= level
    decreases e, 1
  {
    if e.TreeNode? {
      var nl := NewLevel(e.level, level);
      FlattenAllLevels(e.children, nl + 1);
    }
  }

  lemma {:induction false} FlattenAllLevels(es: seq<Element>, level: nat)
    ensures forall k :: 0 <= k < |FlattenAll(es, level)| ==> FlattenAll(es, level)[k].level >= level
    decreases es, 0
  {
    if es != [] {
      FlattenLevels(es[0], level);
      FlattenAllLevels(es[1..], level);
      var a, b := Flatten(es[0], level), FlattenAll(es[1..], level);
      assert forall k :: |a| <= k < |a + b| ==> (a + b)[k] == b[k - |a|];
    }
  }

  /** RunEnd is the first position from k on that ends the run. */
  lemma {:induction false} RunEndExact(s: seq<Node>, bound: nat, k: nat, e: nat)
    requires k <= e <= |s|
    requires forall m :: k <= m < e ==> s[m].level > bound
    requires e == |s| || s[e].level <= bound
    ensures RunEnd(s, bound, k) == e
    decreases e - k
  {
    if k < e {
      RunEndExact(s, bound, k + 1, e);
    }
  }

  /**
   * Wherever the flattening of a tree node lands, as long as what follows it
   * is not deeper than the node, its descendants in the flat sequence are
   * exactly the flattening of its children.
   */
  lemma {:induction false} SubtreeOfFlatten(p: seq<Node>, e: Element, level: nat, q: seq<Node>)
    requires e.TreeNode?
    requires var nl := NewLevel(e.level, level); q == [] || q[0].level <= nl
    ensures var s := p + Flatten(e, level) + q;
      |p| < |s| && s[|p|].id == e.id && s[|p|].level == NewLevel(e.level, level) &&
      Descendants(s, |p|) == FlattenAll(e.children, NewLevel(e.level, level) + 1)
  {
    var nl := NewLevel(e.level, level);
    var f := Flatten(e, level);
    var kids := FlattenAll(e.children, nl + 1);
    var s := p + f + q;
    assert f == [Node(e.id, nl, OtherContent(e.children))] + kids;
    FlattenAllLevels(e.children, nl + 1);
    assert forall m :: |p| + 1 <= m < |p| + |f| ==> s[m] == kids[m - |p| - 1];
    var end := |p| + |f|;
    assert end < |s| ==> s[end] == q[0];
    RunEndExact(s, nl, |p| + 1, end);
    assert s[|p| + 1..end] == kids;
  }
}
