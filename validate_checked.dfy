/**
 * The checked-state validator: a top-down pass that pushes "checked" from a
 * parent to its children through enabled nodes, then a pass over the
 * nearest-children map, in its insertion order, that re-infers each parent.
 */
module ValidateChecked {
  import opened TreeTypes
  import opened TreeUtils
  import opened TreeContext

  // ---------------------------------------------------------------------------
  // Specification
  // ---------------------------------------------------------------------------

  /**
   * The top-down pass over the first n nodes of the queue: a node whose
   * parent in the queue is checked at that moment becomes checked.
   */
  function TopDown(m: Checked, queue: seq<Node>, n: nat): Checked
    requires n <= |queue|
  {
    if n == 0 then m
    else
      var before := TopDown(m, queue, n - 1);
      match ParentId(queue, n - 1)
      case None => before
      case Some(pid) =>
        if GetCheckedState(before, pid) == 2 then SetCheckedMap(before, queue[n - 1].id, 2) else before
  }

  /** Re-infer one parent: when it has an enabled nearest child, it takes the inferred state. */
  function InferStep(m: Checked, toNearestChildren: NearestChildren, disabled: Disabled, pid: NodeId): Checked
  {
    var list := EnabledNearest(toNearestChildren, pid, disabled);
    if list == [] then m else SetCheckedMap(m, pid, Inferred(m, list).value)
  }

  /** The inference pass over the first n keys of the map, in key order. */
  function BottomUp(m: Checked, toNearestChildren: NearestChildren, disabled: Disabled, n: nat): Checked
    requires n <= |toNearestChildren.keys|
  {
    if n == 0 then m
    else InferStep(BottomUp(m, toNearestChildren, disabled, n - 1), toNearestChildren, disabled, toNearestChildren.keys[n - 1])
  }

  /** The nodes the top-down pass visits: enabled, with no disabled ancestor. */
  function Queue(children: seq<Node>, disabled: Disabled): seq<Node>
  {
    FilterSpec(children, |children|, Enabled(disabled), Enabled(disabled))
  }

  /** The map after both passes. */
  function Corrected(children: seq<Node>, toNearestChildren: NearestChildren, checked: Checked, disabled: Disabled): Checked
  {
    var queue := Queue(children, disabled);
    BottomUp(TopDown(checked, queue, |queue|), toNearestChildren, disabled, |toNearestChildren.keys|)
  }

  /** What a validation produces: nothing when inactive, else the committed map and its callback. */
  datatype Validation = Skipped | Validated(newChecked: Checked, events: seq<Event>)

  /** The validator, end to end: inactive does nothing; otherwise commit once. */
  function ValidateSpec(active: bool, children: seq<Node>, toNearestChildren: NearestChildren, checked: Checked, disabled: Disabled): (r: Validation)
    ensures r.Skipped? <==> !active
    ensures r.Validated? ==> r.events == [CheckedChanged(r.newChecked, checked)]
  {
    if !active then Skipped
    else
      var newChecked := Corrected(children, toNearestChildren, checked, disabled);
      Validated(newChecked, [CheckedChanged(newChecked, checked)])
  }

  // ---------------------------------------------------------------------------
  // The validator
  // ---------------------------------------------------------------------------

  /** The top-down pass, with its level stack of node ids. */
  method TopDownPass(checked: Checked, queue: seq<Node>) returns (newChecked: Checked)
    ensures newChecked == TopDown(checked, queue, |queue|)
  {
    newChecked := checked;
    var stack: seq<Option<NodeId>> := [];
    var i := 0;
    while i < |queue|
      invariant 0 <= i <= |queue|
      invariant newChecked == TopDown(checked, queue, i)
      invariant IdStack(queue, i, stack)
    {
      var parent;
      parent, stack := StackStep(queue, i, stack);
      if parent.Some? {
        var pid := parent.value;
        if pid in newChecked && newChecked[pid] == 2 {
          newChecked := SetCheckedMap(newChecked, queue[i].id, 2);
        }
      }
      i := i + 1;
    }
  }

  /** One parent of the inference pass. */
  method InferParent(m: Checked, toNearestChildren: NearestChildren, disabled: Disabled, pid: NodeId) returns (newChecked: Checked)
    ensures newChecked == InferStep(m, toNearestChildren, disabled, pid)
  {
    newChecked := m;
    var children := if pid in toNearestChildren.lists then EnabledOf(toNearestChildren.lists[pid], disabled) else [];
    if |children| > 0 {
      var state := InferChecked(newChecked, children);
      if state.Some? {
        newChecked := SetCheckedMap(newChecked, pid, state.value);
      }
    }
  }

  /** The inference pass over the map, in its key order. */
  method BottomUpPass(checked: Checked, toNearestChildren: NearestChildren, disabled: Disabled) returns (newChecked: Checked)
    ensures newChecked == BottomUp(checked, toNearestChildren, disabled, |toNearestChildren.keys|)
  {
    newChecked := checked;
    var j := 0;
    while j < |toNearestChildren.keys|
      invariant 0 <= j <= |toNearestChildren.keys|
      invariant newChecked == BottomUp(checked, toNearestChildren, disabled, j)
    {
      newChecked := InferParent(newChecked, toNearestChildren, disabled, toNearestChildren.keys[j]);
      j := j + 1;
    }
  }

  method Validate(active: bool, children: seq<Node>, toNearestChildren: NearestChildren, checked: Checked, disabled: Disabled)
    returns (r: Validation)
    ensures r == ValidateSpec(active, children, toNearestChildren, checked, disabled)
  {
    if !active {
      return Skipped;
    }
    var queue := FilterChildren(children, Enabled(disabled), Enabled(disabled));
    var newChecked := TopDownPass(checked, queue);
    newChecked := BottomUpPass(newChecked, toNearestChildren, disabled);
    r := Validated(newChecked, [CheckedChanged(newChecked, checked)]);
  }

  // ---------------------------------------------------------------------------
  // The top-down pass
  // ---------------------------------------------------------------------------

  /** The pass writes only ids of the visited nodes, and writes only 2. */
  lemma {:induction false} TopDownFrame(m: Checked, queue: seq<Node>, n: nat, key: NodeId)
    requires n <= |queue|
    ensures (forall k :: 0 <= k < n ==> queue[k].id != key) ==> SameAt(TopDown(m, queue, n), m, key)
    ensures SameAt(TopDown(m, queue, n), m, key) || GetCheckedState(TopDown(m, queue, n), key) == 2
  {
    if n > 0 {
      TopDownFrame(m, queue, n - 1, key);
    }
  }

  /** Once checked during the pass, a node stays checked. */
  lemma {:induction false} TopDownKeepsChecked(m: Checked, queue: seq<Node>, n: nat, n': nat, key: NodeId)
    requires n <= n' <= |queue| && GetCheckedState(TopDown(m, queue, n), key) == 2
    ensures GetCheckedState(TopDown(m, queue, n'), key) == 2
    decreases n'
  {
    if n < n' {
      TopDownKeepsChecked(m, queue, n, n' - 1, key);
    }
  }

  /** Nodes at or after position n are not written before step n. */
  lemma {:induction false} TopDownLater(m: Checked, queue: seq<Node>, n: nat, n': nat, key: NodeId)
    requires n <= n' <= |queue|
    requires forall k :: n <= k < n' ==> queue[k].id != key
    ensures SameAt(TopDown(m, queue, n'), TopDown(m, queue, n), key)
    decreases n'
  {
    if n < n' {
      TopDownLater(m, queue, n, n' - 1, key);
    }
  }

  /**
   * With unique ids, the top-down result is closed downwards: a visited node
   * whose parent in the queue ends checked ends checked as well.
   */
  lemma {:induction false} TopDownClosed(m: Checked, queue: seq<Node>, k: nat)
    requires Distinct(Ids(queue)) && k < |queue| && Parent(queue, k).Some?
    requires GetCheckedState(TopDown(m, queue, |queue|), queue[Parent(queue, k).value].id) == 2
    ensures GetCheckedState(TopDown(m, queue, |queue|), queue[k].id) == 2
  {
    var p := Parent(queue, k).value;
    var pid := queue[p].id;
    assert ParentId(queue, k) == Some(pid);
    TopDownParentEarlier(m, queue, k, p);
    TopDownStep(m, queue, k, pid);
  }

  /** With unique ids, an earlier node p ends as it was before step k. */
  lemma {:induction false} TopDownParentEarlier(m: Checked, queue: seq<Node>, k: nat, p: nat)
    requires Distinct(Ids(queue)) && p < k < |queue|
    ensures SameAt(TopDown(m, queue, |queue|), TopDown(m, queue, k), queue[p].id)
  {
    forall t | k <= t < |queue|
      ensures queue[t].id != queue[p].id
    {
      DistinctIds(queue, t, p);
    }
    TopDownLater(m, queue, k, |queue|, queue[p].id);
  }

  /** Step k checks node k when its parent is checked at that moment, and it stays checked. */
  lemma {:induction false} TopDownStep(m: Checked, queue: seq<Node>, k: nat, pid: NodeId)
    requires k < |queue| && ParentId(queue, k) == Some(pid)
    requires GetCheckedState(TopDown(m, queue, k), pid) == 2
    ensures GetCheckedState(TopDown(m, queue, |queue|), queue[k].id) == 2
  {
    var after := TopDown(m, queue, k + 1);
    assert GetCheckedState(after, queue[k].id) == 2;
    TopDownKeepsChecked(m, queue, k + 1, |queue|, queue[k].id);
  }

  /**
   * With unique ids, a node that is disabled or lies under a disabled node is
   * not visited, so the top-down pass leaves it alone.
   */
  lemma {:induction false} TopDownSkipsDisabled(children: seq<Node>, checked: Checked, disabled: Disabled, j: nat)
    requires Distinct(Ids(children)) && j < |children|
    requires IsDisabled(disabled, children[j].id) ||
      exists a :: 0 <= a < j && IsAncestor(children, a, j) && IsDisabled(disabled, children[a].id)
    ensures var queue := Queue(children, disabled);
      SameAt(TopDown(checked, queue, |queue|), checked, children[j].id)
  {
    var en := Enabled(disabled);
    var queue := Queue(children, disabled);
    FilterSpecMembers(children, |children|, en, en);
    assert !Kept(children, j, en, en);
    forall k | 0 <= k < |queue|
      ensures queue[k].id != children[j].id
    {
      assert queue[k] in queue;
      var j' :| 0 <= j' < |children| && children[j'] == queue[k] && Kept(children, j', en, en);
      if j' != j {
        DistinctIds(children, j', j);
      }
    }
    TopDownFrame(checked, queue, |queue|, children[j].id);
  }

  // ---------------------------------------------------------------------------
  // The inference pass
  // ---------------------------------------------------------------------------

  /** The pass writes a key only when it is listed and has an enabled nearest child. */
  lemma {:induction false} BottomUpFrame(m: Checked, toNearestChildren: NearestChildren, disabled: Disabled, n: nat, key: NodeId)
    requires n <= |toNearestChildren.keys|
    requires key !in toNearestChildren.keys[..n] || EnabledNearest(toNearestChildren, key, disabled) == []
    ensures SameAt(BottomUp(m, toNearestChildren, disabled, n), m, key)
  {
    if n > 0 {
      assert toNearestChildren.keys[..n - 1] == toNearestChildren.keys[..n][..n - 1];
      BottomUpFrame(m, toNearestChildren, disabled, n - 1, key);
    }
  }

  /** Keys at or after position n are not written before step n. */
  lemma {:induction false} BottomUpLater(m: Checked, toNearestChildren: NearestChildren, disabled: Disabled, n: nat, n': nat, key: NodeId)
    requires n <= n' <= |toNearestChildren.keys|
    requires forall t :: n <= t < n' ==> toNearestChildren.keys[t] != key
    ensures SameAt(BottomUp(m, toNearestChildren, disabled, n'), BottomUp(m, toNearestChildren, disabled, n), key)
    decreases n'
  {
    if n < n' {
      BottomUpLater(m, toNearestChildren, disabled, n, n' - 1, key);
    }
  }

  /** With distinct keys, a parent ends in the state its own step of the pass gave it. */
  lemma {:induction false} InferredLast(m: Checked, toNearestChildren: NearestChildren, disabled: Disabled, t: nat)
    requires Distinct(toNearestChildren.keys) && t < |toNearestChildren.keys|
    requires EnabledNearest(toNearestChildren, toNearestChildren.keys[t], disabled) != []
    ensures var list := EnabledNearest(toNearestChildren, toNearestChildren.keys[t], disabled);
      var before := BottomUp(m, toNearestChildren, disabled, t);
      Inferred(before, list).Some? &&
      GetCheckedState(BottomUp(m, toNearestChildren, disabled, |toNearestChildren.keys|), toNearestChildren.keys[t]) ==
        Inferred(before, list).value
  {
    var keys := toNearestChildren.keys;
    forall t' | t + 1 <= t' < |keys|
      ensures keys[t'] != keys[t]
    {
      assert keys[t] != keys[t'];
    }
    BottomUpLater(m, toNearestChildren, disabled, t + 1, |keys|, keys[t]);
  }

  /** An id that is not a key is never written by the pass. */
  lemma {:induction false} LeafUnwritten(m: Checked, toNearestChildren: NearestChildren, disabled: Disabled, t: nat, key: NodeId)
    requires t <= |toNearestChildren.keys| && key !in toNearestChildren.keys
    ensures GetCheckedState(BottomUp(m, toNearestChildren, disabled, |toNearestChildren.keys|), key) ==
      GetCheckedState(BottomUp(m, toNearestChildren, disabled, t), key)
  {
    var keys := toNearestChildren.keys;
    forall t' | t <= t' < |keys|
      ensures keys[t'] != key
    {
      assert keys[t'] in keys;
    }
    BottomUpLater(m, toNearestChildren, disabled, t, |keys|, key);
  }

  /**
   * With distinct keys, a parent whose enabled nearest children are all
   * leaves (none of them is a key) ends in the state inferred from them.
   * This is also true of a disabled parent.
   */
  lemma {:induction false} BottomUpLeafParent(m: Checked, toNearestChildren: NearestChildren, disabled: Disabled, t: nat)
    requires Distinct(toNearestChildren.keys) && t < |toNearestChildren.keys|
    requires EnabledNearest(toNearestChildren, toNearestChildren.keys[t], disabled) != []
    requires forall x :: x in EnabledNearest(toNearestChildren, toNearestChildren.keys[t], disabled) ==>
      x.id !in toNearestChildren.keys
    ensures var final := BottomUp(m, toNearestChildren, disabled, |toNearestChildren.keys|);
      var list := EnabledNearest(toNearestChildren, toNearestChildren.keys[t], disabled);
      Inferred(final, list).Some? && GetCheckedState(final, toNearestChildren.keys[t]) == Inferred(final, list).value
  {
    var keys := toNearestChildren.keys;
    var pid := keys[t];
    var list := EnabledNearest(toNearestChildren, pid, disabled);
    var final := BottomUp(m, toNearestChildren, disabled, |keys|);
    var before := BottomUp(m, toNearestChildren, disabled, t);
    InferredLast(m, toNearestChildren, disabled, t);
    forall x | x in list
      ensures GetCheckedState(final, x.id) == GetCheckedState(before, x.id)
    {
      LeafUnwritten(m, toNearestChildren, disabled, t, x.id);
    }
    InferredFrame(final, before, list);
  }

  // ---------------------------------------------------------------------------
  // The validator as a whole
  // ---------------------------------------------------------------------------

  /** A parent with an enabled nearest child is a key of the map built from the sequence. */
  lemma {:induction false} ListedIsKey(children: seq<Node>, disabled: Disabled, pid: NodeId)
    requires EnabledNearest(NearestChildrenOf(children), pid, disabled) != []
    ensures pid in NearestChildrenOf(children).keys
  {
  }

  /**
   * With the map built from a sequence of unique ids, a parent whose enabled
   * nearest children are all leaves ends consistent with them.
   */
  lemma {:induction false} ValidateLeafParent(children: seq<Node>, checked: Checked, disabled: Disabled, pid: NodeId)
    requires EnabledNearest(NearestChildrenOf(children), pid, disabled) != []
    requires forall x :: x in EnabledNearest(NearestChildrenOf(children), pid, disabled) ==>
      x.id !in NearestChildrenOf(children).keys
    ensures var r := ValidateSpec(true, children, NearestChildrenOf(children), checked, disabled);
      var list := EnabledNearest(NearestChildrenOf(children), pid, disabled);
      Inferred(r.newChecked, list).Some? && GetCheckedState(r.newChecked, pid) == Inferred(r.newChecked, list).value
  {
    var nc := NearestChildrenOf(children);
    ParentOrderDistinct(children, |children|);
    ListedIsKey(children, disabled, pid);
    var t :| 0 <= t < |nc.keys| && nc.keys[t] == pid;
    var queue := Queue(children, disabled);
    BottomUpLeafParent(TopDown(checked, queue, |queue|), nc, disabled, t);
  }

  /**
   * A node that is disabled or under a disabled node, and that has no enabled
   * nearest child, leaves the validator with the state it came in with.
   */
  lemma {:induction false} ValidateKeepsDisabled(children: seq<Node>, checked: Checked, disabled: Disabled, j: nat)
    requires Distinct(Ids(children)) && j < |children|
    requires IsDisabled(disabled, children[j].id) ||
      exists a :: 0 <= a < j && IsAncestor(children, a, j) && IsDisabled(disabled, children[a].id)
    requires EnabledNearest(NearestChildrenOf(children), children[j].id, disabled) == []
    ensures SameAt(ValidateSpec(true, children, NearestChildrenOf(children), checked, disabled).newChecked, checked, children[j].id)
  {
    var nc := NearestChildrenOf(children);
    var queue := Queue(children, disabled);
    TopDownSkipsDisabled(children, checked, disabled, j);
    BottomUpFrame(TopDown(checked, queue, |queue|), nc, disabled, |nc.keys|, children[j].id);
  }
}
