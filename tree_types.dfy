/**
 * Shared vocabulary of the tree engine: node ids, the tri-state checked value,
 * the three sparse state maps, the nested and the flattened node shapes, and
 * the notifications the engine hands to its host.
 */
module TreeTypes {

  datatype Option<T> = None | Some(value: T)

  type NodeId = string

  /** 0 = unchecked, 1 = indeterminate, 2 = checked. */
  type CheckedState = x: int | 0 <= x <= 2

  /** Sparse maps: an absent key means 0 / false. */
  type Checked = map<NodeId, CheckedState>
  type Disabled = map<NodeId, bool>
  type Expanded = map<NodeId, bool>

  /**
   * A child handed to the tree as a nested element. A `TreeNode` may declare a
   * level; `hasChildren` says whether its `children` prop was given at all.
   * Anything that is not a tree node is `Other`, kept only for its truthiness.
   */
  datatype Element =
    | TreeNode(id: NodeId, level: Option<int>, hasChildren: bool, children: seq<Element>)
    | Other(truthy: bool)

  /**
   * A node of the flattened, pre-order sequence: its id, its level and the
   * truthiness of each of its non-tree children.
   */
  datatype Node = Node(id: NodeId, level: nat, content: seq<bool>)

  /** Callbacks the engine invokes, in the order it invokes them. */
  datatype Event =
    | NodeChecked(id: NodeId, value: CheckedState)
    | CheckedChanged(newChecked: Checked, oldChecked: Checked)
    | NodeExpanded(id: NodeId, expanded: Option<bool>)
    | ExpandedChanged(newExpanded: Expanded, oldExpanded: Expanded)

  /** The checked state of `id`: the stored value, 0 when absent. */
  function GetCheckedState(checked: Checked, id: NodeId): (r: CheckedState)
    ensures id !in checked ==> r == 0
    ensures id in checked ==> r == checked[id]
  {
    if id in checked then checked[id] else 0
  }

  /** A node is disabled only when the map holds `true` for it. */
  predicate IsDisabled(disabled: Disabled, id: NodeId): (r: bool)
    ensures id !in disabled ==> !r
    ensures id in disabled ==> (r <==> disabled[id])
  {
    id in disabled && disabled[id]
  }

  /** A node is expanded only when the map holds `true` for it. */
  predicate IsExpanded(expanded: Expanded, id: NodeId): (r: bool)
    ensures id !in expanded ==> !r
    ensures id in expanded ==> (r <==> expanded[id])
  {
    id in expanded && expanded[id]
  }

  /** The ids of a sequence of flat nodes, in order. */
  function Ids(s: seq<Node>): (r: seq<NodeId>)
    ensures |r| == |s| && forall k :: 0 <= k < |s| ==> r[k] == s[k].id
  {
    if s == [] then [] else [s[0].id] + Ids(s[1..])
  }

  /** No id occurs twice. */
  predicate Distinct<T(==)>(xs: seq<T>)
  {
    forall a, b :: 0 <= a < b < |xs| ==> xs[a] != xs[b]
  }

  /** Two maps agree at key: both lack it, or both hold the same value. */
  predicate SameAt<V(==)>(a: map<NodeId, V>, b: map<NodeId, V>, key: NodeId)
  {
    (key in a <==> key in b) && (key in a ==> a[key] == b[key])
  }

  /** With unique ids, different positions carry different ids. */
  lemma {:induction false} DistinctIds(s: seq<Node>, a: nat, b: nat)
    requires Distinct(Ids(s)) && a < |s| && b < |s| && a != b
    ensures s[a].id != s[b].id
  {
    assert Ids(s)[a] == s[a].id && Ids(s)[b] == s[b].id;
  }

  /** With unique ids, equal ids mean equal positions. */
  lemma {:induction false} SamePosition(s: seq<Node>, a: nat, b: nat)
    requires Distinct(Ids(s)) && a < |s| && b < |s| && s[a].id == s[b].id
    ensures a == b
  {
    assert Ids(s)[a] == s[a].id && Ids(s)[b] == s[b].id;
  }
}
