/**
 * The toggle engine of the tree: the checked toggle with its downward cascade
 * and upward re-inference, the expanded toggle, and the expandable test, each
 * as a function of the flat sequence and the state maps.
 */
module TreeContext {
  import opened TreeTypes
  import opened TreeUtils

  // ---------------------------------------------------------------------------
  // isExpandable, toggleExpanded
  // ---------------------------------------------------------------------------

  /**
   * A known node is expandable when it has truthy content of its own or the
   * next node is deeper than it.
   */
  function IsExpandable(id: NodeId, children: seq<Node>): (r: bool)
    ensures r <==> (FirstIndex(children, id) >= 0 &&
      (true in children[FirstIndex(children, id)].content || Descendants(children, FirstIndex(children, id)) != []))
  {
    var index := FirstIndex(children, id);
    if index == -1 then false
    else
      var cur := children[index];
      if true in cur.content then true
      else if index + 1 >= |children| then false
      else cur.level < children[index + 1].level
  }

  /** What a toggle of the expanded map produces: the new map and the callbacks fired. */
  datatype ExpandToggled = ExpandToggled(newExpanded: Expanded, events: seq<Event>)

  /**
   * Flip one key of the expanded map: absent or not `true` becomes `true`,
   * `true` becomes absent. The node callback gets the new value (or nothing
   * when the key is gone), then the map callback gets the new and old maps.
   */
  function ToggleExpanded(expanded: Expanded, id: NodeId): (r: ExpandToggled)
    ensures IsExpanded(r.newExpanded, id) == !IsExpanded(expanded, id)
    ensures id in r.newExpanded <==> !IsExpanded(expanded, id)
    ensures forall k :: k != id ==> (k in r.newExpanded <==> k in expanded) && (k in r.newExpanded ==> r.newExpanded[k] == expanded[k])
    ensures r.events == [
      NodeExpanded(id, if IsExpanded(expanded, id) then None else Some(true)),
      ExpandedChanged(r.newExpanded, expanded)]
  {
    var newExpanded := SetExpandedMap(expanded, id, !IsExpanded(expanded, id));
    var value := if id in newExpanded then Some(newExpanded[id]) else None;
    ExpandToggled(newExpanded, [NodeExpanded(id, value), ExpandedChanged(newExpanded, expanded)])
  }

  /** Toggling twice restores the expanded flag of the node and every other key. */
  lemma {:induction false} ToggleExpandedTwice(expanded: Expanded, id: NodeId)
    ensures var twice := ToggleExpanded(ToggleExpanded(expanded, id).newExpanded, id).newExpanded;
      IsExpanded(twice, id) == IsExpanded(expanded, id) &&
      forall k :: k != id ==> (k in twice <==> k in expanded) && (k in twice ==> twice[k] == expanded[k])
  {
  }

  // ---------------------------------------------------------------------------
  // toggleChecked
  // ---------------------------------------------------------------------------

  /** The filter condition "not disabled", used for both parents and the node itself. */
  function Enabled(disabled: Disabled): Condition
  {
    (n: Node, k: nat) => !IsDisabled(disabled, n.id)
  }

  /** The nodes of a list that are not disabled, in order. */
  function EnabledOf(nodes: seq<Node>, disabled: Disabled): (r: seq<Node>)
    ensures forall x :: x in r <==> x in nodes && !IsDisabled(disabled, x.id)
  {
    if nodes == [] then []
    else (if IsDisabled(disabled, nodes[0].id) then [] else [nodes[0]]) + EnabledOf(nodes[1..], disabled)
  }

  /** The state the toggled node takes: 0 when it was checked, 2 otherwise. */
  function FlipState(checked: Checked, id: NodeId): CheckedState
  {
    if GetCheckedState(checked, id) == 2 then 0 else 2
  }

  /** The descendants of node i that the cascade visits: enabled, with no disabled ancestor below i. */
  function CascadeTargets(children: seq<Node>, i: nat, disabled: Disabled): seq<Node>
    requires i < |children|
  {
    var below := Descendants(children, i);
    FilterSpec(below, |below|, Enabled(disabled), Enabled(disabled))
  }

  /** Set each enabled node of ts, in order, to v. */
  function Cascade(m: Checked, ts: seq<Node>, v: CheckedState, disabled: Disabled): Checked
  {
    if ts == [] then m
    else
      var before := Cascade(m, ts[..|ts| - 1], v, disabled);
      var last := ts[|ts| - 1];
      if IsDisabled(disabled, last.id) then before else SetCheckedMap(before, last.id, v)
  }

  /** The node callbacks of the cascade: every enabled node of ts reported with 2. */
  function CascadeEvents(ts: seq<Node>, disabled: Disabled): seq<Event>
  {
    if ts == [] then []
    else
      var last := ts[|ts| - 1];
      CascadeEvents(ts[..|ts| - 1], disabled) + (if IsDisabled(disabled, last.id) then [] else [NodeChecked(last.id, 2)])
  }

  /** The state of an upward climb: the map so far and the callbacks fired. */
  datatype Climbed = Climbed(checked: Checked, events: seq<Event>)

  /** The enabled nearest children listed for a parent id. */
  function EnabledNearest(toNearestChildren: NearestChildren, pid: NodeId, disabled: Disabled): seq<Node>
  {
    match Lookup(toNearestChildren, pid)
    case None => []
    case Some(list) => EnabledOf(list, disabled)
  }

  /**
   * Re-infer the parents, nearest first: stop at a disabled parent, at a
   * parent with nothing to infer from, or at one whose state does not change.
   */
  function Climb(m: Checked, parents: seq<Node>, toNearestChildren: NearestChildren, disabled: Disabled): Climbed
    decreases |parents|
  {
    if parents == [] then Climbed(m, [])
    else
      var pid := parents[0].id;
      if IsDisabled(disabled, pid) then Climbed(m, [])
      else
        var state := Inferred(m, EnabledNearest(toNearestChildren, pid, disabled));
        if state.None? || state.value == GetCheckedState(m, pid) then Climbed(m, [])
        else
          var rest := Climb(SetCheckedMap(m, pid, state.value), parents[1..], toNearestChildren, disabled);
          Climbed(rest.checked, [NodeChecked(pid, state.value)] + rest.events)
  }

  /** What a checked toggle produces: nothing, or the committed map and the callbacks fired. */
  datatype CheckToggled = Ignored | Committed(newChecked: Checked, events: seq<Event>)

  /** The checked toggle of `id`, end to end. */
  function ToggleSpec(id: NodeId, children: seq<Node>, toNearestChildren: NearestChildren, checked: Checked, disabled: Disabled): CheckToggled
  {
    var i := FirstIndex(children, id);
    if IsDisabled(disabled, id) || i == -1 then Ignored
    else
      var v := FlipState(checked, id);
      var targets := CascadeTargets(children, i, disabled);
      var cascaded := Cascade(SetCheckedMap(checked, id, v), targets, v, disabled);
      var climbed := Climb(cascaded, AncestorNodes(children, i), toNearestChildren, disabled);
      Committed(climbed.checked,
        [NodeChecked(id, 2)] + CascadeEvents(targets, disabled) + climbed.events + [CheckedChanged(climbed.checked, checked)])
  }

  /** The cascade loop: set each enabled target to v, reporting it with 2. */
  method CascadeLoop(m: Checked, targets: seq<Node>, v: CheckedState, disabled: Disabled)
    returns (newChecked: Checked, events: seq<Event>)
    ensures newChecked == Cascade(m, targets, v, disabled)
    ensures events == CascadeEvents(targets, disabled)
  {
    newChecked, events := m, [];
    var k := 0;
    while k < |targets|
      invariant 0 <= k <= |targets|
      invariant newChecked == Cascade(m, targets[..k], v, disabled)
      invariant events == CascadeEvents(targets[..k], disabled)
    {
      var cid := targets[k].id;
      assert targets[..k + 1][..k] == targets[..k];
      if !IsDisabled(disabled, cid) {
        newChecked := SetCheckedMap(newChecked, cid, v);
        events := events + [NodeChecked(cid, 2)];
      }
      k := k + 1;
    }
    assert targets[..k] == targets;
  }

  /** The climb loop over the parents, nearest first, with its three early stops. */
  method ClimbLoop(m: Checked, theParents: seq<Node>, toNearestChildren: NearestChildren, disabled: Disabled)
    returns (r: Climbed)
    ensures r == Climb(m, theParents, toNearestChildren, disabled)
  {
    ghost var whole := Climb(m, theParents, toNearestChildren, disabled);
    var newChecked := m;
    var events: seq<Event> := [];
    var j := 0;
    assert theParents[0..] == theParents;
    assert events + whole.events == whole.events;
    while j < |theParents|
      invariant 0 <= j <= |theParents|
      invariant ClimbRest(whole, theParents[j..], toNearestChildren, disabled, newChecked, events)
    {
      var pid := theParents[j].id;
      if IsDisabled(disabled, pid) {
        break;
      }
      var nearestChildren := if pid in toNearestChildren.lists then EnabledOf(toNearestChildren.lists[pid], disabled) else [];
      var oldState := GetCheckedState(newChecked, pid);
      var state := InferChecked(newChecked, nearestChildren);
      if state.None? || oldState == state.value {
        break;
      }
      ClimbRestStep(whole, theParents, j, toNearestChildren, disabled, newChecked, events, state.value);
      newChecked := SetCheckedMap(newChecked, pid, state.value);
      events := events + [NodeChecked(pid, state.value)];
      j := j + 1;
    }
    ClimbRestStop(whole, theParents, j, toNearestChildren, disabled, newChecked, events);
    r := Climbed(newChecked, events);
  }

  /** The climb from cur over the parents still to go completes the whole climb, on top of the events so far. */
  ghost predicate ClimbRest(whole: Climbed, togo: seq<Node>, tnc: NearestChildren, disabled: Disabled, cur: Checked, events: seq<Event>)
  {
    var rest := Climb(cur, togo, tnc, disabled);
    rest.checked == whole.checked && events + rest.events == whole.events
  }

  lemma {:induction false} ClimbRestStep(whole: Climbed, ps: seq<Node>, j: nat, tnc: NearestChildren, disabled: Disabled, cur: Checked, events: seq<Event>, state: CheckedState)
    requires j < |ps| && ClimbRest(whole, ps[j..], tnc, disabled, cur, events)
    requires !IsDisabled(disabled, ps[j].id)
    requires Inferred(cur, EnabledNearest(tnc, ps[j].id, disabled)) == Some(state) && state != GetCheckedState(cur, ps[j].id)
    ensures ClimbRest(whole, ps[j + 1..], tnc, disabled, SetCheckedMap(cur, ps[j].id, state), events + [NodeChecked(ps[j].id, state)])
  {
    var togo := ps[j..];
    assert togo[0] == ps[j] && togo[1..] == ps[j + 1..];
    assert !ClimbStops(cur, togo[0], tnc, disabled);
    var m1, v := ClimbCons(cur, togo, tnc, disabled);
    var e := NodeChecked(ps[j].id, state);
    var after := Climb(m1, ps[j + 1..], tnc, disabled);
    assert v == state && Climb(cur, togo, tnc, disabled) == Climbed(after.checked, [e] + after.events);
    assert events + [e] + after.events == events + ([e] + after.events);
  }

  lemma {:induction false} ClimbRestStop(whole: Climbed, ps: seq<Node>, j: nat, tnc: NearestChildren, disabled: Disabled, cur: Checked, events: seq<Event>)
    requires j <= |ps| && ClimbRest(whole, ps[j..], tnc, disabled, cur, events)
    requires j == |ps| || IsDisabled(disabled, ps[j].id) ||
      Inferred(cur, EnabledNearest(tnc, ps[j].id, disabled)).None? ||
      Inferred(cur, EnabledNearest(tnc, ps[j].id, disabled)).value == GetCheckedState(cur, ps[j].id)
    ensures Climbed(cur, events) == whole
  {
    var togo := ps[j..];
    if j < |ps| {
      assert togo[0] == ps[j];
    }
    ClimbStopped(cur, togo, tnc, disabled);
    assert events + [] == events;
  }

  method ToggleChecked(id: NodeId, children: seq<Node>, toNearestChildren: NearestChildren, checked: Checked, disabled: Disabled)
    returns (r: CheckToggled)
    ensures r == ToggleSpec(id, children, toNearestChildren, checked, disabled)
  {
    if IsDisabled(disabled, id) {
      return Ignored;
    }
    var index := IndexOfChild(id, children);
    if index == -1 {
      return Ignored;
    }
    var newChecked := checked;
    var newCheckState: CheckedState := if id in checked && checked[id] == 2 then 0 else 2;
    newChecked := SetCheckedMap(newChecked, id, newCheckState);
    var events := [NodeChecked(id, 2)];

    var theChildren := GetChildren(id, children);
    var targets := FilterChildren(theChildren, Enabled(disabled), Enabled(disabled));
    var cascadeEvents;
    newChecked, cascadeEvents := CascadeLoop(newChecked, targets, newCheckState, disabled);
    events := events + cascadeEvents;

    var theParents := GetParents(id, children);
    var climbed := ClimbLoop(newChecked, theParents, toNearestChildren, disabled);
    newChecked := climbed.checked;
    events := events + climbed.events;

    events := events + [CheckedChanged(newChecked, checked)];
    r := Committed(newChecked, events);
  }

  // ---------------------------------------------------------------------------
  // Properties of the checked toggle
  // ---------------------------------------------------------------------------

  /**
   * Node j below the toggled node i is reached by the cascade: it and every
   * ancestor of it strictly between i and j are enabled.
   */
  predicate ReachedBelow(s: seq<Node>, i: nat, j: nat, disabled: Disabled)
    requires i < j < |s|
  {
    !IsDisabled(disabled, s[j].id) && forall a :: i < a < j && IsAncestor(s, a, j) ==> !IsDisabled(disabled, s[a].id)
  }

  /** Position j' of the descendant run is node i + 1 + j' of the sequence, with the same ancestry. */
  lemma {:induction false} BelowIsShifted(s: seq<Node>, i: nat)
    requires i < |s|
    ensures var below := Descendants(s, i);
      (forall k :: 0 <= k < |below| ==> below[k] == s[i + 1 + k] && IsAncestor(s, i, i + 1 + k)) &&
      (forall a, j {:trigger IsAncestor(below, a, j)} :: 0 <= a < j < |below| ==>
        (IsAncestor(below, a, j) <==> IsAncestor(s, i + 1 + a, i + 1 + j)))
  {
    DescendantsExact(s, i);
    SliceAncestors(s, i + 1, SubtreeEnd(s, i));
  }

  /** Every reached descendant is a cascade target. */
  lemma {:induction false} CascadeReaches(s: seq<Node>, i: nat, disabled: Disabled, j: nat)
    requires i < |s| && IsAncestor(s, i, j) && ReachedBelow(s, i, j, disabled)
    ensures s[j] in CascadeTargets(s, i, disabled)
  {
    var below := Descendants(s, i);
    var en := Enabled(disabled);
    var j' := j - i - 1;
    assert 0 <= j' < |below| && below[j'] == s[j] by {
      DescendantsExact(s, i);
      BelowIsShifted(s, i);
    }
    assert Kept(below, j', en, en) by {
      BelowIsShifted(s, i);
      forall a' | 0 <= a' < j' && IsAncestor(below, a', j')
        ensures en(below[a'], a')
      {
        assert IsAncestor(s, i + 1 + a', j);
      }
    }
    FilterSpecMembers(below, |below|, en, en);
  }

  /** Every cascade target is a reached descendant. */
  lemma {:induction false} CascadeOnlyReached(s: seq<Node>, i: nat, disabled: Disabled, x: Node)
    requires i < |s| && x in CascadeTargets(s, i, disabled)
    ensures exists j :: IsAncestor(s, i, j) && ReachedBelow(s, i, j, disabled) && s[j] == x
  {
    var j := CascadeTargetAt(s, i, disabled, x);
  }

  /** The position in s of a cascade target. */
  lemma {:induction false} CascadeTargetAt(s: seq<Node>, i: nat, disabled: Disabled, x: Node)
    returns (j: nat)
    requires i < |s| && x in CascadeTargets(s, i, disabled)
    ensures IsAncestor(s, i, j) && ReachedBelow(s, i, j, disabled) && s[j] == x
  {
    var below := Descendants(s, i);
    var en := Enabled(disabled);
    FilterSpecMembers(below, |below|, en, en);
    var j' :| 0 <= j' < |below| && below[j'] == x && Kept(below, j', en, en);
    KeptReached(s, i, disabled, j');
    j := i + 1 + j';
  }

  /** A descendant the filter keeps is reached. */
  lemma {:induction false} KeptReached(s: seq<Node>, i: nat, disabled: Disabled, j': nat)
    requires i < |s| && j' < |Descendants(s, i)|
    requires Kept(Descendants(s, i), j', Enabled(disabled), Enabled(disabled))
    ensures i + 1 + j' < |s| && IsAncestor(s, i, i + 1 + j') && ReachedBelow(s, i, i + 1 + j', disabled)
    ensures Descendants(s, i)[j'] == s[i + 1 + j']
  {
    var below := Descendants(s, i);
    var j := i + 1 + j';
    BelowIsShifted(s, i);
    assert below[j'] == s[j] && !IsDisabled(disabled, s[j].id);
    forall a | i < a < j && IsAncestor(s, a, j)
      ensures !IsDisabled(disabled, s[a].id)
    {
      assert IsAncestor(below, a - i - 1, j');
      assert below[a - i - 1] == s[a];
    }
  }

  /**
   * The cascade leaves a key alone unless it is the id of an enabled target,
   * and sets every enabled target id to v.
   */
  lemma {:induction false} CascadeFacts(m: Checked, ts: seq<Node>, v: CheckedState, disabled: Disabled, key: NodeId)
    ensures (IsDisabled(disabled, key) || forall k :: 0 <= k < |ts| ==> ts[k].id != key) ==>
      SameAt(Cascade(m, ts, v, disabled), m, key)
    ensures (!IsDisabled(disabled, key) && exists k :: 0 <= k < |ts| && ts[k].id == key) ==>
      GetCheckedState(Cascade(m, ts, v, disabled), key) == v
    decreases |ts|
  {
    if ts != [] {
      var init := ts[..|ts| - 1];
      CascadeFacts(m, init, v, disabled, key);
      assert forall k :: 0 <= k < |init| ==> init[k] == ts[k];
    }
  }

  /** The climb stops at parent p under map m. */
  predicate ClimbStops(m: Checked, p: Node, toNearestChildren: NearestChildren, disabled: Disabled)
  {
    var state := Inferred(m, EnabledNearest(toNearestChildren, p.id, disabled));
    IsDisabled(disabled, p.id) || state.None? || state.value == GetCheckedState(m, p.id)
  }

  /** One step of the climb that does not stop: the parent takes its inferred state and the climb goes on. */
  lemma {:induction false} ClimbCons(m: Checked, parents: seq<Node>, toNearestChildren: NearestChildren, disabled: Disabled)
    returns (m1: Checked, v: CheckedState)
    requires parents != [] && !ClimbStops(m, parents[0], toNearestChildren, disabled)
    ensures !IsDisabled(disabled, parents[0].id)
    ensures Inferred(m, EnabledNearest(toNearestChildren, parents[0].id, disabled)) == Some(v)
    ensures v != GetCheckedState(m, parents[0].id) && m1 == SetCheckedMap(m, parents[0].id, v)
    ensures var rest := Climb(m1, parents[1..], toNearestChildren, disabled);
      Climb(m, parents, toNearestChildren, disabled) == Climbed(rest.checked, [NodeChecked(parents[0].id, v)] + rest.events)
  {
    v := Inferred(m, EnabledNearest(toNearestChildren, parents[0].id, disabled)).value;
    m1 := SetCheckedMap(m, parents[0].id, v);
  }

  /** A climb with no parents, or one that stops at the first, changes nothing and reports nothing. */
  lemma {:induction false} ClimbStopped(m: Checked, parents: seq<Node>, toNearestChildren: NearestChildren, disabled: Disabled)
    requires parents == [] || ClimbStops(m, parents[0], toNearestChildren, disabled)
    ensures Climb(m, parents, toNearestChildren, disabled) == Climbed(m, [])
  {
  }

  lemma {:induction false} DistinctTail(s: seq<Node>)
    requires s != [] && Distinct(Ids(s))
    ensures Distinct(Ids(s[1..])) && forall k :: 1 <= k < |s| ==> s[k].id != s[0].id
  {
    forall a, b | 0 <= a < b < |s| - 1
      ensures Ids(s[1..])[a] != Ids(s[1..])[b]
    {
      assert Ids(s)[a + 1] != Ids(s)[b + 1];
    }
    forall k | 1 <= k < |s|
      ensures s[k].id != s[0].id
    {
      assert Ids(s)[0] != Ids(s)[k];
    }
  }

  /**
   * The climb reports a prefix of the parents, in order, each of them enabled.
   */
  lemma {:induction false} ClimbReportsPrefix(m: Checked, parents: seq<Node>, toNearestChildren: NearestChildren, disabled: Disabled)
    ensures var c := Climb(m, parents, toNearestChildren, disabled);
      |c.events| <= |parents| &&
      forall k :: 0 <= k < |c.events| ==>
        c.events[k].NodeChecked? && c.events[k].id == parents[k].id && !IsDisabled(disabled, parents[k].id)
    decreases |parents|
  {
    if parents != [] && !ClimbStops(m, parents[0], toNearestChildren, disabled) {
      var m1, v := ClimbCons(m, parents, toNearestChildren, disabled);
      ClimbReportsPrefix(m1, parents[1..], toNearestChildren, disabled);
      PrefixStep(parents, parents[1..], v, Climb(m1, parents[1..], toNearestChildren, disabled).events, disabled);
    } else {
      ClimbStopped(m, parents, toNearestChildren, disabled);
    }
  }

  /** A reported prefix of the tail, behind a report of the enabled first parent, is a reported prefix. */
  lemma {:induction false} PrefixStep(parents: seq<Node>, tail: seq<Node>, v: CheckedState, rest: seq<Event>, disabled: Disabled)
    requires parents != [] && tail == parents[1..] && !IsDisabled(disabled, parents[0].id)
    requires |rest| <= |tail| &&
      forall k :: 0 <= k < |rest| ==> rest[k].NodeChecked? && rest[k].id == tail[k].id && !IsDisabled(disabled, tail[k].id)
    ensures var events := [NodeChecked(parents[0].id, v)] + rest;
      |events| <= |parents| &&
      forall k :: 0 <= k < |events| ==>
        events[k].NodeChecked? && events[k].id == parents[k].id && !IsDisabled(disabled, parents[k].id)
  {
    var events := [NodeChecked(parents[0].id, v)] + rest;
    forall k | 1 <= k < |events|
      ensures events[k].NodeChecked? && events[k].id == parents[k].id && !IsDisabled(disabled, parents[k].id)
    {
      assert events[k] == rest[k - 1] && parents[k] == tail[k - 1];
    }
  }

  /** A key that is not the id of a reported parent keeps its state through the climb. */
  lemma {:induction false} ClimbUntouched(m: Checked, parents: seq<Node>, toNearestChildren: NearestChildren, disabled: Disabled, key: NodeId)
    requires forall k :: 0 <= k < |Climb(m, parents, toNearestChildren, disabled).events| && k < |parents| ==> parents[k].id != key
    ensures SameAt(Climb(m, parents, toNearestChildren, disabled).checked, m, key)
    decreases |parents|
  {
    if parents != [] && !ClimbStops(m, parents[0], toNearestChildren, disabled) {
      var m1, v := ClimbCons(m, parents, toNearestChildren, disabled);
      var tail := parents[1..];
      ghost var rest := Climb(m1, tail, toNearestChildren, disabled);
      assert parents[0].id != key;
      forall k | 0 <= k < |rest.events| && k < |tail|
        ensures tail[k].id != key
      {
        assert tail[k] == parents[k + 1];
      }
      ClimbUntouched(m1, tail, toNearestChildren, disabled, key);
    } else {
      ClimbStopped(m, parents, toNearestChildren, disabled);
    }
  }

  /** When the climb stops before the last parent, it stops where ClimbStops holds. */
  lemma {:induction false} ClimbStopsWhere(m: Checked, parents: seq<Node>, toNearestChildren: NearestChildren, disabled: Disabled)
    ensures var c := Climb(m, parents, toNearestChildren, disabled);
      |c.events| < |parents| ==> ClimbStops(c.checked, parents[|c.events|], toNearestChildren, disabled)
    decreases |parents|
  {
    if parents != [] && !ClimbStops(m, parents[0], toNearestChildren, disabled) {
      var m1, v := ClimbCons(m, parents, toNearestChildren, disabled);
      ClimbStopsWhere(m1, parents[1..], toNearestChildren, disabled);
      var rest := Climb(m1, parents[1..], toNearestChildren, disabled);
      StopsStep(parents, parents[1..], Climb(m, parents, toNearestChildren, disabled), rest, toNearestChildren, disabled);
    } else {
      ClimbStopped(m, parents, toNearestChildren, disabled);
    }
  }

  lemma {:induction false} StopsStep(parents: seq<Node>, tail: seq<Node>, c: Climbed, rest: Climbed, toNearestChildren: NearestChildren, disabled: Disabled)
    requires parents != [] && tail == parents[1..]
    requires c.checked == rest.checked && |c.events| == |rest.events| + 1
    requires |rest.events| < |tail| ==> ClimbStops(rest.checked, tail[|rest.events|], toNearestChildren, disabled)
    ensures |c.events| < |parents| ==> ClimbStops(c.checked, parents[|c.events|], toNearestChildren, disabled)
  {
    if |c.events| < |parents| {
      assert parents[|c.events|] == tail[|rest.events|];
    }
  }

  /**
   * With unique parent ids, every reported parent ends in the reported state,
   * and that state differs from the one it had before the climb.
   */
  lemma {:induction false} ClimbReportsFinal(m: Checked, parents: seq<Node>, toNearestChildren: NearestChildren, disabled: Disabled)
    requires Distinct(Ids(parents))
    ensures var c := Climb(m, parents, toNearestChildren, disabled);
      forall k :: 0 <= k < |c.events| && k < |parents| ==>
        c.events[k].NodeChecked? &&
        GetCheckedState(c.checked, parents[k].id) == c.events[k].value &&
        c.events[k].value != GetCheckedState(m, parents[k].id)
    decreases |parents|
  {
    if parents != [] && !ClimbStops(m, parents[0], toNearestChildren, disabled) {
      var m1, v := ClimbCons(m, parents, toNearestChildren, disabled);
      var tail := parents[1..];
      DistinctTail(parents);
      ClimbReportsFinal(m1, tail, toNearestChildren, disabled);
      ClimbReportsPrefix(m1, tail, toNearestChildren, disabled);
      var rest := Climb(m1, tail, toNearestChildren, disabled);
      forall k | 0 <= k < |rest.events| && k < |tail|
        ensures tail[k].id != parents[0].id
      {
        assert tail[k] == parents[k + 1];
      }
      ClimbUntouched(m1, tail, toNearestChildren, disabled, parents[0].id);
      FinalStep(parents, tail, m, m1, v, rest.checked, rest.events);
    } else {
      ClimbStopped(m, parents, toNearestChildren, disabled);
    }
  }

  /** The first parent, re-inferred to v and not touched again, ends in v; the tail's reports carry over. */
  lemma {:induction false} FinalStep(parents: seq<Node>, tail: seq<Node>, m: Checked, m1: Checked, v: CheckedState, final: Checked, rest: seq<Event>)
    requires parents != [] && tail == parents[1..]
    requires forall k :: 1 <= k < |parents| ==> parents[k].id != parents[0].id
    requires m1 == SetCheckedMap(m, parents[0].id, v) && v != GetCheckedState(m, parents[0].id)
    requires SameAt(final, m1, parents[0].id)
    requires forall k :: 0 <= k < |rest| && k < |tail| ==>
      rest[k].NodeChecked? && GetCheckedState(final, tail[k].id) == rest[k].value &&
      rest[k].value != GetCheckedState(m1, tail[k].id)
    ensures var events := [NodeChecked(parents[0].id, v)] + rest;
      forall k :: 0 <= k < |events| && k < |parents| ==>
        events[k].NodeChecked? &&
        GetCheckedState(final, parents[k].id) == events[k].value &&
        events[k].value != GetCheckedState(m, parents[k].id)
  {
    var events := [NodeChecked(parents[0].id, v)] + rest;
    forall k | 1 <= k < |events| && k < |parents|
      ensures events[k].NodeChecked? &&
        GetCheckedState(final, parents[k].id) == events[k].value &&
        events[k].value != GetCheckedState(m, parents[k].id)
    {
      assert events[k] == rest[k - 1] && parents[k] == tail[k - 1];
      assert GetCheckedState(m1, parents[k].id) == GetCheckedState(m, parents[k].id);
    }
  }

  /** Toggling a disabled id or an id not in the sequence does nothing at all. */
  lemma {:induction false} ToggleIgnored(id: NodeId, children: seq<Node>, toNearestChildren: NearestChildren, checked: Checked, disabled: Disabled)
    ensures ToggleSpec(id, children, toNearestChildren, checked, disabled) == Ignored <==>
      IsDisabled(disabled, id) || FirstIndex(children, id) == -1
  {
  }

  /** A disabled node keeps its state through a toggle. */
  lemma {:induction false} ToggleKeepsDisabled(id: NodeId, children: seq<Node>, toNearestChildren: NearestChildren, checked: Checked, disabled: Disabled, key: NodeId)
    requires ToggleSpec(id, children, toNearestChildren, checked, disabled).Committed?
    requires IsDisabled(disabled, key)
    ensures SameAt(ToggleSpec(id, children, toNearestChildren, checked, disabled).newChecked, checked, key)
  {
    var i := FirstIndex(children, id);
    var v := FlipState(checked, id);
    var targets := CascadeTargets(children, i, disabled);
    var m1 := SetCheckedMap(checked, id, v);
    var cascaded := Cascade(m1, targets, v, disabled);
    CascadeFacts(m1, targets, v, disabled, key);
    ClimbReportsPrefix(cascaded, AncestorNodes(children, i), toNearestChildren, disabled);
    ClimbUntouched(cascaded, AncestorNodes(children, i), toNearestChildren, disabled, key);
  }

  /** Only the toggled node, its descendants and its ancestors can change. */
  lemma {:induction false} ToggleFrame(id: NodeId, children: seq<Node>, toNearestChildren: NearestChildren, checked: Checked, disabled: Disabled, key: NodeId)
    requires ToggleSpec(id, children, toNearestChildren, checked, disabled).Committed?
    requires key != id
    requires forall j ::
      (0 <= j < |children| && (IsAncestor(children, FirstIndex(children, id), j) || IsAncestor(children, j, FirstIndex(children, id)))) ==>
      children[j].id != key
    ensures SameAt(ToggleSpec(id, children, toNearestChildren, checked, disabled).newChecked, checked, key)
  {
    var i := FirstIndex(children, id);
    var v := FlipState(checked, id);
    var targets := CascadeTargets(children, i, disabled);
    var m1 := SetCheckedMap(checked, id, v);
    var cascaded := Cascade(m1, targets, v, disabled);
    var anc := AncestorNodes(children, i);
    forall k | 0 <= k < |targets|
      ensures targets[k].id != key
    {
      CascadeOnlyReached(children, i, disabled, targets[k]);
    }
    CascadeFacts(m1, targets, v, disabled, key);
    AncestorsExact(children, i);
    forall k | 0 <= k < |anc|
      ensures anc[k].id != key
    {
      assert Ancestors(children, i)[k] in Ancestors(children, i);
    }
    ClimbUntouched(cascaded, anc, toNearestChildren, disabled, key);
  }

  // ---------------------------------------------------------------------------
  // The checked toggle under unique ids
  // ---------------------------------------------------------------------------

  /** The cascade leaves alone the id of every node it does not reach. */
  lemma {:induction false} CascadeSpares(s: seq<Node>, i: nat, disabled: Disabled, m: Checked, v: CheckedState, a: nat)
    requires Distinct(Ids(s)) && i < |s| && a < |s|
    requires !(IsAncestor(s, i, a) && ReachedBelow(s, i, a, disabled))
    ensures SameAt(Cascade(m, CascadeTargets(s, i, disabled), v, disabled), m, s[a].id)
  {
    var targets := CascadeTargets(s, i, disabled);
    forall k | 0 <= k < |targets|
      ensures targets[k].id != s[a].id
    {
      var j := CascadeTargetAt(s, i, disabled, targets[k]);
      DistinctIds(s, j, a);
    }
    CascadeFacts(m, targets, v, disabled, s[a].id);
  }

  /** With unique ids, no ancestor of i shares an id with i or a later node. */
  lemma {:induction false} AncestorIdsBefore(s: seq<Node>, i: nat, a: nat)
    requires Distinct(Ids(s)) && i <= a < |s|
    ensures forall k :: 0 <= k < |AncestorNodes(s, i)| ==> AncestorNodes(s, i)[k].id != s[a].id
  {
    var anc := AncestorNodes(s, i);
    forall k | 0 <= k < |anc|
      ensures anc[k].id != s[a].id
    {
      DistinctIds(s, Ancestors(s, i)[k], a);
    }
  }

  /** With unique ids, the ancestor chain has unique ids. */
  lemma {:induction false} AncestorNodesDistinct(s: seq<Node>, i: nat)
    requires Distinct(Ids(s)) && i < |s|
    ensures Distinct(Ids(AncestorNodes(s, i)))
  {
    var anc := AncestorNodes(s, i);
    AncestorsOrdered(s, i);
    forall x, y | 0 <= x < y < |anc|
      ensures Ids(anc)[x] != Ids(anc)[y]
    {
      DistinctIds(s, Ancestors(s, i)[x], Ancestors(s, i)[y]);
    }
  }

  /** The toggled node ends in the flipped state. */
  lemma {:induction false} ToggleSelf(id: NodeId, children: seq<Node>, toNearestChildren: NearestChildren, checked: Checked, disabled: Disabled)
    requires Distinct(Ids(children))
    requires ToggleSpec(id, children, toNearestChildren, checked, disabled).Committed?
    ensures GetCheckedState(ToggleSpec(id, children, toNearestChildren, checked, disabled).newChecked, id) == FlipState(checked, id)
  {
    var i := FirstIndex(children, id);
    var v := FlipState(checked, id);
    var m1 := SetCheckedMap(checked, id, v);
    var cascaded := Cascade(m1, CascadeTargets(children, i, disabled), v, disabled);
    var anc := AncestorNodes(children, i);
    CascadeSpares(children, i, disabled, m1, v, i);
    AncestorIdsBefore(children, i, i);
    ClimbUntouched(cascaded, anc, toNearestChildren, disabled, id);
  }

  /** Every descendant the cascade reaches ends in the flipped state of the toggled node. */
  lemma {:induction false} ToggleDownward(id: NodeId, children: seq<Node>, toNearestChildren: NearestChildren, checked: Checked, disabled: Disabled, j: nat)
    requires Distinct(Ids(children))
    requires ToggleSpec(id, children, toNearestChildren, checked, disabled).Committed?
    requires IsAncestor(children, FirstIndex(children, id), j) && ReachedBelow(children, FirstIndex(children, id), j, disabled)
    ensures GetCheckedState(ToggleSpec(id, children, toNearestChildren, checked, disabled).newChecked, children[j].id) == FlipState(checked, id)
  {
    var i := FirstIndex(children, id);
    var v := FlipState(checked, id);
    var targets := CascadeTargets(children, i, disabled);
    var m1 := SetCheckedMap(checked, id, v);
    var cascaded := Cascade(m1, targets, v, disabled);
    var anc := AncestorNodes(children, i);
    CascadeReaches(children, i, disabled, j);
    var k :| 0 <= k < |targets| && targets[k] == children[j];
    CascadeFacts(m1, targets, v, disabled, children[j].id);
    AncestorIdsBefore(children, i, j);
    ClimbUntouched(cascaded, anc, toNearestChildren, disabled, children[j].id);
  }

  /**
   * A descendant the cascade does not reach (it is disabled, or lies under a
   * disabled node) keeps its state.
   */
  lemma {:induction false} ToggleBarrier(id: NodeId, children: seq<Node>, toNearestChildren: NearestChildren, checked: Checked, disabled: Disabled, j: nat)
    requires Distinct(Ids(children))
    requires ToggleSpec(id, children, toNearestChildren, checked, disabled).Committed?
    requires IsAncestor(children, FirstIndex(children, id), j) && !ReachedBelow(children, FirstIndex(children, id), j, disabled)
    ensures SameAt(ToggleSpec(id, children, toNearestChildren, checked, disabled).newChecked, checked, children[j].id)
  {
    var i := FirstIndex(children, id);
    var v := FlipState(checked, id);
    var m1 := SetCheckedMap(checked, id, v);
    var cascaded := Cascade(m1, CascadeTargets(children, i, disabled), v, disabled);
    var anc := AncestorNodes(children, i);
    CascadeSpares(children, i, disabled, m1, v, j);
    DistinctIds(children, i, j);
    AncestorIdsBefore(children, i, j);
    ClimbUntouched(cascaded, anc, toNearestChildren, disabled, children[j].id);
  }

  /** Inference reads only the states of the listed nodes. */
  lemma {:induction false} InferredFrame(a: Checked, b: Checked, list: seq<Node>)
    requires forall x :: x in list ==> GetCheckedState(a, x.id) == GetCheckedState(b, x.id)
    ensures Inferred(a, list) == Inferred(b, list)
  {
    assert forall k :: 0 <= k < |list| ==> list[k] in list;
  }

  /**
   * When no parent is listed among the enabled nearest children of itself or
   * of a nearer parent, every reported parent ends consistent with its enabled
   * nearest children in the final map.
   */
  lemma {:induction false} ClimbConsistent(m: Checked, parents: seq<Node>, toNearestChildren: NearestChildren, disabled: Disabled)
    requires forall k, k', x :: 0 <= k <= k' < |parents| && x in EnabledNearest(toNearestChildren, parents[k].id, disabled) ==>
      x.id != parents[k'].id
    ensures var c := Climb(m, parents, toNearestChildren, disabled);
      forall k :: 0 <= k < |c.events| && k < |parents| ==>
        c.events[k].NodeChecked? &&
        Inferred(c.checked, EnabledNearest(toNearestChildren, parents[k].id, disabled)) == Some(c.events[k].value)
    decreases |parents|
  {
    if parents != [] && !ClimbStops(m, parents[0], toNearestChildren, disabled) {
      var m1, v := ClimbCons(m, parents, toNearestChildren, disabled);
      var tail := parents[1..];
      var list := EnabledNearest(toNearestChildren, parents[0].id, disabled);
      assert forall k :: 0 <= k < |tail| ==> tail[k] == parents[k + 1];
      ClimbConsistent(m1, tail, toNearestChildren, disabled);
      ClimbReportsPrefix(m1, tail, toNearestChildren, disabled);
      var rest := Climb(m1, tail, toNearestChildren, disabled);
      forall x | x in list
        ensures GetCheckedState(rest.checked, x.id) == GetCheckedState(m, x.id)
      {
        ClimbSparesListed(m, parents, toNearestChildren, disabled, m1, v, x);
      }
      InferredFrame(rest.checked, m, list);
      ConsistentStep(parents, tail, v, rest.checked, rest.events, toNearestChildren, disabled);
    } else {
      ClimbStopped(m, parents, toNearestChildren, disabled);
    }
  }

  /** A node listed below the first parent is not re-inferred by the rest of the climb. */
  lemma {:induction false} ClimbSparesListed(m: Checked, parents: seq<Node>, toNearestChildren: NearestChildren, disabled: Disabled, m1: Checked, v: CheckedState, x: Node)
    requires parents != [] && m1 == SetCheckedMap(m, parents[0].id, v)
    requires forall k, k', x :: 0 <= k <= k' < |parents| && x in EnabledNearest(toNearestChildren, parents[k].id, disabled) ==>
      x.id != parents[k'].id
    requires x in EnabledNearest(toNearestChildren, parents[0].id, disabled)
    ensures GetCheckedState(Climb(m1, parents[1..], toNearestChildren, disabled).checked, x.id) == GetCheckedState(m, x.id)
  {
    var tail := parents[1..];
    assert x.id != parents[0].id;
    forall k | 0 <= k < |Climb(m1, tail, toNearestChildren, disabled).events| && k < |tail|
      ensures tail[k].id != x.id
    {
      assert tail[k] == parents[k + 1];
    }
    ClimbUntouched(m1, tail, toNearestChildren, disabled, x.id);
  }

  /** The first parent's consistency and the tail's carry over to the whole climb's reports. */
  lemma {:induction false} ConsistentStep(parents: seq<Node>, tail: seq<Node>, v: CheckedState, final: Checked, rest: seq<Event>, toNearestChildren: NearestChildren, disabled: Disabled)
    requires parents != [] && tail == parents[1..]
    requires Inferred(final, EnabledNearest(toNearestChildren, parents[0].id, disabled)) == Some(v)
    requires forall k :: 0 <= k < |rest| && k < |tail| ==>
      rest[k].NodeChecked? && Inferred(final, EnabledNearest(toNearestChildren, tail[k].id, disabled)) == Some(rest[k].value)
    ensures var events := [NodeChecked(parents[0].id, v)] + rest;
      forall k :: 0 <= k < |events| && k < |parents| ==>
        events[k].NodeChecked? &&
        Inferred(final, EnabledNearest(toNearestChildren, parents[k].id, disabled)) == Some(events[k].value)
  {
    var events := [NodeChecked(parents[0].id, v)] + rest;
    forall k | 1 <= k < |events| && k < |parents|
      ensures events[k].NodeChecked? &&
        Inferred(final, EnabledNearest(toNearestChildren, parents[k].id, disabled)) == Some(events[k].value)
    {
      EventAfterHead(NodeChecked(parents[0].id, v), rest, k);
      assert parents[k] == tail[k - 1];
    }
  }

  /** Behind a head event, position k holds the (k-1)-th event of the rest. */
  lemma {:induction false} EventAfterHead(e: Event, rest: seq<Event>, k: nat)
    requires 1 <= k <= |rest|
    ensures ([e] + rest)[k] == rest[k - 1]
  {
  }

  /** A node listed as an enabled nearest child of key has a parent with id key. */
  lemma {:induction false} EnabledNearestHasParent(s: seq<Node>, key: NodeId, disabled: Disabled, x: Node)
    returns (j: nat)
    requires x in EnabledNearest(NearestChildrenOf(s), key, disabled)
    ensures j < |s| && s[j] == x && Parent(s, j).Some? && s[Parent(s, j).value].id == key
  {
    var keys := ParentOrder(s, |s|);
    assert key in keys;
    assert x in NearestOf(s, |s|, key);
    NearestOfMembers(s, |s|, key);
    j :| 0 <= j < |s| && s[j] == x && ParentId(s, j) == Some(key);
  }

  /**
   * With unique ids, a node listed as an enabled nearest child of the k-th
   * ancestor of i is neither that ancestor nor one further up.
   */
  lemma {:induction false} NearestBelowChain(s: seq<Node>, i: nat, disabled: Disabled)
    requires Distinct(Ids(s)) && i < |s|
    ensures var anc := AncestorNodes(s, i);
      forall k, k', x :: 0 <= k <= k' < |anc| && x in EnabledNearest(NearestChildrenOf(s), anc[k].id, disabled) ==>
        x.id != anc[k'].id
  {
    var anc := AncestorNodes(s, i);
    forall k, k', x | 0 <= k <= k' < |anc| && x in EnabledNearest(NearestChildrenOf(s), anc[k].id, disabled)
      ensures x.id != anc[k'].id
    {
      NearestBelowOne(s, i, disabled, k, k', x);
    }
  }

  lemma {:induction false} NearestBelowOne(s: seq<Node>, i: nat, disabled: Disabled, k: nat, k': nat, x: Node)
    requires Distinct(Ids(s)) && i < |s|
    requires k <= k' < |AncestorNodes(s, i)|
    requires x in EnabledNearest(NearestChildrenOf(s), AncestorNodes(s, i)[k].id, disabled)
    ensures x.id != AncestorNodes(s, i)[k'].id
  {
    var anc := AncestorNodes(s, i);
    var a, b := Ancestors(s, i)[k], Ancestors(s, i)[k'];
    assert b <= a && anc[k] == s[a] && anc[k'] == s[b] by {
      AncestorsOrdered(s, i);
    }
    var j := EnabledNearestHasParent(s, anc[k].id, disabled, x);
    var p := Parent(s, j).value;
    SamePosition(s, p, a);
    DistinctIds(s, j, b);
  }

  /** Node callbacks reporting each node of ps with the state it has in m. */
  function Reports(m: Checked, ps: seq<Node>): (r: seq<Event>)
    ensures |r| == |ps| && forall k :: 0 <= k < |ps| ==> r[k] == NodeChecked(ps[k].id, GetCheckedState(m, ps[k].id))
  {
    seq(|ps|, k requires 0 <= k < |ps| => NodeChecked(ps[k].id, GetCheckedState(m, ps[k].id)))
  }

  /** Node callbacks reporting each node of ps with the one value v. */
  function ReportAs(ps: seq<Node>, v: CheckedState): (r: seq<Event>)
    ensures |r| == |ps| && forall k :: 0 <= k < |ps| ==> r[k] == NodeChecked(ps[k].id, v)
  {
    seq(|ps|, k requires 0 <= k < |ps| => NodeChecked(ps[k].id, v))
  }

  /** The cascade reports every node of a list of enabled nodes, in order, with 2. */
  lemma {:induction false} CascadeEventsAll(ts: seq<Node>, disabled: Disabled)
    requires forall k :: 0 <= k < |ts| ==> !IsDisabled(disabled, ts[k].id)
    ensures CascadeEvents(ts, disabled) == ReportAs(ts, 2)
    decreases |ts|
  {
    if ts != [] {
      var init := ts[..|ts| - 1];
      assert forall k :: 0 <= k < |init| ==> init[k] == ts[k];
      CascadeEventsAll(init, disabled);
    }
  }

  /** Every cascade target is enabled. */
  lemma {:induction false} CascadeTargetsEnabled(s: seq<Node>, i: nat, disabled: Disabled)
    requires i < |s|
    ensures var ts := CascadeTargets(s, i, disabled);
      forall k :: 0 <= k < |ts| ==> !IsDisabled(disabled, ts[k].id)
  {
    var below := Descendants(s, i);
    var en := Enabled(disabled);
    var ts := CascadeTargets(s, i, disabled);
    FilterSpecMembers(below, |below|, en, en);
    forall k | 0 <= k < |ts|
      ensures !IsDisabled(disabled, ts[k].id)
    {
      assert ts[k] in ts;
      var j :| 0 <= j < |below| && below[j] == ts[k] && Kept(below, j, en, en);
    }
  }

  /** With unique ids, the cascade leaves every ancestor of the toggled node as it was. */
  lemma {:induction false} AncestorsSpared(s: seq<Node>, i: nat, disabled: Disabled, checked: Checked, v: CheckedState, k: nat)
    requires Distinct(Ids(s)) && i < |s| && k < |AncestorNodes(s, i)|
    ensures var m1 := SetCheckedMap(checked, s[i].id, v);
      SameAt(Cascade(m1, CascadeTargets(s, i, disabled), v, disabled), checked, AncestorNodes(s, i)[k].id)
  {
    var a := Ancestors(s, i)[k];
    CascadeSpares(s, i, disabled, SetCheckedMap(checked, s[i].id, v), v, a);
    DistinctIds(s, a, i);
  }

  /**
   * The climb re-infers the first n ancestors, nearest first: each is enabled,
   * changes state, and ends consistent with its enabled nearest children.
   * Every ancestor from n on keeps its state, and the climb stopped at
   * ancestor n because ClimbStops holds there.
   */
  ghost predicate ClimbedAs(before: Checked, after: Checked, anc: seq<Node>, toNearestChildren: NearestChildren, disabled: Disabled, n: nat)
    requires n <= |anc|
  {
    (forall k :: 0 <= k < n ==>
      !IsDisabled(disabled, anc[k].id) &&
      GetCheckedState(after, anc[k].id) != GetCheckedState(before, anc[k].id) &&
      Inferred(after, EnabledNearest(toNearestChildren, anc[k].id, disabled)) == Some(GetCheckedState(after, anc[k].id))) &&
    (forall k :: n <= k < |anc| ==> SameAt(after, before, anc[k].id)) &&
    (n < |anc| ==> ClimbStops(after, anc[n], toNearestChildren, disabled))
  }

  /** With unique parent ids, the climb's callbacks report its first parents with the states they end in. */
  lemma {:induction false} ClimbEventsAreReports(m: Checked, parents: seq<Node>, toNearestChildren: NearestChildren, disabled: Disabled)
    requires Distinct(Ids(parents))
    ensures var c := Climb(m, parents, toNearestChildren, disabled);
      |c.events| <= |parents| && c.events == Reports(c.checked, parents[..|c.events|])
  {
    var c := Climb(m, parents, toNearestChildren, disabled);
    ClimbReportsPrefix(m, parents, toNearestChildren, disabled);
    ClimbReportsFinal(m, parents, toNearestChildren, disabled);
    var n := |c.events|;
    var r := Reports(c.checked, parents[..n]);
    forall k | 0 <= k < n
      ensures c.events[k] == r[k]
    {
      assert parents[..n][k] == parents[k];
    }
  }

  /** With unique parent ids, a parent the climb does not report keeps its state. */
  lemma {:induction false} ClimbSparedOne(m: Checked, parents: seq<Node>, toNearestChildren: NearestChildren, disabled: Disabled, k: nat)
    requires Distinct(Ids(parents))
    requires |Climb(m, parents, toNearestChildren, disabled).events| <= k < |parents|
    ensures SameAt(Climb(m, parents, toNearestChildren, disabled).checked, m, parents[k].id)
  {
    var n := |Climb(m, parents, toNearestChildren, disabled).events|;
    forall k' | 0 <= k' < n && k' < |parents|
      ensures parents[k'].id != parents[k].id
    {
      assert Ids(parents)[k'] != Ids(parents)[k];
    }
    ClimbUntouched(m, parents, toNearestChildren, disabled, parents[k].id);
  }

  /**
   * The reported parents: each is enabled, ends consistent with its enabled
   * nearest children, and in a state other than the one it had in checked,
   * which agreed with m on every parent.
   */
  lemma {:induction false} ClimbReinfers(m: Checked, checked: Checked, parents: seq<Node>, toNearestChildren: NearestChildren, disabled: Disabled, k: nat)
    requires Distinct(Ids(parents))
    requires forall k, k', x :: 0 <= k <= k' < |parents| && x in EnabledNearest(toNearestChildren, parents[k].id, disabled) ==>
      x.id != parents[k'].id
    requires k < |parents| && SameAt(m, checked, parents[k].id)
    requires k < |Climb(m, parents, toNearestChildren, disabled).events|
    ensures var c := Climb(m, parents, toNearestChildren, disabled);
      !IsDisabled(disabled, parents[k].id) &&
      GetCheckedState(c.checked, parents[k].id) != GetCheckedState(checked, parents[k].id) &&
      Inferred(c.checked, EnabledNearest(toNearestChildren, parents[k].id, disabled)) == Some(GetCheckedState(c.checked, parents[k].id))
  {
    ClimbReportsPrefix(m, parents, toNearestChildren, disabled);
    ClimbReportsFinal(m, parents, toNearestChildren, disabled);
    ClimbConsistent(m, parents, toNearestChildren, disabled);
  }

  /** The climb over any unique parents that m and checked agree on climbs as ClimbedAs describes. */
  lemma {:induction false} ClimbClimbedAs(m: Checked, checked: Checked, parents: seq<Node>, toNearestChildren: NearestChildren, disabled: Disabled)
    requires Distinct(Ids(parents))
    requires forall k, k', x :: 0 <= k <= k' < |parents| && x in EnabledNearest(toNearestChildren, parents[k].id, disabled) ==>
      x.id != parents[k'].id
    requires forall k :: 0 <= k < |parents| ==> SameAt(m, checked, parents[k].id)
    ensures var c := Climb(m, parents, toNearestChildren, disabled);
      |c.events| <= |parents| &&
      ClimbedAs(checked, c.checked, parents, toNearestChildren, disabled, |c.events|) &&
      c.events == Reports(c.checked, parents[..|c.events|])
  {
    var c := Climb(m, parents, toNearestChildren, disabled);
    var n := |c.events|;
    ClimbEventsAreReports(m, parents, toNearestChildren, disabled);
    forall k | 0 <= k < n
      ensures !IsDisabled(disabled, parents[k].id) &&
        GetCheckedState(c.checked, parents[k].id) != GetCheckedState(checked, parents[k].id) &&
        Inferred(c.checked, EnabledNearest(toNearestChildren, parents[k].id, disabled)) == Some(GetCheckedState(c.checked, parents[k].id))
    {
      ClimbReinfers(m, checked, parents, toNearestChildren, disabled, k);
    }
    forall k | n <= k < |parents|
      ensures SameAt(c.checked, checked, parents[k].id)
    {
      ClimbSparedOne(m, parents, toNearestChildren, disabled, k);
    }
    ClimbStopsWhere(m, parents, toNearestChildren, disabled);
  }

  /** The climb part of a toggle, over the map the cascade left. */
  lemma {:induction false} ClimbFromCascade(s: seq<Node>, i: nat, checked: Checked, disabled: Disabled, m: Checked)
    returns (n: nat)
    requires Distinct(Ids(s)) && i < |s|
    requires forall k :: 0 <= k < |AncestorNodes(s, i)| ==> SameAt(m, checked, AncestorNodes(s, i)[k].id)
    ensures var anc := AncestorNodes(s, i);
      var c := Climb(m, anc, NearestChildrenOf(s), disabled);
      n == |c.events| && n <= |anc| &&
      ClimbedAs(checked, c.checked, anc, NearestChildrenOf(s), disabled, n) &&
      c.events == Reports(c.checked, anc[..n])
  {
    var anc := AncestorNodes(s, i);
    var nc := NearestChildrenOf(s);
    n := |Climb(m, anc, nc, disabled).events|;
    AncestorNodesDistinct(s, i);
    NearestBelowChain(s, i, disabled);
    ClimbClimbedAs(m, checked, anc, nc, disabled);
  }

  /**
   * The climb of a toggle re-infers the first n ancestors (see ClimbedAs), and
   * its callbacks are: the node with 2, every cascade target with 2, each
   * re-inferred ancestor with the state it ends in, then the new and the old map.
   */
  ghost predicate ToggleClimbed(id: NodeId, children: seq<Node>, checked: Checked, disabled: Disabled, n: nat)
    requires ToggleSpec(id, children, NearestChildrenOf(children), checked, disabled).Committed?
  {
    var r := ToggleSpec(id, children, NearestChildrenOf(children), checked, disabled);
    var i := FirstIndex(children, id);
    var anc := AncestorNodes(children, i);
    n <= |anc| &&
    ClimbedAs(checked, r.newChecked, anc, NearestChildrenOf(children), disabled, n) &&
    r.events == [NodeChecked(id, 2)] + ReportAs(CascadeTargets(children, i, disabled), 2) +
      Reports(r.newChecked, anc[..n]) + [CheckedChanged(r.newChecked, checked)]
  }

  /** Every committed toggle climbs as ToggleClimbed describes, for some n. */
  lemma {:induction false} ToggleUpward(id: NodeId, children: seq<Node>, checked: Checked, disabled: Disabled)
    requires Distinct(Ids(children))
    requires ToggleSpec(id, children, NearestChildrenOf(children), checked, disabled).Committed?
    ensures exists n :: ToggleClimbed(id, children, checked, disabled, n)
  {
    var i := FirstIndex(children, id);
    var v := FlipState(checked, id);
    var targets := CascadeTargets(children, i, disabled);
    var m1 := SetCheckedMap(checked, id, v);
    var cascaded := Cascade(m1, targets, v, disabled);
    var anc := AncestorNodes(children, i);
    forall k | 0 <= k < |anc|
      ensures SameAt(cascaded, checked, anc[k].id)
    {
      AncestorsSpared(children, i, disabled, checked, v, k);
    }
    var n := ClimbFromCascade(children, i, checked, disabled, cascaded);
    CascadeTargetsEnabled(children, i, disabled);
    CascadeEventsAll(targets, disabled);
    var c := Climb(cascaded, anc, NearestChildrenOf(children), disabled);
    var r := ToggleSpec(id, children, NearestChildrenOf(children), checked, disabled);
    assert r == Committed(c.checked,
      [NodeChecked(id, 2)] + CascadeEvents(targets, disabled) + c.events + [CheckedChanged(c.checked, checked)]);
    assert ToggleClimbed(id, children, checked, disabled, n);
  }
}
