/**
 * Lazy loading shared by the two demo pages: the fetched record, the seeding
 * of the four state maps from a batch, and the 0 -> 1 -> 2 load state of a
 * node whose children are fetched on first expansion.
 */
module Loading {
  import opened TreeTypes

  /** A fetched record: its id, its parent id (null when absent) and its flags. */
  datatype Record = Record(id: NodeId, pid: Option<NodeId>, checked: bool, disabled: bool, expanded: bool, loadData: bool)

  /** A parent id counts only when it is present and not the empty string. */
  predicate HasParent(r: Record)
  {
    r.pid.Some? && r.pid.value != ""
  }

  /** 0 = not fetched, 1 = fetching, 2 = fetched. */
  type LoadStage = x: int | 0 <= x <= 2

  type Loaded = map<NodeId, LoadStage>

  datatype Flag = CheckedFlag | DisabledFlag | ExpandedFlag | LoadFlag

  predicate Flagged(r: Record, f: Flag)
  {
    match f
    case CheckedFlag => r.checked
    case DisabledFlag => r.disabled
    case ExpandedFlag => r.expanded
    case LoadFlag => r.loadData
  }

  /** The entries a batch seeds for one flag: value v for every record carrying it, later records last. */
  function Seed<V>(res: seq<Record>, f: Flag, v: V): map<NodeId, V>
    decreases |res|
  {
    if res == [] then map[]
    else
      var m := Seed(res[..|res| - 1], f, v);
      var r := res[|res| - 1];
      if Flagged(r, f) then m[r.id := v] else m
  }

  /** A batch seeds an id exactly when some record with that id carries the flag, always with v. */
  lemma {:induction false} SeedMembers<V>(res: seq<Record>, f: Flag, v: V, id: NodeId)
    ensures id in Seed(res, f, v) <==> exists j :: 0 <= j < |res| && res[j].id == id && Flagged(res[j], f)
    ensures id in Seed(res, f, v) ==> Seed(res, f, v)[id] == v
    decreases |res|
  {
    if res != [] {
      var init := res[..|res| - 1];
      SeedMembers(init, f, v, id);
      if exists j :: 0 <= j < |res| && res[j].id == id && Flagged(res[j], f) {
        var j :| 0 <= j < |res| && res[j].id == id && Flagged(res[j], f);
        if j < |res| - 1 {
          assert init[j] == res[j];
        }
      }
      if exists j :: 0 <= j < |init| && init[j].id == id && Flagged(init[j], f) {
        var j :| 0 <= j < |init| && init[j].id == id && Flagged(init[j], f);
        assert res[j] == init[j];
      }
    }
  }

  /** Merging the seeded entries over a state map: seeded entries win, the rest is kept. */
  lemma {:induction false} SeedMerge<V>(state: map<NodeId, V>, res: seq<Record>, f: Flag, v: V, id: NodeId)
    ensures id in Seed(res, f, v) ==> id in state + Seed(res, f, v) && (state + Seed(res, f, v))[id] == v
    ensures id !in Seed(res, f, v) ==> SameAt(state + Seed(res, f, v), state, id)
  {
    SeedMembers(res, f, v, id);
  }

  /** A page's state maps and load states, updated as batches arrive and nodes are expanded. */
  class Loader {
    var checked: Checked
    var disabled: Disabled
    var expanded: Expanded
    var loaded: Loaded

    constructor()
      ensures checked == map[] && disabled == map[] && expanded == map[] && loaded == map[]
    {
      checked, disabled, expanded, loaded := map[], map[], map[], map[];
    }

    /**
     * Seed from a batch: fresh maps get an entry for every true flag
     * (checked 2, disabled and expanded true, load state 0), then each is
     * merged over the current map.
     */
    method Init(res: seq<Record>)
      modifies this
      ensures checked == old(checked) + Seed(res, CheckedFlag, 2 as CheckedState)
      ensures disabled == old(disabled) + Seed(res, DisabledFlag, true)
      ensures expanded == old(expanded) + Seed(res, ExpandedFlag, true)
      ensures loaded == old(loaded) + Seed(res, LoadFlag, 0 as LoadStage)
    {
      var newChecked: Checked := map[];
      var newDisabled: Disabled := map[];
      var newExpanded: Expanded := map[];
      var newLoaded: Loaded := map[];
      for i := 0 to |res|
        invariant newChecked == Seed(res[..i], CheckedFlag, 2 as CheckedState)
        invariant newDisabled == Seed(res[..i], DisabledFlag, true)
        invariant newExpanded == Seed(res[..i], ExpandedFlag, true)
        invariant newLoaded == Seed(res[..i], LoadFlag, 0 as LoadStage)
      {
        var node := res[i];
        assert res[..i + 1][..i] == res[..i] && res[..i + 1][i] == node;
        if node.checked {
          newChecked := newChecked[node.id := 2];
        }
        if node.disabled {
          newDisabled := newDisabled[node.id := true];
        }
        if node.expanded {
          newExpanded := newExpanded[node.id := true];
        }
        if node.loadData {
          newLoaded := newLoaded[node.id := 0];
        }
      }
      assert res[..|res|] == res;
      checked := checked + newChecked;
      disabled := disabled + newDisabled;
      expanded := expanded + newExpanded;
      loaded := loaded + newLoaded;
    }

    /**
     * A node was expanded or collapsed. Only an expansion of a node whose
     * load state is 0 starts a fetch: its state becomes 1. Anything else
     * (collapsing, no load state, 1 or 2) changes nothing.
     */
    method Expand(id: NodeId, value: bool) returns (fetch: bool)
      modifies this
      ensures fetch <==> value && id in old(loaded) && old(loaded)[id] == 0
      ensures loaded == if fetch then old(loaded)[id := 1] else old(loaded)
      ensures checked == old(checked) && disabled == old(disabled) && expanded == old(expanded)
    {
      fetch := false;
      if !value {
        return;
      }
      if id !in loaded || loaded[id] > 0 {
        return;
      }
      loaded := loaded[id := 1];
      fetch := true;
    }

    /** The fetch for id returned res: its state becomes 2, then the batch seeds the maps. */
    method Complete(id: NodeId, res: seq<Record>)
      modifies this
      ensures checked == old(checked) + Seed(res, CheckedFlag, 2 as CheckedState)
      ensures disabled == old(disabled) + Seed(res, DisabledFlag, true)
      ensures expanded == old(expanded) + Seed(res, ExpandedFlag, true)
      ensures loaded == old(loaded)[id := 2] + Seed(res, LoadFlag, 0 as LoadStage)
    {
      loaded := loaded[id := 2];
      Init(res);
    }
  }

  /**
   * Expanding a node with load state 0 and completing its fetch leaves it at
   * 2 unless the batch itself asks to load that id again; a second
   * expansion then starts no fetch.
   */
  method LoadOnce(l: Loader, id: NodeId, res: seq<Record>) returns (first: bool, second: bool)
    requires id in l.loaded && l.loaded[id] == 0
    requires forall j :: 0 <= j < |res| ==> res[j].id == id ==> !res[j].loadData
    modifies l
    ensures first && !second
    ensures id in l.loaded && l.loaded[id] == 2
  {
    first := l.Expand(id, true);
    l.Complete(id, res);
    SeedMembers(res, LoadFlag, 0 as LoadStage, id);
    second := l.Expand(id, true);
  }
}
