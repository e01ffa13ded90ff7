# Tri-state checkbox tree: a Dafny model

This project models the engine of a React tri-state checkbox tree (react-tree-demo), together with the two demo pages that grow the tree by lazy loading. The tree is kept in two forms:

- a **flat sequence**: a pre-order list of nodes, each with a level (`TreeUtils.Node`);
- **nested elements** (`TreeTypes.Element`).

State lives in three sparse maps:

- `checked`: 0 unchecked, 1 indeterminate, 2 checked; an absent key means 0;
- `disabled`: only `true` counts;
- `expanded`: only `true` counts.

The modules follow the source files:

- `TreeTypes` (`tree_types.dfy`): the types of `types.ts`, the three lookups of the tree context, flat nodes and nested elements.
- `TreeUtils` (`tree_utils.dfy`): `utils.tsx`: see below.
- `TreeContext` (`tree_context.dfy`): `useTreeContext.ts`: `toggleChecked`, `toggleExpanded`, `isExpandable`.
- `ValidateChecked` (`validate_checked.dfy`): `useValidateChecked.tsx`: the top-down pass and the nearest-children inference pass.
- `RelationMap`, `RelationFacts` (`relation_map.dfy`, `relation_facts.dfy`): `useRelationMap.tsx`: see below.
- `Loading` (`loading.dfy`): the parts common to both pages: the fetched record, `init` seeding the four maps, and the 0 → 1 → 2 load-state guard of `onNodeExpanded`.
- `FlatStage` (`flat_stage.dfy`): `Stage1.tsx`: `insert` and `lastIndexOf` on the flat page.
- `NestedStage` (`nested_stage.dfy`): `Stage0.tsx`: `insert`, `findNode` and `findNodeHelper` on the nested page.
- `MockUtils` (`mock_utils.dfy`): `mock/utils.tsx`: `mapTreeNode`, `findNode`, `findNodeHelper`, `findNodeParents`, `findNodeParentsHelper`.

What `TreeUtils` covers from `utils.tsx`:

- flattening a nested tree, reporting duplicate ids;
- queries by level scanning: index, descendants, ancestors;
- the nearest-children map;
- the level-stack filter;
- tri-state inference;
- the sparse map setters.

What the relation modules cover from `useRelationMap.tsx`:

- the `toChildren`/`toParent` builder;
- the transitive queries `getChildIds` and `getParentIds`;
- for a tree whose ids are unique, the facts that tie the maps back to the tree.

## How the model is built

- **Loops become methods, recursion becomes functions.** The source's iterative loops are Dafny `method`s with a `while` or `for` loop. These include the `for` loops of `utils.tsx`, `useTreeContext.ts` and `mock/utils.tsx`, and the `forEach` that fills the relation maps. Each such method's `ensures` equates its result, or the object's new state, with a reference function, and the properties the source promises are proved as lemmas about those functions. The source's recursive helpers stay recursive functions: `mapTreeNode` is `MockUtils.MapTreeNode`, and the inner `helper` of `getChildIds` and `getParentIds` is `RelationMap.ChildIdsAll` and `RelationMap.ParentIds`. The `.filter` over a node's nearest children is the recursive function `TreeContext.EnabledOf`.
- **Load state is a class.** The pages' load state and the three seeded maps are fields of the class `Loading.Loader`, whose methods update them as `setLoaded`, `setChecked`, `setDisabled` and `setExpanded` do.
- **Argument maps are values.** The map setters (`setCheckedMap`, `setExpandedMap`) mutate a map that every caller has just copied, so they are pure functions returning the new map.
- **Termination needs a witness.** The source's recursive queries `getChildIds` and `getParentIds` do not terminate on a cyclic map. They take a ghost rank map that witnesses acyclicity. `RelationFacts` builds that rank from the visit order and proves that maps built from a tree with unique ids always have one.

### Behaviour of the code worth knowing

- **Duplicate ids.** Later entries overwrite earlier ones, so the last occurrence wins (`RelationFacts.LaterSiblingWins`, `RelationFacts.OwnEntryWins`).
- **Load state can regress.** After setting a node's load state to 2, the code merges the seeded `loaded` entries of the fetched batch over the map. A fetched batch that re-flags the id with `loadData` therefore resets its load state to 0 (`Loading.Loader.Complete`). `Loading.LoadOnce` states the guard under the assumption that the batch does not do this.
- **No guard against late completions.** The code does not check that a fetch completion still refers to a present node. `Loading.Loader.Complete` also does not check.
- **Validator order.** The validator's inference pass visits parents in map insertion order, which puts ancestors first. So one pass is not a fixpoint on deep trees. Only the consistency of parents whose enabled nearest children are all leaves is proved (`ValidateChecked.ValidateLeafParent`).
- **Notifications.** The checked toggle reports the node and every cascaded descendant with the value 2, even when the new state is 0 (`TreeContext.ToggleUpward`, `TreeContext.CascadeEventsAll`).

## Model

| member | source | states |
|---|---|---|
| `TreeTypes.GetCheckedState` | src/components/Tree/useTreeContext.ts:70-73 | an id without an entry has state 0, otherwise its stored state |
| `TreeTypes.IsExpanded` | src/components/Tree/useTreeContext.ts:75-78 | true exactly when the id has an entry and that entry is true |
| `TreeTypes.IsDisabled` | src/components/Tree/useTreeContext.ts:80-83 | true exactly when the id has an entry and that entry is true |
| `TreeUtils.FirstIndex` | src/components/Tree/utils.tsx:121-130 | the first position with the id, and -1 exactly when no node has it |
| `TreeUtils.IndexOfChild` | src/components/Tree/utils.tsx:121-130 | the `for`-with-`break` search returns exactly `FirstIndex` |
| `TreeUtils.RunEnd` | src/components/Tree/utils.tsx:143-147 | the scan stops at the first node from the start whose level is at most the bound, or at the end; every node it passes is deeper |
| `TreeUtils.GetChildren` | src/components/Tree/utils.tsx:137-150 | empty for an absent id, else the maximal run of deeper nodes right after the node |
| `TreeUtils.DescendantsExact` | src/components/Tree/utils.tsx:137-150 | that run holds exactly the nodes the given node is an ancestor of (a node a is an ancestor of j when a precedes j and every node after a, up to and including j, is deeper than a) |
| `TreeUtils.GetParents` | src/components/Tree/utils.tsx:158-175 | empty for an absent id, else the ancestor chain, nearest first, stopping after level 0 |
| `TreeUtils.AncestorsExact` | src/components/Tree/utils.tsx:158-175 | the chain holds exactly the ancestors of the node |
| `TreeUtils.AncestorsOrdered` | src/components/Tree/utils.tsx:164-171 | positions and levels of the chain strictly decrease, all below the node's level |
| `TreeUtils.AncestorsStep` | src/components/Tree/utils.tsx:164-171 | each link of the chain is the nearest ancestor of the one before it |
| `TreeUtils.ParentIsNearest` | src/components/Tree/utils.tsx:164-171 | the parent is the nearest earlier node with a smaller level; without one, every earlier node is at least as deep |
| `TreeUtils.ScanFromZero` | src/components/Tree/utils.tsx:171 | nothing is picked once the bound reaches level 0, so the climb ends there |
| `TreeUtils.InferChecked` | src/components/Tree/utils.tsx:183-215 | the loop with its early break yields nothing for no children, 2 when all are 2, 0 when all are 0 or absent, 1 otherwise |
| `TreeUtils.InferredIndeterminate` | src/components/Tree/utils.tsx:194-196 | one child at 1 makes the result 1 |
| `TreeUtils.InferredMixed` | src/components/Tree/utils.tsx:205-206 | a child at 2 together with a child at 0 makes the result 1 |
| `TreeUtils.SetCheckedMap` | src/components/Tree/utils.tsx:217-227 | the key is present iff the value is not 0, holds the value, and no other key changes |
| `TreeUtils.SetCheckedMapRoundTrip` | src/components/Tree/utils.tsx:217-227 | reading the key back gives the value and other keys read as before |
| `TreeUtils.SetExpandedMap` | src/components/Tree/utils.tsx:229-239 | the key is present iff the value is `true`; no other key changes |
| `TreeUtils.SetExpandedMapRoundTrip` | src/components/Tree/utils.tsx:229-239 | reading the flag back gives the value and other keys read as before |
| `TreeUtils.PopEmpty` | src/components/Tree/utils.tsx:55-63 | the result is a prefix, everything dropped is a hole, and the top of what remains is not a hole |
| `TreeUtils.SetAt` | src/components/Tree/utils.tsx:88 | writing past the end of a JS array pads with holes; the slot gets the value and nothing else changes |
| `TreeUtils.OpenAtStep` | src/components/Tree/utils.tsx:77-88 | cutting the level stack at a node's level and writing the node keeps lower slots, opens the node, and closes everything above |
| `TreeUtils.ParentIsTopOpen` | src/components/Tree/utils.tsx:77-81 | the top non-hole slot below the node's level holds the node's parent; with nothing there, no parent |
| `TreeUtils.StackStep` | src/components/Tree/utils.tsx:74-88 | one step of the id stack reads off exactly the parent id and leaves the stack of the prefix one node longer |
| `TreeUtils.CreateNearestChildrenMap` | src/components/Tree/utils.tsx:69-92 | the loop builds exactly the map of each parent id to its direct children with keys in first-occurrence order |
| `TreeUtils.NearestOfMembers` | src/components/Tree/utils.tsx:83-86 | a key's list holds exactly the nodes whose parent has that id, in sequence order |
| `TreeUtils.ParentOrderMembers` | src/components/Tree/utils.tsx:83-86 | an id is a key exactly when some node has it as parent id; roots go under no key |
| `TreeUtils.ParentOrderDistinct` | src/components/Tree/utils.tsx:84-86 | each key appears once |
| `TreeUtils.ParentOrderAncestorsFirst` | src/components/Tree/utils.tsx:84-86 | with unique ids, every ancestor of a key is a key listed before it |
| `TreeUtils.FilterChildren` | src/components/Tree/utils.tsx:100-114 | the loop with its level stack returns exactly the nodes kept in order: self condition true and every ancestor passes the parents condition |
| `TreeUtils.FilterSpecMembers` | src/components/Tree/utils.tsx:100-114 | a node is listed exactly when it is kept |
| `TreeUtils.AncestorsAreOpen` | src/components/Tree/utils.tsx:108-109 | the cut stack holds a `false` exactly when some ancestor of the node fails the parents condition |
| `TreeUtils.OpenBelowAreAncestors` | src/components/Tree/utils.tsx:105-108 | below a node's level the stack holds exactly its ancestors |
| `TreeUtils.NewLevel` | src/components/Tree/utils.tsx:41-42 | the level is never shallower than the depth; a declared level that is at least the depth is kept, and an absent or shallower one gives the depth |
| `TreeUtils.Partition` | src/components/Tree/utils.tsx:31-39 | children split into tree nodes and other content, each in order |
| `TreeUtils.FlattenSkipsOthers` | src/components/Tree/utils.tsx:20-39 | non-tree children contribute no node |
| `TreeUtils.FlattenInto` | src/components/Tree/utils.tsx:19-50 | the recursive helper appends exactly the pre-order flattening of its element and keeps the id set and the duplicate report of everything appended |
| `TreeUtils.FlattenEach` | src/components/Tree/utils.tsx:49 | the tree-node children are flattened in order one level below the parent's new level |
| `TreeUtils.FlatChildren` | src/components/Tree/utils.tsx:16-53 | the result is the pre-order flattening from level 0 and the reports are exactly the repeated ids |
| `TreeUtils.RepeatsEmpty` | src/components/Tree/utils.tsx:24-29 | nothing is reported exactly when the ids are unique |
| `TreeUtils.FlattenLevels` | src/components/Tree/utils.tsx:41-49 | every flat node is at least as deep as where its element was met |
| `TreeUtils.SubtreeOfFlatten` | src/components/Tree/utils.tsx:16-53 | in the flat sequence, the descendants of a node are exactly the flattening of its children |
| `TreeContext.IsExpandable` | src/components/Tree/useTreeContext.ts:166-178 | false for an unknown id; true iff the node has truthy content or the next node is deeper |
| `TreeContext.ToggleExpanded` | src/components/Tree/useTreeContext.ts:85-98 | the flag flips (absent becomes `true`, `true` becomes absent), no other key changes, node callback then map callback with new and old maps |
| `TreeContext.ToggleExpandedTwice` | src/components/Tree/useTreeContext.ts:85-98 | toggling twice restores the node's flag and every other key |
| `TreeContext.CascadeLoop` | src/components/Tree/useTreeContext.ts:127-132 | the `forEach` sets exactly the enabled targets and reports each with 2 |
| `TreeContext.ClimbLoop` | src/components/Tree/useTreeContext.ts:136-150 | the climb loop with its three breaks equals the climb function `Climb` |
| `TreeContext.ToggleChecked` | src/components/Tree/useTreeContext.ts:100-154 | the whole toggle equals its end-to-end reference function `ToggleSpec` |
| `TreeContext.ToggleIgnored` | src/components/Tree/useTreeContext.ts:110-112 | nothing happens, no callback, exactly when the id is disabled or absent |
| `TreeContext.ToggleSelf` | src/components/Tree/useTreeContext.ts:117-118 | the node ends at 0 if it was 2, else at 2 (1 goes to 2) |
| `TreeContext.CascadeReaches` | src/components/Tree/useTreeContext.ts:122-127 | every descendant that is enabled with all ancestors below the node enabled is a cascade target |
| `TreeContext.CascadeOnlyReached` | src/components/Tree/useTreeContext.ts:122-127 | every cascade target is such a descendant |
| `TreeContext.CascadeFacts` | src/components/Tree/useTreeContext.ts:127-132 | the cascade sets every enabled target id to the value and leaves every other key alone |
| `TreeContext.ToggleDownward` | src/components/Tree/useTreeContext.ts:122-132 | with unique ids, every reached descendant ends in the node's new state |
| `TreeContext.ToggleBarrier` | src/components/Tree/useTreeContext.ts:123-127 | a disabled descendant and everything under it keep their state |
| `TreeContext.AncestorsSpared` | src/components/Tree/useTreeContext.ts:114-132 | the self flip and the cascade leave every ancestor as it was |
| `TreeContext.CascadeEventsAll` | src/components/Tree/useTreeContext.ts:131 | each cascaded node is reported with 2, whatever the new state |
| `TreeContext.ClimbReportsPrefix` | src/components/Tree/useTreeContext.ts:136-150 | the climb reports a prefix of the ancestors, nearest first, all enabled |
| `TreeContext.ClimbUntouched` | src/components/Tree/useTreeContext.ts:136-150 | nothing the climb does not report changes |
| `TreeContext.ClimbStopsWhere` | src/components/Tree/useTreeContext.ts:139-146 | a climb that ends early ends at a disabled ancestor, an empty inference, or an unchanged state |
| `TreeContext.ClimbReportsFinal` | src/components/Tree/useTreeContext.ts:144-149 | each reported ancestor changed and ends in the reported state |
| `TreeContext.ClimbConsistent` | src/components/Tree/useTreeContext.ts:141-149 | each reported ancestor ends consistent with its enabled nearest children |
| `TreeContext.ClimbFromCascade` | src/components/Tree/useTreeContext.ts:135-150 | on the map the cascade left, the climb re-infers the first n ancestors and stops where it must |
| `TreeContext.ToggleFrame` | src/components/Tree/useTreeContext.ts:114-150 | only the node, its descendants and its ancestors can change |
| `TreeContext.ToggleKeepsDisabled` | src/components/Tree/useTreeContext.ts:110-150 | a disabled node keeps its state |
| `TreeContext.ToggleUpward` | src/components/Tree/useTreeContext.ts:119-153 | the callbacks are the node with 2, the cascade with 2, each changed ancestor with its state, then one map callback with new and old maps |
| `ValidateChecked.ValidateSpec` | src/components/Tree/useValidateChecked.tsx:46-85 | inactive: nothing and no callback; active: exactly one callback with new and previous maps |
| `ValidateChecked.Validate` | src/components/Tree/useValidateChecked.tsx:46-85 | the effect body equals its reference function `ValidateSpec` |
| `ValidateChecked.TopDownPass` | src/components/Tree/useValidateChecked.tsx:58-74 | the stack-driven loop equals the pass that checks each node whose parent in the queue is checked |
| `ValidateChecked.InferParent` | src/components/Tree/useValidateChecked.tsx:78-81 | one parent takes the inferred state of its enabled nearest children when it has any |
| `ValidateChecked.BottomUpPass` | src/components/Tree/useValidateChecked.tsx:77-82 | the `forEach` visits the keys in insertion order |
| `ValidateChecked.TopDownFrame` | src/components/Tree/useValidateChecked.tsx:59-74 | the pass writes only visited ids and only 2 |
| `ValidateChecked.TopDownKeepsChecked` | src/components/Tree/useValidateChecked.tsx:69-72 | once checked during the pass, a node stays checked |
| `ValidateChecked.TopDownClosed` | src/components/Tree/useValidateChecked.tsx:58-74 | a visited node whose parent ends checked ends checked (transitively) |
| `ValidateChecked.TopDownSkipsDisabled` | src/components/Tree/useValidateChecked.tsx:53-57 | disabled nodes and nodes under them are not written |
| `ValidateChecked.BottomUpFrame` | src/components/Tree/useValidateChecked.tsx:77-82 | only keys with an enabled nearest child are written |
| `ValidateChecked.InferredLast` | src/components/Tree/useValidateChecked.tsx:77-82 | with distinct keys, a parent keeps the state its own step gave it |
| `ValidateChecked.BottomUpLeafParent` | src/components/Tree/useValidateChecked.tsx:77-82 | a parent whose enabled nearest children are leaves ends consistent with them, disabled or not |
| `ValidateChecked.ListedIsKey` | src/components/Tree/utils.tsx:83-86 | a parent with enabled nearest children is a key of the built map |
| `ValidateChecked.ValidateLeafParent` | src/components/Tree/useValidateChecked.tsx:46-85 | after the validator, such a parent is consistent; deeper consistency is not promised |
| `ValidateChecked.ValidateKeepsDisabled` | src/components/Tree/useValidateChecked.tsx:53-82 | a disabled (or blocked) node without enabled nearest children leaves unchanged |
| `RelationMap.IndexNode` | src/components/Tree/useRelationMap.tsx:20-46 | visiting a node records its id, reports a repeat, and when its children prop is present records its children's entries then its own |
| `RelationMap.IndexKids` | src/components/Tree/useRelationMap.tsx:37-42 | children are visited in order; only tree nodes are collected |
| `RelationMap.LinkParents` | src/components/Tree/useRelationMap.tsx:45 | each collected id is mapped to the parent, one after another |
| `RelationMap.BuildRelations` | src/components/Tree/useRelationMap.tsx:14-52 | the builder yields exactly the children and parent entries of the forest and the repeated ids in visit order |
| `RelationMap.ChildIds` | src/components/Tree/useRelationMap.tsx:56-67 | empty for an unlisted id; empty iff the listed children are; holds every listed child |
| `RelationMap.ParentIds` | src/components/Tree/useRelationMap.tsx:69-80 | empty iff no parent; starts at the parent; each entry is the parent of the one before; ends at an id with no parent |
| `RelationMap.ChildParentInverse` | src/components/Tree/useRelationMap.tsx:56-80 | over consistent acyclic maps, x is below p iff p is among x's parents |
| `RelationFacts.ChildValuesAll` | src/components/Tree/useRelationMap.tsx:35-44 | with unique ids, each node with a children prop lists its tree-node children's ids in order (possibly none) |
| `RelationFacts.ChildKeyOwnerAll` | src/components/Tree/useRelationMap.tsx:35-44 | every key of the children map is a visited node with a children prop |
| `RelationFacts.ParentValuesAll` | src/components/Tree/useRelationMap.tsx:44-45 | with unique ids, each tree-node child maps to its parent |
| `RelationFacts.ParentKeyOwnerAll` | src/components/Tree/useRelationMap.tsx:44-45 | every key of the parent map is a tree-node child of a visited node with a children prop |
| `RelationFacts.NoTopParent` | src/components/Tree/useRelationMap.tsx:48 | with unique ids, top-level nodes get no parent entry |
| `RelationFacts.BuiltConsistent` | src/components/Tree/useRelationMap.tsx:37-45 | with unique ids, the two maps describe the same pairs |
| `RelationFacts.BuiltDownRanked` | src/components/Tree/useRelationMap.tsx:56-67 | with unique ids, the children map is acyclic, so the descendant query terminates |
| `RelationFacts.BuiltUpRanked` | src/components/Tree/useRelationMap.tsx:69-80 | with unique ids, the parent map is acyclic, so the ancestor query terminates |
| `RelationFacts.BuiltDescendants` | src/components/Tree/useRelationMap.tsx:56-67 | with unique ids, the descendant query returns every id below the node in pre-order, the node excluded |
| `RelationFacts.BuiltInverse` | src/components/Tree/useRelationMap.tsx:14-80 | with unique ids, x is below p iff p is among x's parents |
| `RelationFacts.BuiltRootHasNoParents` | src/components/Tree/useRelationMap.tsx:69-80 | with unique ids, a root's parent chain is empty |
| `RelationFacts.LaterSiblingWins` | src/components/Tree/useRelationMap.tsx:44-45 | entries set under a later sibling override earlier ones and leave others alone |
| `RelationFacts.OwnEntryWins` | src/components/Tree/useRelationMap.tsx:41-45 | a node's own entries are set last, over those set below it |
| `RelationFacts.NoReportIffUnique` | src/components/Tree/useRelationMap.tsx:26-32 | nothing reported iff no id repeats and none was seen before |
| `RelationFacts.ReportsAreRepeats` | src/components/Tree/useRelationMap.tsx:26-32 | an id is reported iff it occurs as a repeat |
| `RelationFacts.BuiltReportsIffDuplicates` | src/components/Tree/useRelationMap.tsx:26-32 | the builder reports nothing iff every visited id is unique |
| `Loading.SeedMembers` | src/Stage1.tsx:38-44 | a batch seeds an id iff some record with that id carries the flag, always with the flag's value |
| `Loading.SeedMerge` | src/Stage1.tsx:45-48 | merged over a state map, seeded entries win and other keys are unchanged |
| `Loading.Loader.constructor` | src/Stage1.tsx:25-28 | all four maps start empty |
| `Loading.Loader.Init` | src/Stage1.tsx:32-51 | each map becomes the old map with the batch's seed merged over it (Stage0.tsx:36-55 is the same code) |
| `Loading.Loader.Expand` | src/Stage1.tsx:62-68 | a fetch starts iff the value is true and the load state is 0; it sets 1; otherwise nothing changes (Stage0.tsx:66-72 is the same) |
| `Loading.Loader.Complete` | src/Stage1.tsx:70-72 | the load state becomes 2 and then the batch is seeded over all maps |
| `Loading.LoadOnce` | src/Stage1.tsx:62-76 | expanding, completing, then expanding again fetches once and leaves state 2, when the batch does not re-flag the id |
| `FlatStage.LastIndex` | src/Stage1.tsx:138-147 | the highest index with the id, -1 iff there is none |
| `FlatStage.LastIndexOf` | src/Stage1.tsx:138-147 | the reverse loop with `break` returns exactly `LastIndex` |
| `FlatStage.SkipDeeper` | src/Stage1.tsx:125-127 | the first index from the start whose level is not deeper, every passed row being deeper |
| `FlatStage.Place` | src/Stage1.tsx:119-133 | one record of the `forEach` is placed as `FlatStage.InsertOne` says |
| `FlatStage.Insert` | src/Stage1.tsx:116-136 | the copied array ends as the batch placed record by record |
| `FlatStage.InsertAllLength` | src/Stage1.tsx:116-136 | the result has `arr.length + data.length` rows |
| `FlatStage.InsertOneKeeps` | src/Stage1.tsx:130 | placing a record keeps every row, with its level, in relative order |
| `FlatStage.InsertAllKeeps` | src/Stage1.tsx:116-136 | a batch keeps every existing row, with its level, in relative order |
| `FlatStage.PlacedUnderParent` | src/Stage1.tsx:121-130 | with its parent present, a record goes after the parent's current descendants at the parent's level plus one |
| `FlatStage.PlacedAsRoot` | src/Stage1.tsx:131-133 | a record with a falsy parent id is appended at level 0 |
| `FlatStage.PlacedAsOrphan` | src/Stage1.tsx:121-130 | a record whose parent is absent is appended at level 1 |
| `FlatStage.InsertOneStepped` | src/Stage1.tsx:121-130 | no row ends more than one level deeper than the row before it |
| `FlatStage.InsertAllStepped` | src/Stage1.tsx:116-136 | a batch keeps that property |
| `FlatStage.SiblingsInBatchOrder` | src/Stage1.tsx:118-134 | a later sibling in the batch lands right after the earlier one, at the same level |
| `FlatStage.ChildAfterBatchParent` | src/Stage1.tsx:118-134 | a record whose parent came earlier in the batch lands right after it, one level deeper |
| `NestedStage.FindIn` | src/Stage0.tsx:141-150 | the hit carries the id |
| `NestedStage.FindInIsFirst` | src/Stage0.tsx:141-150 | the search returns the first pre-order node with the id |
| `NestedStage.FindAllIsFirst` | src/Stage0.tsx:134-139 | across roots, the first pre-order node with the id |
| `NestedStage.FindNodeHelper` | src/Stage0.tsx:141-150 | the loop with its early return yields exactly that first pre-order hit |
| `NestedStage.FindNode` | src/Stage0.tsx:134-139 | the loop over the roots yields exactly that first pre-order hit |
| `NestedStage.AppendAll` | src/Stage0.tsx:122 | attaching keeps the number of roots and their records |
| `NestedStage.Insert` | src/Stage0.tsx:116-132 | the copied forest ends as the batch placed record by record |
| `NestedStage.AppendAllFound` | src/Stage0.tsx:120-123 | after the push, the search finds the same node with the child added last |
| `NestedStage.AppendAllRecs` | src/Stage0.tsx:122 | the push inserts the child's records into the pre-order records at one place |
| `NestedStage.PlacedUnderParent` | src/Stage0.tsx:120-123 | a found parent gets the record as its last child; the roots keep their number and their records |
| `NestedStage.PlacedAsRoot` | src/Stage0.tsx:124-129 | a falsy or unknown parent id makes the record the last root |
| `NestedStage.InsertOneRecs` | src/Stage0.tsx:118-130 | placing a record adds exactly it to the pre-order records |
| `NestedStage.AppendInShape` | src/Stage0.tsx:120-123 | in the pre-order (record, child count) entries of a tree, the push raises only the found node's count by one and inserts the child's entries after it |
| `NestedStage.AppendAllShape` | src/Stage0.tsx:120-123 | the same across the roots: every other node keeps its record and its child count |
| `NestedStage.InsertOneShape` | src/Stage0.tsx:118-130 | placing a record under a found parent raises only that parent's count and inserts the record's entry with no children; otherwise the entry is added at the end as a new root |
| `NestedStage.InsertAllCount` | src/Stage0.tsx:116-131 | the node count grows by `data.length` |
| `NestedStage.PlacedIsFound` | src/Stage0.tsx:118-130 | a placed record with a fresh id is what the next search for that id finds |
| `NestedStage.ChildUnderBatchParent` | src/Stage0.tsx:118-130 | a record whose parent came earlier in the batch is attached under it |
| `MockUtils.MapTreeNode` | src/mock/utils.tsx:23-26 | the callback is called on the node first |
| `MockUtils.FindInIsFirst` | src/mock/utils.tsx:35-44 | the search returns the first node in callback order with the id |
| `MockUtils.FindAllIsFirst` | src/mock/utils.tsx:28-33 | across roots, tried in order, the same |
| `MockUtils.FindNodeHelper` | src/mock/utils.tsx:35-44 | the loop with its early return yields exactly that first hit |
| `MockUtils.FindNode` | src/mock/utils.tsx:28-33 | the loop over the roots yields exactly that first hit |
| `MockUtils.PathIn` | src/mock/utils.tsx:53-63 | `[]` iff the root matches; otherwise root first, each node a child of the one before, none of them the target, the last has the target as a child |
| `MockUtils.PathAll` | src/mock/utils.tsx:46-51 | a path from one of the roots with the same shape |
| `MockUtils.PathIffFound` | src/mock/utils.tsx:53-63 | a path exists iff the find succeeds |
| `MockUtils.PathInEndsAtFound` | src/mock/utils.tsx:53-63 | the node `findNodeHelper` finds is the first child with the id of the path's last node |
| `MockUtils.PathAllEndsAtFound` | src/mock/utils.tsx:46-51 | across the roots: an empty path means `findNode` finds a root, otherwise it finds the first child with the id of the path's last node |
| `MockUtils.Visit` | src/mock/utils.tsx:55-61 | on a hit the stack gains exactly the path; on a miss every push is popped |
| `MockUtils.FindChild` | src/mock/utils.tsx:58 | `children.find` stops at the first child that holds the target |
| `MockUtils.FindNodeParentsHelper` | src/mock/utils.tsx:53-63 | returns exactly the path, or nothing |
| `MockUtils.FindNodeParents` | src/mock/utils.tsx:46-51 | returns the path from the first root that holds the target |

## Left out

- **React plumbing.** The hooks (`useCallback`, `useMemo`, `useEffect`, `useStateRef`, `usePropState`, `useFirstRun`) and `React.Children`, `cloneElement` and `isTreeNode` are left out. Nodes are plain records. Each hook body is a function or method over explicit inputs.
- **Stale reads.** Reading state through refs (`loadedRef.current` and the like) is modelled as reading the current field. Any stale-read behaviour of the refs is not modelled.
- **`Tree.tsx`, rendering, `TreeNode.tsx`, `Checkbox` and `App.tsx`** are wiring and UI. The JSX of the two pages is left out too.
- **Fetching.**
  - The fetch (`api.data`, `api.more`) and the `await` in `onNodeExpanded` are left out. The fetched batch is a parameter of `Loading.Loader.Complete` and of the `Insert` methods.
  - There is no failure path in the code, and none is modelled.
  - Concurrency between an outstanding fetch and other events is not modelled.
- **Id generation and fixtures.** The id counters (`createNode`, and the counter in the fixture data) and the fixture data are not modelled.
- **Logging.**
  - Duplicate-id diagnostics (`console.error`) are modelled as a returned list of repeated ids.
  - `printChecked` (`console.log`) is not part of this model.
- **Display fields.** A node's display name and its non-tree content are left out. Only the content's truthiness is kept, because `isExpandable` reads it.
- **Page state.** The page's `data` state is not a field of `Loading.Loader`. The `Insert` methods take it and return the new value, as the `setData` updater does.
- **Copies are values.**
  - Stage0's JSON deep copy and Stage1's `arr.slice()` are modelled by passing values. The input is unchanged because values are immutable.
  - `NestedStage.AppendAll` updates the first pre-order node with the parent id (the node `findNode` returns) as a value, instead of pushing onto a shared object. Aliasing between a found node and the forest is therefore not modelled.
- **`MockUtils.Data`** keeps only `nodeId` and `children`, with an absent child list written as the empty one. The two are traversed alike.
- **`RelationMap.ChildIds`, `RelationMap.ParentIds`:** these take a ghost rank map as a termination witness. The source's recursion never ends on a cyclic map, so no result is modelled for one. `RelationFacts.BuiltDownRanked` and `RelationFacts.BuiltUpRanked` give the witness for every tree with unique ids.
- **`RelationMap.ChildIds`:** its own contract does not state the full pre-order result for arbitrary maps. The full result is stated for built maps by `RelationFacts.BuiltDescendants`.
- **`ValidateChecked.ValidateLeafParent`:** this states consistency only for parents whose enabled nearest children are leaves. The inference pass visits ancestors first, so a deeper parent can be left inconsistent by one pass.
- **`Loading.LoadOnce`:** this requires that the fetched batch does not re-flag the expanded id with `loadData`. Without that requirement the code resets the id's state to 0.
