# Work-item hierarchy state container, in Dafny

This project models `WorkItemHierarchyStateManager`, the in-memory container
that holds a forest of work-item nodes while a work item is being decomposed
into children. Each node has an id, a title, a type and an ordered list of
children. Alongside the forest the container keeps a cached total node count,
an optional root-parent type and two passthrough path strings (area path and
iteration path).

The model has four modules:

- `Wrappers` (`wrappers.dfy`): `Option`, standing for the source's
  `null` / `undefined`.
- `NodeFinder` (`node_finder.dfy`): the `Node` datatype and the two
  traversals the container calls, `countNodesRecursive` and
  `findNodeRecursive`. The file that defines them in the repository
  (`src/managers/workItemNodeFinder.ts`) is not part of this model, so its
  behaviour is assumed: every node at every depth counts one, and the search
  is depth-first pre-order, first match wins. The container's own code only
  calls the two functions and does not fix that order. Each is proved
  equal to a reference definition over `Preorder`, the flat pre-order listing
  of the forest.
- `TitleUpdate` (`title_update.dfy`): the in-place title edit as a pure
  function `UpdateTitle`. Its effect is stated on two views that together
  determine a forest (`ViewsDetermineForest`):
  - `Erase` keeps ids, types and structure and blanks the titles.
  - `Labels` lists each node's id, title and type in pre-order.
- `StateManager` (`state_manager.dfy`): the container as an immutable record
  `Manager`. Each mutating method is a function from the old state to the new
  one. `Valid` is the cache invariant: the cached count equals `CountNodes` of
  the stored forest. The getters `getParentWorkItemType`,
  `getOriginalAreaPath` and `getOriginalIterationPath` are plain field reads
  (`GetParentWorkItemType`, `GetOriginalAreaPath`, `GetOriginalIterationPath`);
  what they return is stated in the contracts of `SetParentWorkItemType` and
  `SetOriginalPaths`.

The source deep-copies a forest with `cloneDeep` whenever it enters or leaves
the container. Dafny datatypes are values, so the copy is the identity here,
and the isolation the copies give (a caller's later changes never reach the
stored forest) holds by construction.

Where the code is more specific than its description, the model follows the
code:
- The constructor and `setInitialHierarchy` store `parentWorkItemType || null`.
  So an empty type string becomes `null` as well, not just an omitted type
  (`OrNull`).
- `setParentWorkItemType` stores its argument without that coercion.
- The constructor falls back to an empty forest only when the initial
  hierarchy is absent. An empty array is truthy in JavaScript and is stored
  as given.

## Model

| member | source | states |
|---|---|---|
| NodeFinder.CountNodes | src/managers/workItemHierarchyStateManager.ts:29 | the recursive count of a forest is never less than its number of roots |
| NodeFinder.CountIsPreorderLength | src/managers/workItemHierarchyStateManager.ts:29 | the recursive count equals the number of nodes in the pre-order listing: every node at every depth is counted exactly once |
| NodeFinder.CountAppend | src/managers/workItemHierarchyStateManager.ts:130-136 | the count of two forests side by side is the sum of their counts, which is what makes add/remove deltas meaningful |
| NodeFinder.FindNode | src/managers/workItemHierarchyStateManager.ts:127 | a node returned by the search carries the id searched for |
| NodeFinder.FindNodeIsFirstPreorderMatch | src/managers/workItemHierarchyStateManager.ts:127 | the search returns exactly the node at the first pre-order position whose id matches, and nothing when no position matches |
| NodeFinder.FindNodeSoundComplete | src/managers/workItemHierarchyStateManager.ts:121-128 | a found node has the id and occurs in the forest; nothing is found if and only if no node of the forest has the id |
| TitleUpdate.UpdateTitle | src/managers/workItemHierarchyStateManager.ts:153-156 | the edit keeps the number of roots |
| TitleUpdate.UpdateTitleKeepsShape | src/managers/workItemHierarchyStateManager.ts:153-156 | the edit changes no id, no type and no part of the tree structure |
| TitleUpdate.UpdateTitleAbsent | src/managers/workItemHierarchyStateManager.ts:153-157 | when no node has the id, the forest is returned unchanged (silent no-op) |
| TitleUpdate.UpdateTitleLabels | src/managers/workItemHierarchyStateManager.ts:153-156 | only the label at the first matching pre-order position changes, and it gets the new title; with no match the forest is unchanged |
| TitleUpdate.UpdateTitleFind | src/managers/workItemHierarchyStateManager.ts:153-155 | searching the edited forest finds the same node as before, now with the new title |
| TitleUpdate.UpdateTitleKeepsCount | src/managers/workItemHierarchyStateManager.ts:152-158 | the edit keeps the node count |
| TitleUpdate.ViewsDetermineForest | src/managers/workItemHierarchyStateManager.ts:152-158 | two forests with equal shape and equal labels are equal, so shape plus labels fully describe the edit's result |
| StateManager.OrNull | src/managers/workItemHierarchyStateManager.ts:28 | `t \|\| null`: the result is present exactly when a non-empty type was given, and then it is that type |
| StateManager.Create | src/managers/workItemHierarchyStateManager.ts:20-33 | the constructor establishes the invariant; the forest is the input, or empty when none is given; the type is coerced by `\|\| null`; the paths are stored as passed |
| StateManager.SetParentWorkItemType | src/managers/workItemHierarchyStateManager.ts:50-60 | the getter then returns exactly the type set; forest, count and paths are untouched and validity is kept |
| StateManager.SetOriginalPaths | src/managers/workItemHierarchyStateManager.ts:62-86 | both path getters then return exactly the arguments, an omitted one reading as absent; forest, count and type are untouched |
| StateManager.GetHierarchy | src/managers/workItemHierarchyStateManager.ts:91-93 | in a valid state the forest handed out has as many nodes as the cached count |
| StateManager.GetHierarchyCount | src/managers/workItemHierarchyStateManager.ts:98-100 | in a valid state the cached count equals the number of nodes in the forest `getHierarchy` returns |
| StateManager.SetInitialHierarchy | src/managers/workItemHierarchyStateManager.ts:107-111 | the new state is valid whatever the old one was; forest = nodes, count = its node total, type coerced by `\|\| null`; both paths kept |
| StateManager.ClearHierarchy | src/managers/workItemHierarchyStateManager.ts:116-119 | the forest is empty and the count 0, a valid state from any start; type and paths kept |
| StateManager.FindNodeById | src/managers/workItemHierarchyStateManager.ts:126-128 | a returned node has the id and occurs in the forest; no node is returned if and only if no node of the forest has the id |
| StateManager.UpdateHierarchyCount | src/managers/workItemHierarchyStateManager.ts:134-136 | the count moves by exactly the signed change and nothing else changes; from a valid state the result is valid only if the change is 0 |
| StateManager.EditThroughRef | src/managers/workItemHierarchyStateManager.ts:138-144 | an edit made through the raw reference replaces the forest and leaves the cached count and metadata as they were |
| StateManager.ReconcileAfterEdit | src/managers/workItemHierarchyStateManager.ts:130-144 | after any edit through the raw reference, reporting the change in node count restores the invariant |
| StateManager.RemoveRootThenReconcile | src/managers/workItemHierarchyStateManager.ts:130-144 | removing a root through the raw reference and then reporting minus the size of its subtree keeps the invariant; for a leaf the change is -1 |
| StateManager.UpdateItemTitle | src/managers/workItemHierarchyStateManager.ts:152-158 | the returned forest is the new stored forest; shape, count, type, paths and validity are kept; an unknown id changes nothing; otherwise the node the lookup finds now carries the new title |
| StateManager.UpdateItemTitleChangesOnlyTarget | src/managers/workItemHierarchyStateManager.ts:152-158 | at the pre-order position of the looked-up node only the title changes; every other position keeps id, title and type; with no match the state is unchanged |
| StateManager.TwoNodeExample | src/managers/workItemHierarchyStateManager.ts:20-33 | for a root with one child the count is 2, the child is found by id, and renaming it changes its title but not the count |

## Left out

- `raiseError`, the error handler field and the `StateManager` child logger
  (lines 7, 16, 23, 30, 38-44): these only emit diagnostics through a callback
  or an external logger and change no state.
- `cloneDeep` (lines 3, 27, 92, 108): a library deep copy. With value types it
  is the identity, so the copy itself is not modelled.
- `getHierarchyRef` (lines 142-144): Dafny values cannot express a live
  mutable handle shared with callers. Its effect is modelled as
  `EditThroughRef`, a forest replacement that leaves the count alone.
- `findNodeById` hands back the live node object (line 127). Changing that
  object from outside is the same aliasing as `getHierarchyRef`. The model
  returns the node as a value.
- Fields of `WorkItemNode` beyond id, title, type and children, and the
  `WorkItemTypeName` enumeration (lines 1-2): their definitions are not part
  of this model. The type tag is kept as text.
- The count is a JavaScript `number`. It is modelled as an unbounded `int`,
  with no floating-point rounding at huge magnitudes.
- NodeFinder.FindNode: the pre-order traversal and the first-match rule are
  assumptions, because the finder's own file is not part of this model. They
  only matter when two nodes share an id; with unique ids any traversal finds
  the same node.
- TitleUpdate.UpdateTitle: the model treats every position of the forest as an
  independent value. In the source one node object can sit at two positions:
  `cloneDeep` keeps shared references shared, and a collaborator using
  `getHierarchyRef` can attach an existing node a second time. Then the
  assignment on line 155 retitles that object at every position, while the
  model retitles only the first pre-order match. Such a shared object carries
  the same id at two positions, so it falls outside the modelled data.
