/** The hierarchy state container `WorkItemHierarchyStateManager`.

    The class copies forests on the way in (`cloneDeep` in the constructor
    and `setInitialHierarchy`) and on the way out (`getHierarchy`), so to its
    callers it behaves as a value: here the state is an immutable record and
    every mutating method is a function from the old state to the new one. */
module StateManager {
  import opened Wrappers
  import opened NodeFinder
  import opened TitleUpdate

  /** The fields of the container. The error handler and logger fallback are
      not modelled (diagnostics only, no state). */
  datatype Manager = Manager(
    hierarchy: Forest,
    parentType: Option<TypeName>,
    count: int,
    areaPath: Option<string>,
    iterationPath: Option<string>)

  /** The cache invariant: the cached count is the recursive count of the
      stored forest. */
  predicate Valid(m: Manager)
  {
    m.count == CountNodes(m.hierarchy)
  }

  /** JavaScript's `t || null` on an optional type name: an omitted type and
      the (falsy) empty string both become `null`. */
  function OrNull(t: Option<TypeName>): (r: Option<TypeName>)
    ensures r.Some? <==> t.Some? && t.value != ""
    ensures r.Some? ==> r == t
  {
    if t.Some? && t.value != "" then t else None
  }

  /** The constructor. An omitted (or null) initial forest yields an empty
      hierarchy; the count is computed from the stored forest; the paths are
      stored as passed. */
  function Create(initial: Option<Forest>, parentType: Option<TypeName>,
                  areaPath: Option<string>, iterationPath: Option<string>): (m: Manager)
    ensures Valid(m)
    ensures m.count == |Preorder(m.hierarchy)|
    ensures initial.Some? ==> m.hierarchy == initial.value
    ensures initial.None? ==> m.hierarchy == [] && m.count == 0
    ensures m.parentType.Some? <==> parentType.Some? && parentType.value != ""
    ensures m.parentType.Some? ==> m.parentType == parentType
    ensures m.areaPath == areaPath && m.iterationPath == iterationPath
  {
    var h := if initial.Some? then initial.value else [];
    CountIsPreorderLength(h);
    Manager(h, OrNull(parentType), CountNodes(h), areaPath, iterationPath)
  }

  function GetParentWorkItemType(m: Manager): Option<TypeName>
  {
    m.parentType
  }

  /** Stores the type as given: unlike the constructor, no `|| null`. */
  function SetParentWorkItemType(m: Manager, t: TypeName): (r: Manager)
    ensures GetParentWorkItemType(r) == Some(t)
    ensures r.hierarchy == m.hierarchy && r.count == m.count
    ensures r.areaPath == m.areaPath && r.iterationPath == m.iterationPath
    ensures Valid(r) <==> Valid(m)
  {
    m.(parentType := Some(t))
  }

  function GetOriginalAreaPath(m: Manager): Option<string>
  {
    m.areaPath
  }

  function GetOriginalIterationPath(m: Manager): Option<string>
  {
    m.iterationPath
  }

  /** Overwrites both paths together; an omitted argument clears its path. */
  function SetOriginalPaths(m: Manager, areaPath: Option<string>, iterationPath: Option<string>): (r: Manager)
    ensures GetOriginalAreaPath(r) == areaPath
    ensures GetOriginalIterationPath(r) == iterationPath
    ensures r.hierarchy == m.hierarchy && r.count == m.count && r.parentType == m.parentType
    ensures Valid(r) <==> Valid(m)
  {
    m.(areaPath := areaPath, iterationPath := iterationPath)
  }

  /** The copy of the forest handed to callers; copying is the identity on
      values, and the copy holds as many nodes as the cache reports. */
  function GetHierarchy(m: Manager): (r: Forest)
    ensures Valid(m) ==> CountNodes(r) == m.count
  {
    m.hierarchy
  }

  /** The cached count, read without recounting. */
  function GetHierarchyCount(m: Manager): (c: int)
    ensures Valid(m) ==> c == |Preorder(GetHierarchy(m))|
  {
    CountIsPreorderLength(m.hierarchy);
    m.count
  }

  /** Replaces forest and parent type wholesale and recounts; the paths are
      kept. */
  function SetInitialHierarchy(m: Manager, nodes: Forest, parentType: Option<TypeName>): (r: Manager)
    ensures Valid(r)
    ensures GetHierarchy(r) == nodes
    ensures GetHierarchyCount(r) == |Preorder(nodes)|
    ensures r.parentType.Some? <==> parentType.Some? && parentType.value != ""
    ensures r.parentType.Some? ==> r.parentType == parentType
    ensures r.areaPath == m.areaPath && r.iterationPath == m.iterationPath
  {
    CountIsPreorderLength(nodes);
    m.(hierarchy := nodes, parentType := OrNull(parentType), count := CountNodes(nodes))
  }

  /** Empties the forest and zeroes the count; type and paths are kept.
      The result satisfies the invariant whatever state it started from. */
  function ClearHierarchy(m: Manager): (r: Manager)
    ensures Valid(r)
    ensures GetHierarchy(r) == [] && GetHierarchyCount(r) == 0
    ensures r.parentType == m.parentType
    ensures r.areaPath == m.areaPath && r.iterationPath == m.iterationPath
  {
    m.(hierarchy := [], count := 0)
  }

  /** Lookup over the stored forest: a result carries the id and is a node
      of the forest; there is no result exactly when no node carries it. */
  function FindNodeById(m: Manager, id: string): (r: Option<Node>)
    ensures r.Some? ==> r.value.id == id && r.value in Preorder(m.hierarchy)
    ensures r.None? <==> forall n :: n in Preorder(m.hierarchy) ==> n.id != id
  {
    FindNodeSoundComplete(m.hierarchy, id);
    FindNode(m.hierarchy, id)
  }

  /** Manual correction of the cached count by a signed amount; nothing else
      changes and nothing is recounted. */
  function UpdateHierarchyCount(m: Manager, change: int): (r: Manager)
    ensures GetHierarchyCount(r) == GetHierarchyCount(m) + change
    ensures r.hierarchy == m.hierarchy && r.parentType == m.parentType
    ensures r.areaPath == m.areaPath && r.iterationPath == m.iterationPath
    ensures Valid(m) ==> (Valid(r) <==> change == 0)
  {
    m.(count := m.count + change)
  }

  /** The effect of a structural edit made by a collaborator through the raw
      reference: the forest changes, the cached count does not. */
  function EditThroughRef(m: Manager, edited: Forest): (r: Manager)
    ensures GetHierarchy(r) == edited && GetHierarchyCount(r) == GetHierarchyCount(m)
    ensures r.parentType == m.parentType
    ensures r.areaPath == m.areaPath && r.iterationPath == m.iterationPath
  {
    m.(hierarchy := edited)
  }

  /** A collaborator that edits through the raw reference and then reports
      the change in node count restores the invariant. */
  lemma ReconcileAfterEdit(m: Manager, edited: Forest)
    requires Valid(m)
    ensures Valid(UpdateHierarchyCount(EditThroughRef(m, edited),
                                       CountNodes(edited) - CountNodes(m.hierarchy)))
  {
  }

  /** Removing the root at position `i` through the raw reference, then
      reporting minus the size of its subtree (minus one for a leaf), keeps
      the invariant. */
  lemma RemoveRootThenReconcile(m: Manager, i: nat)
    requires Valid(m) && i < |m.hierarchy|
    ensures
      var h := m.hierarchy;
      Valid(UpdateHierarchyCount(EditThroughRef(m, h[..i] + h[i + 1..]),
                                 -(1 + CountNodes(h[i].children))))
    ensures
      var h := m.hierarchy;
      h[i].children == [] ==>
        Valid(UpdateHierarchyCount(EditThroughRef(m, h[..i] + h[i + 1..]), -1))
  {
    var h := m.hierarchy;
    assert h == h[..i] + ([h[i]] + h[i + 1..]);
    CountAppend(h[..i], [h[i]] + h[i + 1..]);
    CountAppend([h[i]], h[i + 1..]);
    CountAppend(h[..i], h[i + 1..]);
    assert CountNodes([h[i]]) == 1 + CountNodes(h[i].children);
  }

  /** `updateItemTitle`: retitles the node `findNodeById` returns, then
      returns the copy `getHierarchy` hands out. Ids, types, tree shape, the
      count and the metadata are kept; an unknown id changes nothing. */
  function UpdateItemTitle(m: Manager, itemId: string, newTitle: string): (r: (Manager, Forest))
    ensures r.1 == GetHierarchy(r.0)
    ensures GetHierarchyCount(r.0) == GetHierarchyCount(m)
    ensures r.0.parentType == m.parentType
    ensures r.0.areaPath == m.areaPath && r.0.iterationPath == m.iterationPath
    ensures Erase(r.0.hierarchy) == Erase(m.hierarchy)
    ensures CountNodes(r.0.hierarchy) == CountNodes(m.hierarchy)
    ensures Valid(m) ==> Valid(r.0)
    ensures FindNodeById(m, itemId).None? ==> r.0 == m
    ensures FindNodeById(m, itemId).Some? ==>
      FindNodeById(r.0, itemId) == Some(FindNodeById(m, itemId).value.(title := newTitle))
  {
    var h := m.hierarchy;
    UpdateTitleKeepsShape(h, itemId, newTitle);
    UpdateTitleKeepsCount(h, itemId, newTitle);
    UpdateTitleFind(h, itemId, newTitle);
    if FindNode(h, itemId).None? then
      UpdateTitleAbsent(h, itemId, newTitle);
      (m, h)
    else
      var m' := m.(hierarchy := UpdateTitle(h, itemId, newTitle));
      (m', GetHierarchy(m'))
  }

  /** Label view of `updateItemTitle`: at the pre-order position of the node
      `findNodeById` returns, only the title changes; all other positions
      keep id, title and type. Together with the shape preservation of
      `UpdateItemTitle`, this fixes the new forest completely. */
  lemma UpdateItemTitleChangesOnlyTarget(m: Manager, itemId: string, newTitle: string)
    ensures
      var m' := UpdateItemTitle(m, itemId, newTitle).0;
      match FirstIndex(Preorder(m.hierarchy), itemId)
      case None => m' == m
      case Some(k) =>
        && |Labels(m'.hierarchy)| == |Labels(m.hierarchy)|
        && k < |Labels(m.hierarchy)|
        && Labels(m'.hierarchy)[k] == Labels(m.hierarchy)[k].(title := newTitle)
        && forall j :: 0 <= j < |Labels(m.hierarchy)| && j != k ==>
             Labels(m'.hierarchy)[j] == Labels(m.hierarchy)[j]
  {
    UpdateTitleLabels(m.hierarchy, itemId, newTitle);
    FindNodeIsFirstPreorderMatch(m.hierarchy, itemId);
  }

  /** The two-node example: a root "a" with one child "b". The count is two,
      "b" is found with its title, and after renaming "b" the child carries
      the new title while the count stays two. */
  lemma TwoNodeExample()
    ensures
      var child := Node("b", "Child", "Task", []);
      var m := Create(Some([Node("a", "Root", "Epic", [child])]), None, None, None);
      var (m', out) := UpdateItemTitle(m, "b", "Renamed");
      && GetHierarchyCount(m) == 2
      && FindNodeById(m, "b") == Some(child)
      && out[0].children[0].title == "Renamed"
      && GetHierarchyCount(m') == 2
  {
    var child := Node("b", "Child", "Task", []);
    var f := [Node("a", "Root", "Epic", [child])];
    assert FindNode(f, "b") == Some(child);
  }
}
