# Scene store of a 3D scene editor

This project models the state core of a browser-based 3D scene editor: the
store (`src/store/sceneStore.ts`) that keeps the editor's object list, its
selections and its transform mode, and the commands that change them. The
commands are `addObject`, `removeObject`, `setSelectedObject`,
`toggleObjectSelection`, `clearSelection`, `setTransformMode`,
`toggleVisibility`, `updateObjectName`, `createGroup` and `ungroup`.

The project has six files:

- `scene_types.dfy` (module `SceneTypes`) holds the value types.
  - An `Entry` is one row of the object list: id, renderable, name, visibility and optional parent id.
  - A `Renderable` is a handle for the scene-graph node behind an entry. Its `kind` says whether the node is a group.
  - `TransformMode` is translate, rotate or scale.
- `entry_lists.dfy` (module `EntryLists`) holds the list operations the commands are built from.
  - `Find` is the first entry with an id, as `Array.prototype.find` returns it.
  - `RemoveIds` is the filter.
  - `Renamed`, `VisibilityFlipped`, `Reparented` and `ParentCleared` are the maps.
  - `CountGroups` counts group entries.
  - The file also holds the lemmas about all of these.
- `hierarchy.dfy` (module `Hierarchy`) holds the parent/child hierarchy.
  - `Acyclic` says the ids can be ranked so that every parent reference that names an entry points to a lower rank.
  - `NoParentCycle` proves what that means: following parent references one or more steps never comes back to the starting id.
  - The other lemmas show which list changes keep the hierarchy acyclic.
- `group_names.dfy` (module `GroupNames`) holds the `"Group <k>"` display names.
- `scene.dfy` (module `Scene`) holds each command as a function from the whole old state to the whole new state. Its lemmas state what the commands promise.
  - `Valid` is the invariant every command keeps: ids are distinct and the hierarchy is acyclic.
- `scene_store.dfy` (module `SceneStore`) holds the store itself.
  - `Store` is a class with the four state fields and one method per command. Every method keeps `Valid`.
  - The methods for the seven commands that have a `Scene` function are proved to leave the store in the state that function gives.
  - `SetSelectedObject`, `ClearSelection` and `SetTransformMode` only assign their arguments. Their contracts state each field's new value directly.
  - `CollectIdsToRemove` is the loop `removeObject` uses to gather the ids it drops.

Two inputs of the store come from outside it. Each becomes a parameter:

- **Fresh ids.** `crypto.randomUUID()` becomes the `newId` or `groupId` parameter. A `FreshId` precondition says that no entry has the id, and that no entry names it as its parent. `addObject` draws the id itself, so the caller's parent id is never the new id; `AddObject` requires that too.
- **The new group node.** `new THREE.Group()` becomes the `group` parameter. Its kind is `Group`.

The group's name is not an input: `createGroup` computes it from its own list (line 183). `Scene.CreateGroup` nevertheless takes the naming as a function of the reparented list, only to keep the structural facts about grouping apart from the facts about names. `Store.CreateGroup` always passes `Scene.NextGroupName`, which is the name line 183 computes: `"Group "` followed by one more than the number of group entries in the list.

Renderable identity (`===` on THREE objects) is equality of handles.

## How the code behaves

The model follows the code as written. In these places the code does
something a reader of the store's interface would not expect:

- **Removal reaches one level only.** The comment at line 45 says removing a group removes all its children. `removeObject` drops the entry and its direct children only (lines 46-52). A grandchild stays in the list, and its parent id then names no entry (`Scene.RemoveObjectLeavesGrandchild`).
- **Unknown ids still remove children.** `removeObject` with an id that names no entry still drops the entries whose parent id is that id. Only an id that is neither an entry's id nor any entry's parent changes nothing (`Scene.RemoveObjectUnknownId`).
- **A removed child can stay the single selection.** `removeObject` compares the single selection only with the renderable of the entry named by the id (lines 53-55). Removing a parent drops a selected child from the list and from the multi-selection, yet the child's renderable stays the single selection (`Scene.RemoveParentKeepsSelectedChild`).
- **Group names can repeat.** The group number counts the groups present in the list at creation (line 183). Removing a group lowers that count (`Scene.RemoveGroupLowersGroupCount`), so a later group can get the name of an earlier one.
- **Toggling a selection looks up the toggled id.** When one id is left selected, `toggleObjectSelection` looks up the id that was toggled, not the one left (line 76). Deselecting one of two ids therefore makes the single selection the renderable just deselected (`Scene.ToggleOffTargetsDeselected`).
- **Toggling a selection ignores visibility.** `toggleObjectSelection` does not ask whether the entry is visible (lines 75-81). A hidden entry's renderable can become the single selection (`Scene.ToggleSelectsHiddenEntry`).
- **A parent id need not name an entry.** `addObject` stores the parent id it is given without looking it up (lines 38-40). An entry can therefore point at a missing parent from the moment it is added, not only after a one-level removal. `Scene.AddObject` requires only that the parent id is not the new id.
- **Ungroup does not check the kind.** `ungroup` accepts the id of any entry, group or not (line 199). The model does the same.

## Model

| member | source | states |
|---|---|---|
| Scene.AddObject | src/store/sceneStore.ts:38-41 | appends exactly one visible entry with the fresh id, renderable, name and parent. Earlier entries are unchanged. The ids grow by the new id. The state is valid after iff it was before. Selections and mode are unchanged |
| SceneStore.Store.AddObject | src/store/sceneStore.ts:38-41 | the store's new state is `Scene.AddObject` of its old state, and the store stays valid |
| Scene.IdsToRemove | src/store/sceneStore.ts:46-49 | the set holds the id and the id of every entry whose parent it is, and every other id in it is such a child's |
| SceneStore.CollectIdsToRemove | src/store/sceneStore.ts:46-49 | the loop's set is the removed id plus exactly the ids of the entries whose parent it is |
| Scene.RemoveObject | src/store/sceneStore.ts:43-58 | an entry survives iff its id is neither the id nor a child's id. A selected id survives under the same test. The single selection is kept or cleared, and is kept when the id names no entry. Mode is unchanged |
| Scene.RemoveObjectValid | src/store/sceneStore.ts:46-55 | in a valid state, an entry survives iff it is not the entry and not parented to it, and the state stays valid. The single selection changes iff it is the removed entry's renderable. Survivors keep their order (`EntryLists.RemoveIdsSnoc`) |
| Scene.RemoveObjectUnknownId | src/store/sceneStore.ts:46-55 | an id that is neither an entry's id nor any entry's parent leaves the list and the single selection unchanged |
| Scene.RemoveObjectLeavesGrandchild | src/store/sceneStore.ts:46-52 | a grandchild of the removed entry stays in the list, while its parent's id is gone |
| Scene.RemoveParentKeepsSelectedChild | src/store/sceneStore.ts:46-56 | removing a parent drops a selected child from the list and the multi-selection, while the child's renderable stays the single selection |
| Scene.RemoveGroupLowersGroupCount | src/store/sceneStore.ts:183 | removing a group entry strictly lowers the count the next group name is built from |
| SceneStore.Store.RemoveObject | src/store/sceneStore.ts:43-58 | the store's new state is `Scene.RemoveObject` of its old state, and the store stays valid |
| SceneStore.Store.SetSelectedObject | src/store/sceneStore.ts:60-63 | the single selection becomes the argument and the multi-selection empties. Objects and mode are unchanged |
| Scene.ToggleObjectSelection | src/store/sceneStore.ts:65-86 | the toggled id's membership flips and no other id's does. When one id is left selected and the toggled id names an entry, the single selection is that entry's renderable. Otherwise the single selection is unchanged |
| Scene.ToggleObjectSelectionTarget | src/store/sceneStore.ts:75-81 | with distinct ids and one id left selected, the single selection is the renderable of the entry with the toggled id |
| Scene.ToggleOffTargetsDeselected | src/store/sceneStore.ts:67-81 | deselecting one of two selected ids leaves the other selected, yet makes the single selection the deselected entry's renderable |
| Scene.ToggleSelectsHiddenEntry | src/store/sceneStore.ts:75-81 | toggling a hidden entry's id into an empty selection makes its renderable the single selection, while the entry stays hidden |
| SceneStore.Store.ToggleObjectSelection | src/store/sceneStore.ts:65-86 | the store's new state is `Scene.ToggleObjectSelection` of its old state |
| SceneStore.Store.ClearSelection | src/store/sceneStore.ts:88 | the multi-selection empties. The single selection, objects and mode are unchanged |
| SceneStore.Store.SetTransformMode | src/store/sceneStore.ts:90 | the mode becomes the argument. Everything else is unchanged |
| Scene.ToggleVisibility | src/store/sceneStore.ts:92-108 | the visibility of exactly the entries with the id is negated, in place. The single selection is cleared iff the found entry was visible and is the selected renderable. Otherwise it is unchanged |
| Scene.ToggleVisibilityIds | src/store/sceneStore.ts:94-96 | the ids are unchanged, and the state is valid after iff it was before |
| Scene.ToggleVisibilityUnknownId | src/store/sceneStore.ts:92-108 | an id no entry carries leaves the whole state unchanged |
| Scene.ToggleVisibilityClearsSelection | src/store/sceneStore.ts:98-102 | with distinct ids, the single selection changes iff the entry with the id was visible and is the selected renderable |
| Scene.ToggleVisibilityTwice | src/store/sceneStore.ts:94-96 | toggling the same id twice restores the object list |
| SceneStore.Store.ToggleVisibility | src/store/sceneStore.ts:92-108 | the store's new state is `Scene.ToggleVisibility` of its old state, and the store stays valid |
| Scene.UpdateObjectName | src/store/sceneStore.ts:110-115 | exactly the entries with the id take the new name, in place. Ids, selections and mode are unchanged, and the state is valid after iff it was before |
| Scene.UpdateObjectNameUnknownId | src/store/sceneStore.ts:110-115 | an id no entry carries leaves the whole state unchanged |
| Scene.UpdateObjectNameFind | src/store/sceneStore.ts:112-114 | after renaming, looking the id up finds an entry with the new name, also when several entries share the id |
| SceneStore.Store.UpdateObjectName | src/store/sceneStore.ts:110-115 | the store's new state is `Scene.UpdateObjectName` of its old state, and the store stays valid |
| Scene.Grouped | src/store/sceneStore.ts:168-191 | every selected entry is reparented to the group in place, and the others are unchanged. The group's visible, parentless entry is appended last. The group becomes the only selection and the single selection |
| Scene.CreateGroup | src/store/sceneStore.ts:140-192 | fewer than two selected ids leave the state unchanged. Otherwise the result is the grouped state, with the name the naming scheme gives the reparented list |
| Scene.GroupedChildren | src/store/sceneStore.ts:168-177 | the group's children are exactly the selected ids that name entries |
| Scene.GroupedCountsUp | src/store/sceneStore.ts:168-185 | grouping adds exactly one group entry |
| Scene.GroupedIds | src/store/sceneStore.ts:168-185 | grouping adds exactly the group's id. Ids are distinct after iff they were before, and a valid state stays valid |
| Scene.CreateGroupCountsUp | src/store/sceneStore.ts:140-192 | a createGroup that groups adds exactly one group entry, so the next group name counts one higher |
| Scene.NextGroupNameReparented | src/store/sceneStore.ts:168-183 | reparenting keeps the renderables, so the name counted on the reparented list is the name counted on the old list |
| Scene.NextGroupName | src/store/sceneStore.ts:183 | the name is "Group " followed by digits, without a leading zero, that read back as one more than the number of group entries in the list |
| Scene.NextGroupNameWithoutGroups | src/store/sceneStore.ts:183 | a list without groups names its first group "Group 1" |
| Scene.CreateGroupName | src/store/sceneStore.ts:180-185 | with the store's naming, the new group's entry is named after the number of groups present before createGroup |
| SceneStore.Store.CreateGroup | src/store/sceneStore.ts:140-192 | the store's new state is `Scene.CreateGroup` of its old state with the store's naming, and the store stays valid |
| GroupNames.Decimal | src/store/sceneStore.ts:183 | the numeral the template literal writes for a number is non-empty, made of decimal digits, and has no leading zero unless the number is 0 |
| GroupNames.DecimalValueOfDecimal | src/store/sceneStore.ts:183 | the decimal numeral the name template writes reads back as the number it was written from |
| GroupNames.GroupName | src/store/sceneStore.ts:183 | the `k`-th group's name is "Group " followed by digits that read back as `k`, with no leading zero unless `k` is 0 |
| GroupNames.GroupNameInjective | src/store/sceneStore.ts:183 | different group numbers give different names |
| Scene.Ungroup | src/store/sceneStore.ts:194-223 | an id no entry carries leaves the state unchanged. Otherwise the entry's id leaves the list, no entry is parented to it any more, and both selections are cleared. Mode is unchanged |
| Scene.UngroupValid | src/store/sceneStore.ts:206-216 | in a valid state, ungroup drops exactly one entry and keeps every other entry, with its parent reference to the group cleared, and the state stays valid. Survivors keep their order (`EntryLists.RemoveIdsSnoc`) |
| Scene.GroupedWithoutGroup | src/store/sceneStore.ts:206-207 | filtering the new group's id out of the grouped list leaves exactly the reparented entries |
| Scene.UngroupNewGroup | src/store/sceneStore.ts:194-223 | ungrouping a group just created gives the reparented list with the group's parent references cleared, and no selection |
| Scene.CreateGroupThenUngroup | src/store/sceneStore.ts:140-223 | createGroup then ungroup of the new group keeps every entry in order, and clears the parent of exactly the selected ones. Both selections end up empty |
| Scene.CreateGroupThenUngroupRestores | src/store/sceneStore.ts:140-223 | when the selected entries had no parent, createGroup then ungroup restores the object list exactly and clears both selections |
| SceneStore.Store.Ungroup | src/store/sceneStore.ts:194-223 | the store's new state is `Scene.Ungroup` of its old state, and the store stays valid |
| SceneStore.Store.constructor | src/store/sceneStore.ts:32-36 | a new store holds no objects and no selection, in translate mode, and is valid |
| EntryLists.Find | src/store/sceneStore.ts:76 | finds nothing iff no entry has the id. Otherwise it finds an entry of the list with that id |
| EntryLists.FindIsFirst | src/store/sceneStore.ts:76 | the entry found is the first one with the id |
| EntryLists.FindUnique | src/store/sceneStore.ts:196 | with distinct ids, the entry found is the one entry with the id |
| EntryLists.RemoveIds | src/store/sceneStore.ts:52 | an entry is kept iff its id is not among the ids, and the list does not grow |
| EntryLists.RemoveIdsUnique | src/store/sceneStore.ts:52 | filtering keeps ids distinct |
| EntryLists.RemoveIdsIds | src/store/sceneStore.ts:52 | filtering removes exactly the given ids from the list's ids |
| EntryLists.RemoveIdsAppend | src/store/sceneStore.ts:206-207 | filtering a concatenation filters each part |
| EntryLists.RemoveIdsSnoc | src/store/sceneStore.ts:52 | filtering a list with one more entry at the end gives the filtered list, followed by that entry iff its id is kept. So the kept entries stay in order |
| EntryLists.RemoveOneIdLength | src/store/sceneStore.ts:206-207 | with distinct ids, filtering out one present id shortens the list by one |
| EntryLists.Renamed | src/store/sceneStore.ts:112-114 | the map keeps ids and renderables in place, and renames exactly the entries with the id |
| EntryLists.VisibilityFlipped | src/store/sceneStore.ts:94-96 | the map keeps ids and renderables in place, and negates the visibility of exactly the entries with the id |
| EntryLists.Reparented | src/store/sceneStore.ts:168-177 | the map keeps ids and renderables in place, and sets the parent of exactly the selected entries |
| EntryLists.ParentCleared | src/store/sceneStore.ts:208-216 | the map keeps ids and renderables in place, and clears the parent of exactly the entries parented to the group |
| EntryLists.ParentClearedReparented | src/store/sceneStore.ts:168-216 | clearing the parents a reparenting set undoes it, except that a selected entry's parent becomes none |
| EntryLists.CountGroups | src/store/sceneStore.ts:183 | the count is at most the list's length, and is zero iff no entry is a group |
| EntryLists.CountGroupsRemoveIds | src/store/sceneStore.ts:52 | filtering out a group entry lowers the group count |
| EntryLists.AlignedCountGroups | src/store/sceneStore.ts:168-183 | lists that agree on ids and renderables entry by entry hold the same number of groups |
| Hierarchy.NoParentCycle | src/store/sceneStore.ts:9 | in an acyclic list, following parent references one or more steps never returns to the starting id |
| Hierarchy.EmptyAcyclic | src/store/sceneStore.ts:33 | the empty list of a new store is acyclic |
| Hierarchy.AppendedAcyclic | src/store/sceneStore.ts:40 | appending an entry under a fresh id that is not its own parent keeps a list acyclic, and only an acyclic list stays acyclic that way |
| Hierarchy.SubListAcyclic | src/store/sceneStore.ts:52 | dropping entries, as removeObject's filter does, keeps a list acyclic |
| Hierarchy.LinksDroppedAcyclic | src/store/sceneStore.ts:206-216 | keeping ids in place and keeping or clearing each parent reference, as ungroup's map does, keeps a list acyclic |
| Hierarchy.SameLinksAcyclic | src/store/sceneStore.ts:94-96 | lists with the same ids and parent references position by position are acyclic together, as after a rename or a visibility flip |
| Hierarchy.GroupedAcyclic | src/store/sceneStore.ts:168-185 | parenting entries to a fresh group id and appending the parentless group keeps a list acyclic |
| Scene.TwoAdded | src/store/sceneStore.ts:38-41 | adding a box and a sphere to a new store lists both, visible and parentless, in order, with nothing selected |
| Scene.TwoSelected | src/store/sceneStore.ts:65-86 | toggling both into the selection selects both ids, and the box, toggled first, stays the single selection |
| Scene.GroupingScenario | src/store/sceneStore.ts:140-192 | grouping those two parents both to the new group "Group 1", which is appended last and becomes the only selection |
| Scene.UngroupingScenario | src/store/sceneStore.ts:194-223 | ungrouping that group gives back the two parentless entries with nothing selected |

## Left out

- The centroid and world-position arithmetic of createGroup (lines 149-165, 170-172) is left out. It is floating-point vector math on THREE objects, and no structural field depends on it.
- Ungroup's world-matrix transfer (lines 201-204, 211) is left out for the same reason. Transform continuity across grouping and ungrouping is therefore not stated.
- Attaching and detaching scene-graph nodes (`group.add` at line 173, `removeFromParent` at line 212) is left out. These mutate the renderables, not the store's fields.
- The list of children computed and never used in ungroup (line 197) is left out.
- updateObjectProperties, updateObjectColor and updateObjectOpacity (lines 117-138) are left out. They only re-publish the state or mutate material colours and opacity, which are floating-point and rendering concerns.
- The store library's `set`/subscribe plumbing and the editor's UI components are left out. They are callers, not part of the state core.
- Geometry editing (extrusion, subdivision) and vertex/edge/face selection modes do not appear in the store's code. They are not part of this model.
- The order `Array.from` gives the selected ids (line 146) only feeds the centroid. The model keeps the selection as a set.
